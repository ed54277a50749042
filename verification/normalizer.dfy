/**
 The normaliser `preprocessAcademicHistoryText`: line-ending repair (step 1), seven
 regular-expression rewrites that put line breaks into the text (steps 2-7; as written, the
 first rewrite of step 3 also drops the credit digits and the `F` after them), collapsing runs of
 line breaks (step 8), trimming every line (step 9) and trimming the whole text (step 10).
 */
module Normalizer {
  import opened Common
  import opened Text

  // ---------------------------------------------------------------------------
  // Line breaks added or removed, and nothing else
  // ---------------------------------------------------------------------------

  /** `long` is `short` with zero or more `\n` inserted anywhere (read from the right end). */
  predicate BreaksAdded(short: string, long: string)
    decreases |long|
  {
    if |long| == 0 then |short| == 0
    else
      var n := |long| - 1;
      || (|short| > 0 && long[n] == short[|short| - 1] && BreaksAdded(short[..|short| - 1], long[..n]))
      || (long[n] == '\n' && BreaksAdded(short, long[..n]))
  }

  lemma {:induction false} BreaksAddedRefl(s: string)
    ensures BreaksAdded(s, s)
  {
    if |s| > 0 {
      BreaksAddedRefl(s[..|s| - 1]);
    }
  }

  /** A character kept on both sides extends the relation. */
  lemma BreaksAddedKeep(short: string, long: string, c: char)
    requires BreaksAdded(short, long)
    ensures BreaksAdded(short + [c], long + [c])
  {
    assert (long + [c])[..|long|] == long;
    assert (short + [c])[..|short|] == short;
  }

  /** So does a break added to the longer side only. */
  lemma BreaksAddedBreak(short: string, long: string)
    requires BreaksAdded(short, long)
    ensures BreaksAdded(short, long + "\n")
  {
    assert (long + "\n")[..|long|] == long;
  }

  /** Inserting breaks into a text with breaks inserted is inserting breaks. */
  lemma {:induction false} BreaksAddedTrans(a: string, b: string, c: string)
    requires BreaksAdded(a, b) && BreaksAdded(b, c)
    ensures BreaksAdded(a, c)
    decreases |c|
  {
    if |c| > 0 {
      var n := |c| - 1;
      if |b| > 0 && c[n] == b[|b| - 1] && BreaksAdded(b[..|b| - 1], c[..n]) {
        var m := |b| - 1;
        if |a| > 0 && b[m] == a[|a| - 1] && BreaksAdded(a[..|a| - 1], b[..m]) {
          BreaksAddedTrans(a[..|a| - 1], b[..m], c[..n]);
        } else {
          BreaksAddedTrans(a, b[..m], c[..n]);
        }
      } else {
        BreaksAddedTrans(a, b, c[..n]);
      }
    }
  }

  /** Line breaks are whitespace: adding them changes no visible character. */
  lemma {:induction false} BreaksAddedNonBlank(short: string, long: string)
    requires BreaksAdded(short, long)
    ensures NonBlank(short) == NonBlank(long)
    decreases |long|
  {
    if |long| > 0 {
      var n := |long| - 1;
      var rest, c := long[..n], long[n];
      assert long == rest + [c];
      NonBlankSnoc(rest, c);
      if |short| > 0 && c == short[|short| - 1] && BreaksAdded(short[..|short| - 1], rest) {
        var init := short[..|short| - 1];
        assert short == init + [c];
        NonBlankSnoc(init, c);
        BreaksAddedNonBlank(init, rest);
      } else {
        assert c == '\n' && BreaksAdded(short, rest);
        BreaksAddedNonBlank(short, rest);
      }
    }
  }

  /** `NonBlank` of a text with one more character at the end. */
  lemma NonBlankSnoc(s: string, c: char)
    ensures NonBlank(s + [c]) == NonBlank(s) + (if IsSpace(c) then [] else [c])
  {
    NonBlankConcat(s, [c]);
    assert [c][1..] == [];
  }


  /** Adding line breaks invents no other character and loses none. */
  lemma {:induction false} BreaksAddedChars(short: string, long: string)
    requires BreaksAdded(short, long)
    ensures forall c :: c in long ==> c in short || c == '\n'
    ensures forall c :: c in short ==> c in long
    decreases |long|
  {
    if |long| > 0 {
      var n := |long| - 1;
      assert long == long[..n] + [long[n]];
      if |short| > 0 && long[n] == short[|short| - 1] && BreaksAdded(short[..|short| - 1], long[..n]) {
        var m := |short| - 1;
        assert short == short[..m] + [short[m]];
        BreaksAddedChars(short[..m], long[..n]);
      } else {
        BreaksAddedChars(short, long[..n]);
      }
    }
  }

  // ---------------------------------------------------------------------------
  // Step 1: line endings
  // ---------------------------------------------------------------------------

  /** `strings.ReplaceAll(s, "\r\n", "\n")`: leftmost, non-overlapping occurrences. */
  function CrlfToLf(s: string): string {
    if |s| == 0 then ""
    else if |s| >= 2 && s[0] == '\r' && s[1] == '\n' then "\n" + CrlfToLf(s[2..])
    else [s[0]] + CrlfToLf(s[1..])
  }

  /** `strings.ReplaceAll(s, "\r", "\n")`. */
  function CrToLf(s: string): string {
    seq(|s|, i requires 0 <= i < |s| => if s[i] == '\r' then '\n' else s[i])
  }

  /** Step 1: Windows and old Mac line endings become `\n`. */
  function LineEndings(raw: string): (r: string)
    ensures '\r' !in r
  {
    CrToLf(CrlfToLf(raw))
  }

  lemma CrlfToLfKeeps(s: string)
    ensures NonBlank(CrlfToLf(s)) == NonBlank(s)
    ensures forall c :: c in CrlfToLf(s) ==> c in s
    ensures '\r' !in s ==> CrlfToLf(s) == s
  {
    CrlfToLfNonBlank(s);
    CrlfToLfChars(s);
    if '\r' !in s {
      CrlfToLfFixed(s);
    }
  }

  lemma {:induction false} CrlfToLfNonBlank(s: string)
    ensures NonBlank(CrlfToLf(s)) == NonBlank(s)
  {
    if |s| >= 2 && s[0] == '\r' && s[1] == '\n' {
      CrlfToLfNonBlank(s[2..]);
      assert s == "\r\n" + s[2..];
      NonBlankConcat("\r\n", s[2..]);
      NonBlankConcat("\n", CrlfToLf(s[2..]));
      assert NonBlank("\r\n") == [];
    } else if |s| > 0 {
      CrlfToLfNonBlank(s[1..]);
      assert s == [s[0]] + s[1..];
      NonBlankConcat([s[0]], s[1..]);
      NonBlankConcat([s[0]], CrlfToLf(s[1..]));
    }
  }

  lemma {:induction false} CrlfToLfChars(s: string)
    ensures forall c :: c in CrlfToLf(s) ==> c in s
  {
    if |s| >= 2 && s[0] == '\r' && s[1] == '\n' {
      CrlfToLfChars(s[2..]);
      assert s[1] in s;
      assert forall c :: c in s[2..] ==> c in s;
    } else if |s| > 0 {
      CrlfToLfChars(s[1..]);
      assert forall c :: c in s[1..] ==> c in s;
    }
  }

  lemma {:induction false} CrlfToLfFixed(s: string)
    requires '\r' !in s
    ensures CrlfToLf(s) == s
  {
    if |s| > 0 {
      assert s[1..] + [] == s[1..];
      assert '\r' !in s[1..] by {
        forall i | 0 <= i < |s[1..]| ensures s[1..][i] != '\r' { assert s[1..][i] == s[i + 1]; }
      }
      CrlfToLfFixed(s[1..]);
      assert s == [s[0]] + s[1..];
    }
  }


  lemma {:induction false} CrToLfKeeps(s: string)
    ensures NonBlank(CrToLf(s)) == NonBlank(s)
    ensures forall c :: c in CrToLf(s) ==> c in s || c == '\n'
    ensures '\r' !in s ==> CrToLf(s) == s
  {
    if |s| > 0 {
      CrToLfKeeps(s[1..]);
      assert CrToLf(s)[1..] == CrToLf(s[1..]);
      assert CrToLf(s) == [CrToLf(s)[0]] + CrToLf(s[1..]);
    }
  }

  /** Step 1 turns every line ending into `\n`; it changes no visible character and leaves Unix text alone. */
  lemma LineEndingsKeep(raw: string)
    ensures NonBlank(LineEndings(raw)) == NonBlank(raw)
    ensures forall c :: c in LineEndings(raw) ==> c in raw || c == '\n'
    ensures '\r' !in raw ==> LineEndings(raw) == raw
  {
    CrlfToLfKeeps(raw);
    CrToLfKeeps(CrlfToLf(raw));
  }

  // ---------------------------------------------------------------------------
  // Steps 2-7: `ReplaceAllString` rewrites that put one `\n` into each match
  // ---------------------------------------------------------------------------

  /** A match of one rewrite: where its line break goes and where the match ends. */
  datatype Hit = Hit(cut: nat, end: nat)

  /** The rewrites of steps 2 to 7, in order; step 3 runs two expressions. */
  datatype Rule =
    | SubjectStart     // step 2: `\n` before `NAME (CODE)`
    | CreditsBeforeF   // step 3: `\n` after letters, before 1-2 digits followed by `F`
    | CreditsAlone     // step 3: `\n` before 1-2 digits ending a word
    | TypeStart        // step 4: `\n` before a tipología after 1-2 digits
    | PeriodStart      // step 5: `\n` before `YYYY-NS` after a tipología word
    | GradeStart       // step 6: `\n` before `D.D` after a period
    | StatusStart      // step 7: `\n` before `APROBADA` after a grade

  const Rules: seq<Rule> :=
    [SubjectStart, CreditsBeforeF, CreditsAlone, TypeStart, PeriodStart, GradeStart, StatusStart]

  /** The bracket expressions of steps 2 and 3. */
  datatype CharClass =
    | NameClass    // `[A-Za-zÁÉÍÓÚÑáéíóúüÜ0-9\- ]`
    | CodeClass    // `[0-9A-Z\-]`
    | LetterClass  // `[A-Za-zÁÉÍÓÚÑáéíóúüÜ)]`

  predicate Letter(c: char) {
    || ('A' <= c <= 'Z') || ('a' <= c <= 'z')
    || c == 'Á' || c == 'É' || c == 'Í' || c == 'Ó' || c == 'Ú' || c == 'Ñ'
    || c == 'á' || c == 'é' || c == 'í' || c == 'ó' || c == 'ú' || c == 'ü' || c == 'Ü'
  }

  predicate InClass(cls: CharClass, c: char) {
    match cls
    case NameClass => Letter(c) || IsDigit(c) || c == '-' || c == ' '
    case CodeClass => IsDigit(c) || ('A' <= c <= 'Z') || c == '-'
    case LetterClass => Letter(c) || c == ')'
  }

  /** `\w` of Go's regular expressions: ASCII letters, digits and `_`. */
  predicate WordChar(c: char) {
    ('A' <= c <= 'Z') || ('a' <= c <= 'z') || IsDigit(c) || c == '_'
  }

  predicate DigitAt(s: string, i: nat) {
    i < |s| && IsDigit(s[i])
  }

  predicate CharAt(s: string, i: nat, c: char) {
    i < |s| && s[i] == c
  }

  /** `\b` right after a word character that ends at `i`. */
  predicate BoundaryAt(s: string, i: nat) {
    i >= |s| || !WordChar(s[i])
  }

  /** The end of the longest run of `cls` characters starting at `k`. */
  function RunEnd(s: string, k: nat, cls: CharClass): (e: nat)
    requires k <= |s|
    ensures k <= e <= |s|
    ensures forall i :: k <= i < e ==> InClass(cls, s[i])
    ensures e < |s| ==> !InClass(cls, s[e])
    decreases |s| - k
  {
    if k < |s| && InClass(cls, s[k]) then RunEnd(s, k + 1, cls) else k
  }

  /** The first of `words` that occurs at `i` (an alternation of literals, tried in order). */
  function KeywordAt(s: string, i: nat, words: seq<string>): (r: Option<string>)
    ensures r.Some? ==> r.value in words && OccursAt(s, r.value, i)
    ensures r.None? ==> forall w :: w in words ==> !OccursAt(s, w, i)
  {
    if |words| == 0 then None
    else if OccursAt(s, words[0], i) then Some(words[0])
    else KeywordAt(s, i, words[1..])
  }

  const TypeWords: seq<string> := [
    "FUND. OBLIGATORIA", "FUND. OPTATIVA", "DISCIPLINAR OBLIGATORIA", "DISCIPLINAR OPTATIVA",
    "LIBRE ELECCIÓN", "NIVELACIÓN", "TRABAJO DE GRADO"
  ]

  const PeriodWords: seq<string> := ["OBLIGATORIA", "OPTATIVA", "ELECCIÓN", "NIVELACIÓN", "GRADO"]

  /** `\d{4}-` at `p`. */
  predicate YearAt(s: string, p: nat) {
    DigitAt(s, p) && DigitAt(s, p + 1) && DigitAt(s, p + 2) && DigitAt(s, p + 3) && CharAt(s, p + 4, '-')
  }

  /**
   The lengths a period `\d{4}-\dS|\d{4}-\d{1,2}S|\d{4}-\d{1,2}` can take at `p`, in the order
   a leftmost-first matcher tries them (first alternative first, greedy repetition longest first).
   */
  function PeriodLengths(s: string, p: nat): (ls: seq<nat>)
    ensures forall i :: 0 <= i < |ls| ==> 6 <= ls[i] && p + ls[i] <= |s|
    ensures |ls| > 0 <==> YearAt(s, p) && DigitAt(s, p + 5)
  {
    if !YearAt(s, p) || !DigitAt(s, p + 5) then []
    else
      (if CharAt(s, p + 6, 'S') then [7] else [])
      + (if DigitAt(s, p + 6) && CharAt(s, p + 7, 'S') then [8] else [])
      + (if CharAt(s, p + 6, 'S') then [7] else [])
      + (if DigitAt(s, p + 6) then [7] else [])
      + [6]
  }

  /** `[0-9]\.[0-9]` at `i`. */
  predicate GradeAt(s: string, i: nat) {
    DigitAt(s, i) && CharAt(s, i + 1, '.') && DigitAt(s, i + 2)
  }

  /** Step 2: `([A-Za-zÁÉÍÓÚÑáéíóúüÜ0-9\- ]+\([0-9A-Z\-]+\))` replaced by `\n$1`. */
  function MatchSubject(s: string, k: nat): Option<Hit>
    requires k < |s|
  {
    if !InClass(NameClass, s[k]) then None
    else
      var e := RunEnd(s, k, NameClass);
      if !CharAt(s, e, '(') then None
      else
        var f := RunEnd(s, e + 1, CodeClass);
        if f > e + 1 && CharAt(s, f, ')') then Some(Hit(k, f + 1)) else None
  }

  /** Step 3: `([A-Za-zÁÉÍÓÚÑáéíóúüÜ)]+)(\d{1,2})F` replaced by `$1\n$2F`, that is by `$1\n${2F}`. */
  function MatchCreditsBeforeF(s: string, k: nat): Option<Hit>
    requires k < |s|
  {
    if !InClass(LetterClass, s[k]) then None
    else
      var e := RunEnd(s, k, LetterClass);
      if DigitAt(s, e) && DigitAt(s, e + 1) && CharAt(s, e + 2, 'F') then Some(Hit(e, e + 3))
      else if DigitAt(s, e) && CharAt(s, e + 1, 'F') then Some(Hit(e, e + 2))
      else None
  }

  /** Step 3: `([A-Za-zÁÉÍÓÚÑáéíóúüÜ)]+)(\d{1,2})\b` replaced by `$1\n$2`. */
  function MatchCreditsAlone(s: string, k: nat): Option<Hit>
    requires k < |s|
  {
    if !InClass(LetterClass, s[k]) then None
    else
      var e := RunEnd(s, k, LetterClass);
      if DigitAt(s, e) && DigitAt(s, e + 1) && BoundaryAt(s, e + 2) then Some(Hit(e, e + 2))
      else if DigitAt(s, e) && BoundaryAt(s, e + 1) then Some(Hit(e, e + 1))
      else None
  }

  /** Step 4: `(\d{1,2})((FUND\. OBLIGATORIA|...|TRABAJO DE GRADO))` replaced by `$1\n$2`. */
  function MatchType(s: string, k: nat): Option<Hit>
    requires k < |s|
  {
    if !DigitAt(s, k) then None
    else if DigitAt(s, k + 1) && KeywordAt(s, k + 2, TypeWords).Some? then
      Some(Hit(k + 2, k + 2 + |KeywordAt(s, k + 2, TypeWords).value|))
    else if KeywordAt(s, k + 1, TypeWords).Some? then
      Some(Hit(k + 1, k + 1 + |KeywordAt(s, k + 1, TypeWords).value|))
    else None
  }

  /**
   Step 5: `(OBLIGATORIA|OPTATIVA|ELECCIÓN|NIVELACIÓN|GRADO)(\d{4}-\dS|\d{4}-\dS|\d{4}-\d{1,2}S|\d{4}-\d{1,2})`
   replaced by `$1\n$2`. The repeated first alternative cannot change which period wins, so the
   period is the first of `PeriodLengths`.
   */
  function MatchPeriod(s: string, k: nat): Option<Hit>
    requires k < |s|
  {
    match KeywordAt(s, k, PeriodWords)
    case None => None
    case Some(w) =>
      var p := k + |w|;
      var ls := PeriodLengths(s, p);
      if |ls| == 0 then None else Some(Hit(p, p + ls[0]))
  }

  /**
   Step 6: `(\d{4}-\dS|\d{4}-\d{1,2}S|\d{4}-\d{1,2})( Ordinaria)?([0-9]\.[0-9])` replaced by
   `$1$2\n$3`: each period length in turn, with the optional word first, then without it.
   */
  function GradeAfter(s: string, k: nat, lengths: seq<nat>): (r: Option<Hit>)
    ensures r.Some? ==> k <= r.value.cut && r.value.cut + 3 == r.value.end <= |s|
  {
    if |lengths| == 0 then None
    else
      var q := k + lengths[0];
      if OccursAt(s, " Ordinaria", q) && GradeAt(s, q + 10) then Some(Hit(q + 10, q + 13))
      else if GradeAt(s, q) then Some(Hit(q, q + 3))
      else GradeAfter(s, k, lengths[1..])
  }

  /** Step 7: `([0-9]\.[0-9])((APROBADA|APROBAD))` replaced by `$1\n$2`. */
  function MatchStatus(s: string, k: nat): Option<Hit>
    requires k < |s|
  {
    if !GradeAt(s, k) then None
    else if OccursAt(s, "APROBADA", k + 3) then Some(Hit(k + 3, k + 11))
    else if OccursAt(s, "APROBAD", k + 3) then Some(Hit(k + 3, k + 10))
    else None
  }

  /** The preferred match of `rule` that starts exactly at `k`, if any. */
  function MatchAt(rule: Rule, s: string, k: nat): (r: Option<Hit>)
    requires k < |s|
    ensures r.Some? ==> k <= r.value.cut < r.value.end <= |s|
  {
    match rule
    case SubjectStart => MatchSubject(s, k)
    case CreditsBeforeF => MatchCreditsBeforeF(s, k)
    case CreditsAlone => MatchCreditsAlone(s, k)
    case TypeStart => MatchType(s, k)
    case PeriodStart => MatchPeriod(s, k)
    case GradeStart => GradeAfter(s, k, PeriodLengths(s, k))
    case StatusStart => MatchStatus(s, k)
  }

  /**
   Where `ReplaceAllString` puts its line breaks: the leftmost match at or after `p`, then
   the next search resumes where that match ended, so matches never overlap.
   */
  function Cuts(rule: Rule, s: string, p: nat): (cuts: set<nat>)
    requires p <= |s|
    ensures forall c :: c in cuts ==> p <= c < |s|
    decreases |s| - p
  {
    if p == |s| then {}
    else
      match MatchAt(rule, s, p)
      case Some(h) => {h.cut} + Cuts(rule, s, h.end)
      case None => Cuts(rule, s, p + 1)
  }

  /**
   The positions a rewrite leaves out, over the same scan as `Cuts`. Step 3's first template,
   `$1\n$2F`, is read by Go as `$1`, a line break and a reference to the group named `2F` (a
   `$name` reference takes the longest name it can); no group has that name, so the reference
   expands to nothing and the credit digits and the `F` of each match are lost. Every other
   template keeps its match whole.
   */
  function Drops(rule: Rule, s: string, p: nat): (drops: set<nat>)
    requires p <= |s|
    ensures forall i :: i in drops ==> p <= i < |s|
    decreases |s| - p
  {
    if rule != CreditsBeforeF || p == |s| then {}
    else
      match MatchAt(rule, s, p)
      case Some(h) => Span(h.cut, h.end) + Drops(rule, s, h.end)
      case None => Drops(rule, s, p + 1)
  }

  /** The positions `a` to `b - 1`. */
  function Span(a: nat, b: nat): (r: set<nat>)
    ensures forall i :: i in r <==> a <= i < b
    decreases b - a
  {
    if a >= b then {} else {a} + Span(a + 1, b)
  }

  /** `s` without the characters at the positions in `drops`. */
  function Without(s: string, drops: set<nat>): string {
    if |s| == 0 then ""
    else
      var n := |s| - 1;
      Without(s[..n], drops) + (if n in drops then "" else [s[n]])
  }

  /** `s` with a `\n` inserted before every position in `cuts` and the characters at `drops` left out. */
  function Edit(s: string, cuts: set<nat>, drops: set<nat>): string {
    if |s| == 0 then ""
    else
      var n := |s| - 1;
      Edit(s[..n], cuts, drops) + (if n in cuts then "\n" else "") + (if n in drops then "" else [s[n]])
  }

  /** One rewrite of steps 2-7, with the templates as the source writes them. */
  function Rewrite(rule: Rule, s: string): string {
    Edit(s, Cuts(rule, s, 0), Drops(rule, s, 0))
  }

  /** One rewrite with step 3's first template read as `$1\n${2}F`, which keeps the credits. */
  function IntendedRewrite(rule: Rule, s: string): string {
    Edit(s, Cuts(rule, s, 0), {})
  }

  /** The rewrites `rules`, applied one after another. */
  function Rewrites(s: string, rules: seq<Rule>): string
    decreases |rules|
  {
    if |rules| == 0 then s else Rewrites(Rewrite(rules[0], s), rules[1..])
  }

  /** The intended rewrites `rules`, applied one after another. */
  function IntendedRewrites(s: string, rules: seq<Rule>): string
    decreases |rules|
  {
    if |rules| == 0 then s else IntendedRewrites(IntendedRewrite(rules[0], s), rules[1..])
  }

  /** `c` is the break of a match of `rule` that starts at or after `p`. */
  ghost predicate IsMatchCut(rule: Rule, s: string, p: nat, c: nat) {
    exists k :: p <= k < |s| && MatchAt(rule, s, k).Some? && MatchAt(rule, s, k).value.cut == c
  }

  /** Every break position is the break of a match that starts at or after `p`. */
  lemma {:induction false} CutsAreMatches(rule: Rule, s: string, p: nat)
    requires p <= |s|
    ensures forall c :: c in Cuts(rule, s, p) ==> IsMatchCut(rule, s, p, c)
    decreases |s| - p
  {
    if p < |s| {
      match MatchAt(rule, s, p)
      case Some(h) =>
        CutsAreMatches(rule, s, h.end);
        forall c | c in Cuts(rule, s, p) ensures IsMatchCut(rule, s, p, c) {
          if c == h.cut {
            assert MatchAt(rule, s, p).value.cut == c;
          } else {
            MatchCutWiden(rule, s, p, h.end, c);
          }
        }
      case None =>
        CutsAreMatches(rule, s, p + 1);
        forall c | c in Cuts(rule, s, p) ensures IsMatchCut(rule, s, p, c) {
          MatchCutWiden(rule, s, p, p + 1, c);
        }
    }
  }

  lemma MatchCutWiden(rule: Rule, s: string, p: nat, q: nat, c: nat)
    requires p <= q && IsMatchCut(rule, s, q, c)
    ensures IsMatchCut(rule, s, p, c)
  {
  }

  /** The first match at or after `p` puts its break into the text. */
  lemma {:induction false} FirstMatchCut(rule: Rule, s: string, p: nat, k: nat)
    requires p <= k < |s| && MatchAt(rule, s, k).Some?
    requires forall j :: p <= j < k ==> MatchAt(rule, s, j).None?
    ensures MatchAt(rule, s, k).value.cut in Cuts(rule, s, p)
    decreases k - p
  {
    if p < k {
      CutsSkip(rule, s, p);
      FirstMatchCut(rule, s, p + 1, k);
    } else {
      CutsTake(rule, s, p);
    }
  }

  lemma CutsSkip(rule: Rule, s: string, p: nat)
    requires p < |s| && MatchAt(rule, s, p).None?
    ensures Cuts(rule, s, p) == Cuts(rule, s, p + 1)
  {
  }

  lemma CutsTake(rule: Rule, s: string, p: nat)
    requires p < |s| && MatchAt(rule, s, p).Some?
    ensures MatchAt(rule, s, p).value.cut in Cuts(rule, s, p)
  {
  }

  /** No match anywhere from `p` on: no break, and nothing left out. */
  lemma {:induction false} NoMatchNoCuts(rule: Rule, s: string, p: nat)
    requires p <= |s|
    requires forall k :: p <= k < |s| ==> MatchAt(rule, s, k).None?
    ensures Cuts(rule, s, p) == {} && Drops(rule, s, p) == {}
    decreases |s| - p
  {
    if p < |s| {
      NoMatchNoCuts(rule, s, p + 1);
    }
  }

  /** A match of step 3's first expression covers credit digits and then an `F`, past the letters. */
  lemma CreditsHitShape(s: string, k: nat)
    requires k < |s| && MatchCreditsBeforeF(s, k).Some?
    ensures var h := MatchCreditsBeforeF(s, k).value;
            && k < h.cut && h.end <= |s|
            && (forall i :: h.cut <= i < h.end ==> IsDigit(s[i]) || s[i] == 'F')
  {
  }

  /** What step 3's first rewrite leaves out are credit digits and the `F` after them. */
  lemma {:induction false} DroppedCredits(s: string, p: nat)
    requires p <= |s|
    ensures forall i :: i in Drops(CreditsBeforeF, s, p) ==> IsDigit(s[i]) || s[i] == 'F'
    decreases |s| - p
  {
    if p < |s| {
      var m := MatchAt(CreditsBeforeF, s, p);
      if m.Some? {
        CreditsHitShape(s, p);
        DroppedCredits(s, m.value.end);
      } else {
        DroppedCredits(s, p + 1);
      }
    }
  }

  /** An edit inserts line breaks into what it does not leave out. */
  lemma {:induction false} EditAdds(s: string, cuts: set<nat>, drops: set<nat>)
    ensures BreaksAdded(Without(s, drops), Edit(s, cuts, drops))
  {
    if |s| > 0 {
      var n := |s| - 1;
      var w := Without(s[..n], drops);
      var a := Edit(s[..n], cuts, drops);
      EditAdds(s[..n], cuts, drops);
      var b := if n in cuts then a + "\n" else a;
      if n in cuts {
        BreaksAddedBreak(w, a);
      }
      assert BreaksAdded(w, b);
      if n !in drops {
        BreaksAddedKeep(w, b, s[n]);
        assert Edit(s, cuts, drops) == b + [s[n]];
        assert Without(s, drops) == w + [s[n]];
      } else {
        assert Edit(s, cuts, drops) == b;
        assert Without(s, drops) == w;
      }
    }
  }

  lemma {:induction false} WithoutNothing(s: string)
    ensures Without(s, {}) == s
  {
    if |s| > 0 {
      WithoutNothing(s[..|s| - 1]);
    }
  }

  lemma {:induction false} WithoutChars(s: string, drops: set<nat>)
    ensures forall c :: c in Without(s, drops) ==> c in s
  {
    if |s| > 0 {
      var n := |s| - 1;
      WithoutChars(s[..n], drops);
      assert forall c :: c in s[..n] ==> c in s;
    }
  }

  lemma {:induction false} EditNothing(s: string)
    ensures Edit(s, {}, {}) == s
  {
    if |s| > 0 {
      EditNothing(s[..|s| - 1]);
    }
  }

  /** With the intended templates, each of steps 2-7 only inserts line breaks. */
  lemma IntendedRewriteAdds(rule: Rule, s: string)
    ensures BreaksAdded(s, IntendedRewrite(rule, s))
  {
    EditAdds(s, Cuts(rule, s, 0), {});
    WithoutNothing(s);
  }

  /** Every rewrite but step 3's first is as intended, and only inserts line breaks. */
  lemma OtherRewritesAdd(rule: Rule, s: string)
    requires rule != CreditsBeforeF
    ensures Rewrite(rule, s) == IntendedRewrite(rule, s)
    ensures BreaksAdded(s, Rewrite(rule, s))
  {
    IntendedRewriteAdds(rule, s);
  }

  /**
   Step 3's first rewrite, as written: the text less some credit digits and `F`s, with line
   breaks inserted; so the visible characters it keeps are those of the text less the dropped ones.
   */
  lemma CreditsRewriteDrops(s: string)
    ensures var d := Drops(CreditsBeforeF, s, 0);
            && BreaksAdded(Without(s, d), Rewrite(CreditsBeforeF, s))
            && NonBlank(Rewrite(CreditsBeforeF, s)) == NonBlank(Without(s, d))
            && (forall i :: i in d ==> IsDigit(s[i]) || s[i] == 'F')
  {
    var d := Drops(CreditsBeforeF, s, 0);
    EditAdds(s, Cuts(CreditsBeforeF, s, 0), d);
    BreaksAddedNonBlank(Without(s, d), Rewrite(CreditsBeforeF, s));
    DroppedCredits(s, 0);
  }

  /** Any rewrite, as written, invents no character other than `\n`. */
  lemma RewriteChars(rule: Rule, s: string)
    ensures forall c :: c in Rewrite(rule, s) ==> c in s || c == '\n'
  {
    var d := Drops(rule, s, 0);
    EditAdds(s, Cuts(rule, s, 0), d);
    BreaksAddedChars(Without(s, d), Rewrite(rule, s));
    WithoutChars(s, d);
  }

  lemma {:induction false} RewritesChars(s: string, rules: seq<Rule>)
    ensures forall c :: c in Rewrites(s, rules) ==> c in s || c == '\n'
    decreases |rules|
  {
    if |rules| > 0 {
      RewriteChars(rules[0], s);
      RewritesChars(Rewrite(rules[0], s), rules[1..]);
    }
  }

  /** With the intended templates, steps 2-7 together only insert line breaks. */
  lemma {:induction false} IntendedRewritesAdd(s: string, rules: seq<Rule>)
    ensures BreaksAdded(s, IntendedRewrites(s, rules))
    decreases |rules|
  {
    if |rules| == 0 {
      BreaksAddedRefl(s);
    } else {
      var t := IntendedRewrite(rules[0], s);
      IntendedRewriteAdds(rules[0], s);
      IntendedRewritesAdd(t, rules[1..]);
      BreaksAddedTrans(s, t, IntendedRewrites(t, rules[1..]));
    }
  }

  /** Rewrites other than step 3's first are the same as written and as intended. */
  lemma {:induction false} OthersAsIntended(s: string, rules: seq<Rule>)
    requires CreditsBeforeF !in rules
    ensures Rewrites(s, rules) == IntendedRewrites(s, rules)
    decreases |rules|
  {
    if |rules| > 0 {
      OtherRewritesAdd(rules[0], s);
      assert CreditsBeforeF !in rules[1..];
      OthersAsIntended(Rewrite(rules[0], s), rules[1..]);
    }
  }

  // ---------------------------------------------------------------------------
  // When step 3's first expression finds nothing
  // ---------------------------------------------------------------------------

  /** No digit stands directly before an `F`: step 3's first expression cannot match. */
  predicate NoCreditsBeforeF(s: string) {
    forall i :: 0 <= i < |s| - 1 ==> !(IsDigit(s[i]) && s[i + 1] == 'F')
  }

  lemma NoCreditsNoMatch(s: string, k: nat)
    requires NoCreditsBeforeF(s) && k < |s|
    ensures MatchAt(CreditsBeforeF, s, k).None?
  {
    if InClass(LetterClass, s[k]) {
      var e := RunEnd(s, k, LetterClass);
      if DigitAt(s, e) && DigitAt(s, e + 1) {
        assert e + 2 >= |s| || !(IsDigit(s[e + 1]) && s[e + 2] == 'F');
      }
    }
  }

  /** The last character of a text with breaks added, when it is not a break, is the original's last. */
  lemma BreaksAddedLast(a: string, b: string)
    requires BreaksAdded(a, b) && |b| > 0 && b[|b| - 1] != '\n'
    ensures |a| > 0 && a[|a| - 1] == b[|b| - 1] && BreaksAdded(a[..|a| - 1], b[..|b| - 1])
  {
  }

  /** Inserting line breaks never puts a digit directly before an `F`. */
  lemma {:induction false} BreaksAddedNoCredits(a: string, b: string)
    requires BreaksAdded(a, b) && NoCreditsBeforeF(a)
    ensures NoCreditsBeforeF(b)
    decreases |b|
  {
    if |b| > 0 {
      var n := |b| - 1;
      var c := b[..n];
      if |a| > 0 && b[n] == a[|a| - 1] && BreaksAdded(a[..|a| - 1], c) {
        var m := |a| - 1;
        assert NoCreditsBeforeF(a[..m]);
        BreaksAddedNoCredits(a[..m], c);
        forall i | 0 <= i < |b| - 1
          ensures !(IsDigit(b[i]) && b[i + 1] == 'F')
        {
          if i + 1 < n {
            assert b[i] == c[i] && b[i + 1] == c[i + 1];
          } else if IsDigit(b[i]) {
            BreaksAddedLast(a[..m], c);
            assert a[m - 1] == b[i] && a[m] == b[n];
          }
        }
      } else {
        assert b[n] == '\n' && BreaksAdded(a, c);
        BreaksAddedNoCredits(a, c);
        forall i | 0 <= i < |b| - 1
          ensures !(IsDigit(b[i]) && b[i + 1] == 'F')
        {
          if i + 1 < n {
            assert b[i] == c[i] && b[i + 1] == c[i + 1];
          }
        }
      }
    }
  }

  lemma CrlfToLfHead(t: string)
    requires |t| > 0
    ensures |CrlfToLf(t)| > 0
    ensures CrlfToLf(t)[0] == (if |t| >= 2 && t[0] == '\r' && t[1] == '\n' then '\n' else t[0])
  {
  }

  lemma {:induction false} CrlfToLfNoCredits(s: string)
    requires NoCreditsBeforeF(s)
    ensures NoCreditsBeforeF(CrlfToLf(s))
  {
    if |s| > 0 {
      var k := if |s| >= 2 && s[0] == '\r' && s[1] == '\n' then 2 else 1;
      var t := s[k..];
      assert NoCreditsBeforeF(t) by {
        forall i | 0 <= i < |t| - 1 ensures !(IsDigit(t[i]) && t[i + 1] == 'F') {
          assert t[i] == s[i + k] && t[i + 1] == s[i + k + 1];
        }
      }
      CrlfToLfNoCredits(t);
      var r := CrlfToLf(t);
      var o := CrlfToLf(s);
      assert o == (if k == 2 then "\n" else [s[0]]) + r;
      forall i | 0 <= i < |o| - 1
        ensures !(IsDigit(o[i]) && o[i + 1] == 'F')
      {
        if i > 0 {
          assert o[i] == r[i - 1] && o[i + 1] == r[i];
        } else if k == 1 && IsDigit(s[0]) {
          CrlfToLfHead(t);
          assert o[1] == r[0];
        }
      }
    }
  }

  lemma CrToLfNoCredits(s: string)
    requires NoCreditsBeforeF(s)
    ensures NoCreditsBeforeF(CrToLf(s))
  {
    var o := CrToLf(s);
    forall i | 0 <= i < |o| - 1
      ensures !(IsDigit(o[i]) && o[i + 1] == 'F')
    {
      assert !(IsDigit(s[i]) && s[i + 1] == 'F');
    }
  }

  /** Step 1 never puts a digit directly before an `F`. */
  lemma LineEndingsNoCredits(raw: string)
    requires NoCreditsBeforeF(raw)
    ensures NoCreditsBeforeF(LineEndings(raw))
  {
    CrlfToLfNoCredits(raw);
    CrToLfNoCredits(CrlfToLf(raw));
  }

  /** Where no digit stands directly before an `F`, steps 2-7 as written do what was intended. */
  lemma RewritesAsIntended(s1: string)
    requires NoCreditsBeforeF(s1)
    ensures Rewrites(s1, Rules) == IntendedRewrites(s1, Rules)
  {
    var s2 := Rewrite(SubjectStart, s1);
    OtherRewritesAdd(SubjectStart, s1);
    BreaksAddedNoCredits(s1, s2);
    forall k | 0 <= k < |s2|
      ensures MatchAt(CreditsBeforeF, s2, k).None?
    {
      NoCreditsNoMatch(s2, k);
    }
    NoMatchNoCuts(CreditsBeforeF, s2, 0);
    var s3 := Rewrite(CreditsBeforeF, s2);
    assert s3 == IntendedRewrite(CreditsBeforeF, s2);
    assert Rules[1..][1..] == Rules[2..];
    OthersAsIntended(s3, Rules[2..]);
  }

  /** No digit and no `(`: every pattern of steps 2-7 needs one of them. */
  predicate Plain(s: string) {
    forall i :: 0 <= i < |s| ==> !IsDigit(s[i]) && s[i] != '('
  }

  lemma PlainNoMatch(rule: Rule, s: string, k: nat)
    requires Plain(s) && k < |s|
    ensures MatchAt(rule, s, k).None?
  {
    match rule
    case SubjectStart =>
      if InClass(NameClass, s[k]) {
        var e := RunEnd(s, k, NameClass);
        assert !CharAt(s, e, '(');
      }
    case PeriodStart =>
      var w := KeywordAt(s, k, PeriodWords);
      if w.Some? {
        assert !DigitAt(s, k + |w.value|);
      }
    case GradeStart =>
      assert !DigitAt(s, k);
    case _ =>
  }

  /** Text without digits or parentheses passes steps 2-7 unchanged. */
  lemma PlainUntouched(rule: Rule, s: string)
    requires Plain(s)
    ensures Rewrite(rule, s) == s
  {
    forall k | 0 <= k < |s|
      ensures MatchAt(rule, s, k).None?
    {
      PlainNoMatch(rule, s, k);
    }
    NoMatchNoCuts(rule, s, 0);
    EditNothing(s);
  }

  lemma {:induction false} PlainRewritesUntouched(s: string, rules: seq<Rule>)
    requires Plain(s)
    ensures Rewrites(s, rules) == s
    decreases |rules|
  {
    if |rules| > 0 {
      PlainUntouched(rules[0], s);
      PlainRewritesUntouched(s, rules[1..]);
    }
  }

  // ---------------------------------------------------------------------------
  // Step 8: collapse runs of line breaks
  // ---------------------------------------------------------------------------

  /** `regexp.MustCompile(`\n+`).ReplaceAllString(s, "\n")`: each run keeps one `\n`. */
  function Collapse(s: string): string {
    if |s| == 0 then ""
    else
      var n := |s| - 1;
      if s[n] == '\n' && n > 0 && s[n - 1] == '\n' then Collapse(s[..n])
      else Collapse(s[..n]) + [s[n]]
  }

  /** No two line breaks in a row. */
  predicate NoDoubleBreak(s: string) {
    forall i :: 0 < i < |s| && s[i] == '\n' ==> s[i - 1] != '\n'
  }

  /** Collapsing deletes line breaks only. */
  lemma {:induction false} CollapseRemovesBreaks(s: string)
    ensures BreaksAdded(Collapse(s), s)
  {
    if |s| > 0 {
      var n := |s| - 1;
      CollapseRemovesBreaks(s[..n]);
      if !(s[n] == '\n' && n > 0 && s[n - 1] == '\n') {
        var r := Collapse(s);
        assert r[..|r| - 1] == Collapse(s[..n]);
      }
    }
  }

  lemma {:induction false} CollapseLast(s: string)
    requires |s| > 0
    ensures |Collapse(s)| > 0 && Collapse(s)[|Collapse(s)| - 1] == s[|s| - 1]
  {
    var n := |s| - 1;
    if s[n] == '\n' && n > 0 && s[n - 1] == '\n' {
      CollapseLast(s[..n]);
    }
  }

  /** After step 8 no line is empty except possibly the first and the last. */
  lemma {:induction false} CollapseNoDoubleBreak(s: string)
    ensures NoDoubleBreak(Collapse(s))
  {
    if |s| > 0 {
      var n := |s| - 1;
      CollapseNoDoubleBreak(s[..n]);
      if !(s[n] == '\n' && n > 0 && s[n - 1] == '\n') {
        var c := Collapse(s[..n]);
        var r := c + [s[n]];
        if n > 0 {
          CollapseLast(s[..n]);
        }
        forall i | 0 < i < |r| && r[i] == '\n'
          ensures r[i - 1] != '\n'
        {
          if i < |c| {
            assert r[i] == c[i] && r[i - 1] == c[i - 1];
          }
        }
      }
    }
  }

  /** Text without a double line break is a fixed point of step 8. */
  lemma {:induction false} CollapseFixed(s: string)
    requires NoDoubleBreak(s)
    ensures Collapse(s) == s
  {
    if |s| > 0 {
      var n := |s| - 1;
      assert NoDoubleBreak(s[..n]);
      CollapseFixed(s[..n]);
      assert s == s[..n] + [s[n]];
    }
  }

  // ---------------------------------------------------------------------------
  // Step 9: trim every line
  // ---------------------------------------------------------------------------

  function TrimEach(parts: seq<string>): (r: seq<string>)
    ensures |r| == |parts|
    ensures forall i :: 0 <= i < |parts| ==> r[i] == TrimSpace(parts[i])
  {
    seq(|parts|, i requires 0 <= i < |parts| => TrimSpace(parts[i]))
  }

  /** Step 9: split at `\n`, `strings.TrimSpace` each line, join with `\n`. */
  function TrimLines(s: string): string {
    Join(TrimEach(Split(s, '\n')), '\n')
  }

  /** Pieces with the same visible characters join to texts with the same visible characters. */
  lemma {:induction false} JoinSameNonBlank(p: seq<string>, q: seq<string>)
    requires |p| == |q|
    requires forall i :: 0 <= i < |p| ==> NonBlank(p[i]) == NonBlank(q[i])
    ensures NonBlank(Join(p, '\n')) == NonBlank(Join(q, '\n'))
  {
    if |p| > 1 {
      JoinSameNonBlank(p[1..], q[1..]);
      NonBlankConcat(p[0] + "\n", Join(p[1..], '\n'));
      NonBlankConcat(p[0], "\n");
      NonBlankConcat(q[0] + "\n", Join(q[1..], '\n'));
      NonBlankConcat(q[0], "\n");
    }
  }

  lemma TrimLinesNonBlank(s: string)
    ensures NonBlank(TrimLines(s)) == NonBlank(s)
  {
    var p := Split(s, '\n');
    var q := TrimEach(p);
    forall i | 0 <= i < |p|
      ensures NonBlank(p[i]) == NonBlank(q[i])
    {
      TrimSpaceKeepsNonBlank(p[i]);
    }
    JoinSameNonBlank(p, q);
    JoinSplit(s, '\n');
  }

  lemma TrimLinesChars(s: string)
    ensures forall c :: c in TrimLines(s) ==> c in s || c == '\n'
  {
  }

  /** After step 9 every line is trimmed. */
  lemma TrimLinesTrimmed(s: string)
    ensures LinesTrimmed(TrimLines(s))
  {
    var q := TrimEach(Split(s, '\n'));
    SplitJoin(q, '\n');
  }

  /** Text whose lines are already trimmed is a fixed point of step 9. */
  lemma TrimLinesFixed(s: string)
    requires LinesTrimmed(s)
    ensures TrimLines(s) == s
  {
    var p := Split(s, '\n');
    assert TrimEach(p) == p;
    JoinSplit(s, '\n');
  }

  // ---------------------------------------------------------------------------
  // The whole normaliser
  // ---------------------------------------------------------------------------

  /** Steps 8-10: collapse runs of line breaks, trim every line, trim the text. */
  function Finish(s7: string): string {
    TrimSpace(TrimLines(Collapse(s7)))
  }

  /** `preprocessAcademicHistoryText`, with the templates as the source writes them. */
  function Preprocess(raw: string): string {
    Finish(Rewrites(LineEndings(raw), Rules))
  }

  /** The normaliser with step 3's first template read as `$1\n${2}F`. */
  function IntendedPreprocess(raw: string): string {
    Finish(IntendedRewrites(LineEndings(raw), Rules))
  }

  /** Steps 8-10 keep every visible character, add no character but `\n`, and leave every line trimmed. */
  lemma FinishShape(s7: string)
    ensures NonBlank(Finish(s7)) == NonBlank(s7)
    ensures forall c :: c in Finish(s7) ==> c in s7 || c == '\n'
    ensures Trimmed(Finish(s7)) && LinesTrimmed(Finish(s7))
  {
    var s8 := Collapse(s7);
    var s9 := TrimLines(s8);
    CollapseRemovesBreaks(s7);
    BreaksAddedNonBlank(s8, s7);
    BreaksAddedChars(s8, s7);
    TrimLinesNonBlank(s8);
    TrimLinesChars(s8);
    TrimLinesTrimmed(s8);
    TrimSpaceKeepsNonBlank(s9);
    TrimSpaceKeepsLinesTrimmed(s9);
  }

  /**
   The normaliser as written: its output has no carriage return, is trimmed, every line of it is
   trimmed, and it holds no character but the input's and `\n`. Step 3 can lose credit digits
   and `F`s; where no digit stands directly before an `F` it does not, and the output has the
   input's visible characters in order.
   */
  lemma PreprocessShape(raw: string)
    ensures forall c :: c in Preprocess(raw) ==> c in raw || c == '\n'
    ensures '\r' !in Preprocess(raw)
    ensures Trimmed(Preprocess(raw)) && LinesTrimmed(Preprocess(raw))
    ensures NoCreditsBeforeF(raw) ==> NonBlank(Preprocess(raw)) == NonBlank(raw)
  {
    var s1 := LineEndings(raw);
    LineEndingsKeep(raw);
    RewritesChars(s1, Rules);
    FinishShape(Rewrites(s1, Rules));
    if NoCreditsBeforeF(raw) {
      PreprocessAsIntended(raw);
      IntendedPreprocessShape(raw);
    }
  }

  /**
   The intended normaliser keeps every visible character in order and only moves whitespace:
   its output has no carriage return, is trimmed, and every line of it is trimmed.
   */
  lemma IntendedPreprocessShape(raw: string)
    ensures NonBlank(IntendedPreprocess(raw)) == NonBlank(raw)
    ensures forall c :: c in IntendedPreprocess(raw) ==> c in raw || c == '\n'
    ensures '\r' !in IntendedPreprocess(raw)
    ensures Trimmed(IntendedPreprocess(raw)) && LinesTrimmed(IntendedPreprocess(raw))
  {
    var s1 := LineEndings(raw);
    var s7 := IntendedRewrites(s1, Rules);
    LineEndingsKeep(raw);
    IntendedRewritesAdd(s1, Rules);
    BreaksAddedNonBlank(s1, s7);
    BreaksAddedChars(s1, s7);
    FinishShape(s7);
  }

  /** Where no digit stands directly before an `F`, the normaliser gives what was intended. */
  lemma PreprocessAsIntended(raw: string)
    requires NoCreditsBeforeF(raw)
    ensures Preprocess(raw) == IntendedPreprocess(raw)
  {
    LineEndingsNoCredits(raw);
    RewritesAsIntended(LineEndings(raw));
  }

  /**
   The normaliser is not idempotent: a line holding only spaces survives step 8 and becomes an
   empty line in step 9, which a second pass would then collapse.
   */
  lemma PreprocessNotIdempotent()
    ensures Preprocess("a\n \nb") == "a\n\nb"
    ensures Preprocess(Preprocess("a\n \nb")) == "a\nb"
  {
    FirstPass("a\n \nb");
    SecondPass("a\n\nb");
  }

  lemma FirstPass(x: string)
    requires x == "a\n \nb"
    ensures Preprocess(x) == "a\n\nb"
  {
    SpacedExampleIsPlain(x);
    PlainPassesSteps2To7(x);
    CollapseFixed(x);
    SpacedLineEmptied(x);
    TwoLetterEnds("a\n\nb");
  }

  lemma SpacedExampleIsPlain(x: string)
    requires x == "a\n \nb"
    ensures '\r' !in x && Plain(x) && NoDoubleBreak(x)
  {
  }

  /** Plain Unix text reaches step 8 unchanged. */
  lemma PlainPassesSteps2To7(x: string)
    requires '\r' !in x && Plain(x)
    ensures Rewrites(LineEndings(x), Rules) == x
  {
    LineEndingsKeep(x);
    PlainRewritesUntouched(x, Rules);
  }

  lemma TwoLetterEnds(z: string)
    requires |z| > 0 && z[0] == 'a' && z[|z| - 1] == 'b'
    ensures TrimSpace(z) == z
  {
    assert Trimmed(z);
  }

  lemma SpacedLineEmptied(x: string)
    requires x == "a\n \nb"
    ensures TrimLines(x) == "a\n\nb"
  {
    var parts := ["a", " ", "b"];
    assert Join(parts, '\n') == x;
    SplitJoin(parts, '\n');
    SpacedLinesTrimmed(parts);
    JoinedWithEmptyLine(["a", "", "b"]);
  }

  lemma SpacedLinesTrimmed(parts: seq<string>)
    requires parts == ["a", " ", "b"]
    ensures TrimEach(parts) == ["a", "", "b"]
  {
    TrimEachOfThree("a", " ", "b");
    KeptChar('a');
    KeptChar('b');
    DroppedSpace();
  }

  lemma TrimEachOfThree(a: string, b: string, c: string)
    ensures TrimEach([a, b, c]) == [TrimSpace(a), TrimSpace(b), TrimSpace(c)]
  {
  }

  lemma KeptChar(c: char)
    requires !IsSpace(c)
    ensures TrimSpace([c]) == [c]
  {
    assert Trimmed([c]);
  }

  lemma DroppedSpace()
    ensures TrimSpace(" ") == ""
  {
    assert " "[1..] == "";
    assert TrimLeft(" ") == "";
  }

  lemma JoinedWithEmptyLine(parts: seq<string>)
    requires parts == ["a", "", "b"]
    ensures Join(parts, '\n') == "a\n\nb"
  {
    var tail := parts[1..];
    assert tail == ["", "b"] && tail[1..] == ["b"];
    assert Join(tail, '\n') == "" + ['\n'] + "b";
    assert Join(parts, '\n') == "a" + ['\n'] + ("" + ['\n'] + "b");
    assert "a" + ['\n'] + ("" + ['\n'] + "b") == "a\n\nb";
  }

  lemma SecondPass(y: string)
    requires y == "a\n\nb"
    ensures Preprocess(y) == "a\nb"
  {
    EmptyLineExampleIsPlain(y);
    PlainPassesSteps2To7(y);
    CollapsedEmptyLine(y);
    var z := "a\nb";
    TwoLinesTrimmed(z);
    TrimLinesFixed(z);
    TwoLetterEnds(z);
  }

  lemma EmptyLineExampleIsPlain(y: string)
    requires y == "a\n\nb"
    ensures '\r' !in y && Plain(y)
  {
  }

  lemma CollapsedEmptyLine(y: string)
    requires y == "a\n\nb"
    ensures Collapse(y) == "a\nb"
  {
    assert y[..3] == "a\n\n" && y[..3][..2] == "a\n" && y[..3][..2][..1] == "a";
    assert Collapse("a") == "a";
    assert Collapse("a\n") == "a\n";
    assert Collapse("a\n\n") == "a\n";
  }

  lemma TwoLinesTrimmed(z: string)
    requires z == "a\nb"
    ensures LinesTrimmed(z)
  {
    var parts := ["a", "b"];
    assert parts[1..] == ["b"];
    assert Join(parts, '\n') == z;
    SplitJoin(parts, '\n');
  }

  // ---------------------------------------------------------------------------
  // What each rewrite finds in the student-record layout
  // ---------------------------------------------------------------------------

  /** A run that covers `k..e` and stops at `e` ends at `e`. */
  lemma RunEndIs(s: string, k: nat, cls: CharClass, e: nat)
    requires k <= e <= |s|
    requires forall i :: k <= i < e ==> InClass(cls, s[i])
    requires e < |s| ==> !InClass(cls, s[e])
    ensures RunEnd(s, k, cls) == e
    decreases e - k
  {
    if k < e {
      RunEndIs(s, k + 1, cls, e);
    }
  }

  /** A literal that differs from the text at one position does not occur there. */
  lemma Mismatch(s: string, w: string, i: nat, j: nat)
    requires j < |w| && (i + j >= |s| || s[i + j] != w[j])
    ensures !OccursAt(s, w, i)
  {
  }

  /** The alternation picks the first word that occurs. */
  lemma KeywordAtIs(s: string, i: nat, words: seq<string>, j: nat)
    requires j < |words| && OccursAt(s, words[j], i)
    requires forall l :: 0 <= l < j ==> !OccursAt(s, words[l], i)
    ensures KeywordAt(s, i, words) == Some(words[j])
    decreases j
  {
    if j > 0 {
      assert !OccursAt(s, words[0], i);
      KeywordAtIs(s, i, words[1..], j - 1);
    }
  }

  /** Step 2 matches a whole `NAME (CODE)` and breaks before it. */
  lemma SubjectMatchExample()
    ensures MatchAt(SubjectStart, "Cálculo (1000004)", 0) == Some(Hit(0, 17))
  {
    SubjectExampleAt("Cálculo (1000004)");
  }

  lemma SubjectExampleAt(s: string)
    requires s == "Cálculo (1000004)"
    ensures MatchSubject(s, 0) == Some(Hit(0, 17))
  {
    assert s[0] == 'C' && s[1] == 'á' && s[2] == 'l' && s[3] == 'c' && s[4] == 'u' && s[5] == 'l';
    assert s[6] == 'o' && s[7] == ' ' && s[8] == '(' && s[16] == ')';
    RunEndIs(s, 0, NameClass, 8);
    assert forall i :: 9 <= i < 16 ==> IsDigit(s[i]);
    RunEndIs(s, 9, CodeClass, 16);
  }

  /**
   Step 3 as written: after `)`, the first expression replaces the credits `4` and the `F` of
   `FUND` by a line break. The second breaks before one or two credit digits that end a word;
   three digits do not match.
   */
  lemma CreditsMatchExamples()
    ensures MatchAt(CreditsBeforeF, ")4FUND", 0) == Some(Hit(1, 3))
    ensures Rewrite(CreditsBeforeF, ")4FUND") == ")\nUND"
    ensures MatchAt(CreditsAlone, "B)12 x", 0) == Some(Hit(2, 4))
    ensures MatchAt(CreditsAlone, "B)123", 0) == None
  {
    CreditsExampleScan(")4FUND");
    CreditsExampleEdit(")4FUND");
    RunEndIs("B)12 x", 0, LetterClass, 2);
    RunEndIs("B)123", 0, LetterClass, 2);
  }

  /** With the intended template `$1\n${2}F`, the credits and the `F` stay, on the next line. */
  lemma IntendedCreditsExample()
    ensures IntendedRewrite(CreditsBeforeF, ")4FUND") == ")\n4FUND"
  {
    CreditsExampleScan(")4FUND");
    CreditsExampleEdit(")4FUND");
  }

  /** The whole normaliser as written turns `)4FUND` into `)` and `UND` on two lines, losing the `4`. */
  lemma PreprocessLosesCredits()
    ensures Preprocess(")4FUND") == ")\nUND"
    ensures '4' in NonBlank(")4FUND") && '4' !in NonBlank(Preprocess(")4FUND"))
  {
    CreditsLoss(")4FUND", ")\nUND");
  }

  lemma CreditsLoss(s: string, t: string)
    requires s == ")4FUND" && t == ")\nUND"
    ensures Preprocess(s) == t
    ensures '4' in NonBlank(s) && '4' !in NonBlank(t)
  {
    UnixUnchanged(s);
    CreditsLossRewrites(s, t);
    CreditsLossFinish(t);
    ComposeSteps(s, t);
    FourVisible(s, t);
  }

  lemma UnixUnchanged(s: string)
    requires s == ")4FUND"
    ensures LineEndings(s) == s
  {
    LineEndingsKeep(s);
  }

  lemma FourVisible(s: string, t: string)
    requires s == ")4FUND" && t == ")\nUND"
    ensures '4' in NonBlank(s) && '4' !in NonBlank(t)
  {
    assert NonBlank(s) == [')'] + NonBlank(s[1..]);
    assert NonBlank(s[1..]) == ['4'] + NonBlank(s[2..]);
  }

  /** Steps 2-7 on `)4FUND`: only step 3's first rewrite changes it. */
  lemma CreditsLossRewrites(s: string, t: string)
    requires s == ")4FUND" && t == ")\nUND"
    ensures Rewrites(s, Rules) == t
  {
    SubjectUnchanged(s);
    CreditsExampleScan(s);
    CreditsExampleEdit(s);
    PlainTail(t);
    RewritesOfSteps(s, t, Rules);
  }

  /** Two rewrites that take `s` to `t`, then rewrites that leave `t` alone. */
  lemma RewritesOfSteps(s: string, t: string, rules: seq<Rule>)
    requires |rules| >= 2 && Rewrite(rules[0], s) == s && Rewrite(rules[1], s) == t
    requires Rewrites(t, rules[2..]) == t
    ensures Rewrites(s, rules) == t
  {
    assert rules[1..][1..] == rules[2..];
  }

  /** The normaliser from what steps 1, 2-7 and 8-10 do to the text. */
  lemma ComposeSteps(s: string, t: string)
    requires LineEndings(s) == s && Rewrites(s, Rules) == t && Finish(t) == t
    ensures Preprocess(s) == t
  {
  }

  lemma SubjectUnchanged(s: string)
    requires s == ")4FUND"
    ensures Rewrite(SubjectStart, s) == s
  {
    SubjectExampleNoMatch(s);
    NoMatchNoCuts(SubjectStart, s, 0);
    EditNothing(s);
  }

  lemma PlainTail(t: string)
    requires t == ")\nUND"
    ensures Rewrites(t, Rules[2..]) == t
  {
    assert Plain(t);
    PlainRewritesUntouched(t, Rules[2..]);
  }

  /** Steps 8-10 leave `)\nUND` alone. */
  lemma CreditsLossFinish(t: string)
    requires t == ")\nUND"
    ensures Finish(t) == t
  {
    assert NoDoubleBreak(t);
    CollapseFixed(t);
    SplitLinesTrimmed(t, ")", "UND");
    TrimLinesFixed(t);
    VisibleEnds(t);
  }

  lemma SubjectExampleNoMatch(s: string)
    requires s == ")4FUND"
    ensures forall k :: 0 <= k < |s| ==> MatchAt(SubjectStart, s, k).None?
  {
    forall k | 0 < k < |s|
      ensures MatchAt(SubjectStart, s, k).None?
    {
      RunEndIs(s, k, NameClass, 6);
    }
  }

  /** The scan of step 3's first expression over `)4FUND` finds one match, at the start. */
  lemma CreditsExampleScan(s: string)
    requires s == ")4FUND"
    ensures MatchAt(CreditsBeforeF, s, 0) == Some(Hit(1, 3))
    ensures Cuts(CreditsBeforeF, s, 0) == {1} && Drops(CreditsBeforeF, s, 0) == {1, 2}
  {
    RunEndIs(s, 0, LetterClass, 1);
    forall k | 3 <= k < |s|
      ensures MatchAt(CreditsBeforeF, s, k).None?
    {
      RunEndIs(s, k, LetterClass, 6);
    }
    NoMatchNoCuts(CreditsBeforeF, s, 3);
  }

  lemma CreditsExampleEdit(s: string)
    requires s == ")4FUND"
    ensures Edit(s, {1}, {1, 2}) == ")\nUND"
    ensures Edit(s, {1}, {}) == ")\n4FUND"
  {
    assert s[..1][..0] == [] && s[..2][..1] == s[..1] && s[..3][..2] == s[..2];
    assert s[..4][..3] == s[..3] && s[..5][..4] == s[..4] && s[..5] == s[..|s| - 1];
    assert Edit(s[..1], {1}, {1, 2}) == ")" && Edit(s[..1], {1}, {}) == ")";
    assert Edit(s[..2], {1}, {1, 2}) == ")\n" && Edit(s[..2], {1}, {}) == ")\n4";
    assert Edit(s[..3], {1}, {1, 2}) == ")\n" && Edit(s[..3], {1}, {}) == ")\n4F";
    assert Edit(s[..4], {1}, {1, 2}) == ")\nU" && Edit(s[..4], {1}, {}) == ")\n4FU";
    assert Edit(s[..5], {1}, {1, 2}) == ")\nUN" && Edit(s[..5], {1}, {}) == ")\n4FUN";
  }

  /** A two-line text whose lines are trimmed has every line trimmed. */
  lemma SplitLinesTrimmed(t: string, a: string, b: string)
    requires t == a + "\n" + b && '\n' !in a && '\n' !in b && Trimmed(a) && Trimmed(b)
    ensures LinesTrimmed(t)
  {
    var parts := [a, b];
    assert parts[1..] == [b];
    assert Join(parts, '\n') == t;
    SplitJoin(parts, '\n');
  }

  /** A text with a visible character at each end is its own `TrimSpace`. */
  lemma VisibleEnds(z: string)
    requires |z| > 0 && !IsSpace(z[0]) && !IsSpace(z[|z| - 1])
    ensures TrimSpace(z) == z
  {
    assert Trimmed(z);
  }

  /** Step 4 breaks between the credits and the tipología. */
  lemma TypeMatchExample()
    ensures MatchAt(TypeStart, "4FUND. OBLIGATORIA", 0) == Some(Hit(1, 18))
  {
    TypeExampleAt("4FUND. OBLIGATORIA");
  }

  lemma TypeExampleAt(s: string)
    requires s == "4FUND. OBLIGATORIA"
    ensures MatchType(s, 0) == Some(Hit(1, 18))
  {
    assert s[1..18] == TypeWords[0];
    KeywordAtIs(s, 1, TypeWords, 0);
  }

  /** Step 5 breaks between the tipología and the period. */
  lemma PeriodMatchExample()
    ensures MatchAt(PeriodStart, "GRADO2020-1S", 0) == Some(Hit(5, 12))
  {
    PeriodExampleAt("GRADO2020-1S");
  }

  lemma PeriodExampleAt(s: string)
    requires s == "GRADO2020-1S"
    ensures MatchPeriod(s, 0) == Some(Hit(5, 12))
  {
    assert s[0] == 'G';
    Mismatch(s, PeriodWords[0], 0, 0);
    Mismatch(s, PeriodWords[1], 0, 0);
    Mismatch(s, PeriodWords[2], 0, 0);
    Mismatch(s, PeriodWords[3], 0, 0);
    assert s[0..5] == PeriodWords[4];
    KeywordAtIs(s, 0, PeriodWords, 4);
    assert YearAt(s, 5) && DigitAt(s, 10) && CharAt(s, 11, 'S');
    assert PeriodLengths(s, 5)[0] == 7;
  }

  /**
   Step 6 breaks before the grade, after an optional ` Ordinaria`; when the longer period
   leaves no grade, the matcher backs off to a one-digit semester.
   */
  lemma GradeMatchExamples()
    ensures MatchAt(GradeStart, "2023-1S Ordinaria4.5", 0) == Some(Hit(17, 20))
    ensures MatchAt(GradeStart, "2020-15.0", 0) == Some(Hit(6, 9))
  {
    OrdinaryGradeAt("2023-1S Ordinaria4.5");
    BackedOffGradeAt("2020-15.0");
  }

  lemma OrdinaryGradeAt(s: string)
    requires s == "2023-1S Ordinaria4.5"
    ensures GradeAfter(s, 0, PeriodLengths(s, 0)) == Some(Hit(17, 20))
  {
    assert YearAt(s, 0) && DigitAt(s, 5) && CharAt(s, 6, 'S') && !DigitAt(s, 6);
    assert PeriodLengths(s, 0) == [7, 7, 6];
    assert s[7..17] == " Ordinaria";
    assert GradeAt(s, 17);
  }

  lemma BackedOffGradeAt(s: string)
    requires s == "2020-15.0"
    ensures GradeAfter(s, 0, PeriodLengths(s, 0)) == Some(Hit(6, 9))
  {
    assert YearAt(s, 0) && DigitAt(s, 5) && DigitAt(s, 6) && !CharAt(s, 6, 'S') && !CharAt(s, 7, 'S');
    assert PeriodLengths(s, 0) == [7, 6];
    assert !GradeAt(s, 7) && GradeAt(s, 6);
  }

  /** Step 7 breaks between the grade and the status. */
  lemma StatusMatchExample()
    ensures MatchAt(StatusStart, "4.5APROBADA", 0) == Some(Hit(3, 11))
  {
    assert "4.5APROBADA"[3..11] == "APROBADA";
  }
}
