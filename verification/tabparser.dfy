/**
 `procesarHistoriaAcademicaTexto`: the tab-separated academic-history reader behind the
 text variant of the dual-degree comparison. Every non-blank line with at least five
 tab-separated fields becomes one history entry marked approved; its first field is split into
 name and code by the pattern `(.+)\s\((\d{6,}-?[A-Za-z]?)\)`.
 */
module TabParser {
  import opened Common
  import opened Text
  import opened Tipologia
  import opened Models

  /** `\s` in Go's regexp syntax: tab, newline, form feed, carriage return and space (no `\v`). */
  predicate IsRegexSpace(c: char) {
    c == '\t' || c == '\n' || c == '\U{0C}' || c == '\r' || c == ' '
  }

  predicate IsAsciiLetter(c: char) {
    ('A' <= c <= 'Z') || ('a' <= c <= 'z')
  }

  /** The characters a code group can hold. */
  predicate IsCodeChar(c: char) {
    IsDigit(c) || c == '-' || IsAsciiLetter(c)
  }

  /** What may follow the digits of a code: nothing, `-`, one letter, or `-` and one letter. */
  predicate CodeTail(t: string) {
    || t == []
    || (|t| == 1 && (t[0] == '-' || IsAsciiLetter(t[0])))
    || (|t| == 2 && t[0] == '-' && IsAsciiLetter(t[1]))
  }

  /** The code group `\d{6,}-?[A-Za-z]?`. */
  predicate CodeShape(g: string) {
    exists d :: 6 <= d <= |g| && (forall j :: 0 <= j < d ==> IsDigit(g[j])) && CodeTail(g[d..])
  }

  /** A code is non-empty, made of code characters, and has no whitespace at either end. */
  lemma CodeShapeChars(g: string)
    requires CodeShape(g)
    ensures |g| >= 6 && Trimmed(g)
    ensures forall i :: 0 <= i < |g| ==> IsCodeChar(g[i])
  {
    var d :| 6 <= d <= |g| && (forall j :: 0 <= j < d ==> IsDigit(g[j])) && CodeTail(g[d..]);
    forall i | 0 <= i < |g|
      ensures IsCodeChar(g[i])
    {
      if i >= d {
        assert g[i] == g[d..][i - d];
      }
    }
  }

  /** Length of the longest run of ASCII digits starting at `i`. */
  function DigitRun(s: string, i: nat): (n: nat)
    requires i <= |s|
    ensures i + n <= |s|
    decreases |s| - i
  {
    if i < |s| && IsDigit(s[i]) then 1 + DigitRun(s, i + 1) else 0
  }

  /** The run is all digits and is not followed by one. */
  lemma {:induction false} DigitRunDigits(s: string, i: nat)
    requires i <= |s|
    ensures forall j :: i <= j < i + DigitRun(s, i) ==> IsDigit(s[j])
    ensures i + DigitRun(s, i) == |s| || !IsDigit(s[i + DigitRun(s, i)])
    decreases |s| - i
  {
    if i < |s| && IsDigit(s[i]) {
      DigitRunDigits(s, i + 1);
    }
  }

  /** A digit run ended by a non-digit (or by the end of the text) is the longest one. */
  lemma {:induction false} DigitRunExact(s: string, i: nat, d: nat)
    requires i + d <= |s|
    requires forall j :: i <= j < i + d ==> IsDigit(s[j])
    requires i + d == |s| || !IsDigit(s[i + d])
    ensures DigitRun(s, i) == d
    decreases d
  {
    if d > 0 {
      DigitRunExact(s, i + 1, d - 1);
    }
  }

  /**
   The pattern after its first group, `\s\((\d{6,}-?[A-Za-z]?)\)`, tried at position `k`; the
   code group when it matches there. A shorter digit run leaves a digit where `-`, a letter or
   `)` is needed, and skipping an optional `-` or letter leaves it where `)` is needed, so the
   greedy choice at each step is the only one that can succeed.
   */
  function CodeAt(s: string, k: nat): Option<string>
    requires k <= |s|
  {
    if k + 1 < |s| && IsRegexSpace(s[k]) && s[k + 1] == '(' then
      var j := k + 2;
      var e0 := j + DigitRun(s, j);
      var e1 := if e0 < |s| && s[e0] == '-' then e0 + 1 else e0;
      var e2 := if e1 < |s| && IsAsciiLetter(s[e1]) then e1 + 1 else e1;
      if e0 - j >= 6 && e2 < |s| && s[e2] == ')' then Some(s[j..e2]) else None
    else None
  }

  /**
   The pattern's tail matches at `k` with code group `g` exactly when a regexp space, `(`, a
   code-shaped `g` and `)` follow one another from `k`.
   */
  lemma CodeAtMeaning(s: string, k: nat, g: string)
    requires k <= |s|
    ensures CodeAt(s, k) == Some(g) <==>
              && k + 1 < |s| && IsRegexSpace(s[k]) && s[k + 1] == '('
              && CodeShape(g) && OccursAt(s, g + ")", k + 2)
  {
    if CodeAt(s, k) == Some(g) {
      CodeAtSound(s, k, g);
    }
    if && k + 1 < |s| && IsRegexSpace(s[k]) && s[k + 1] == '('
       && CodeShape(g) && OccursAt(s, g + ")", k + 2)
    {
      CodeAtComplete(s, k, g);
    }
  }

  lemma CodeAtSound(s: string, k: nat, g: string)
    requires k <= |s| && CodeAt(s, k) == Some(g)
    ensures k + 1 < |s| && IsRegexSpace(s[k]) && s[k + 1] == '('
    ensures CodeShape(g) && OccursAt(s, g + ")", k + 2)
  {
    var j := k + 2;
    var d := DigitRun(s, j);
    DigitRunDigits(s, j);
    assert g == s[j..j + |g|];
    assert forall i :: 0 <= i < d ==> IsDigit(g[i]) by {
      forall i | 0 <= i < d ensures IsDigit(g[i]) {
        assert g[i] == s[j + i];
      }
    }
    assert CodeTail(g[d..]);
    assert s[j..j + |g| + 1] == g + ")";
  }

  lemma CodeAtComplete(s: string, k: nat, g: string)
    requires k + 1 < |s| && IsRegexSpace(s[k]) && s[k + 1] == '('
    requires CodeShape(g) && OccursAt(s, g + ")", k + 2)
    ensures CodeAt(s, k) == Some(g)
  {
    var j := k + 2;
    var d :| 6 <= d <= |g| && (forall i :: 0 <= i < d ==> IsDigit(g[i])) && CodeTail(g[d..]);
    OccursAtChars(s, g, j);
    CodeDigitsAt(s, g, j, d);
    CodeTailAt(s, g, j, d);
  }

  /** The digit run of a code copied at `j` is exactly the code's own digits. */
  lemma CodeDigitsAt(s: string, g: string, j: nat, d: nat)
    requires j + |g| < |s| && s[j + |g|] == ')'
    requires forall i :: 0 <= i < |g| ==> s[j + i] == g[i]
    requires d <= |g| && (forall i :: 0 <= i < d ==> IsDigit(g[i])) && CodeTail(g[d..])
    ensures DigitRun(s, j) == d
  {
    var t := g[d..];
    assert IsDigit(s[j + d]) == false by {
      if d < |g| {
        assert s[j + d] == g[d] == t[0];
      }
    }
    forall p | j <= p < j + d
      ensures IsDigit(s[p])
    {
      assert s[p] == g[p - j];
    }
    DigitRunExact(s, j, d);
  }

  /** After the digits, the optional `-` and letter of a copied code end right before its `)`. */
  lemma CodeTailAt(s: string, g: string, j: nat, d: nat)
    requires j + |g| < |s| && s[j + |g|] == ')'
    requires s[j..j + |g|] == g
    requires forall i :: 0 <= i < |g| ==> s[j + i] == g[i]
    requires 6 <= d <= |g| && CodeTail(g[d..]) && DigitRun(s, j) == d
    requires j >= 2 && IsRegexSpace(s[j - 2]) && s[j - 1] == '('
    ensures CodeAt(s, j - 2) == Some(g)
  {
    var t := g[d..];
    var e0 := j + d;
    if t == [] {
      assert e0 == j + |g|;
    } else if |t| == 1 {
      assert s[e0] == t[0];
      assert e0 + 1 == j + |g|;
    } else {
      assert s[e0] == t[0] && s[e0 + 1] == t[1];
      assert e0 + 2 == j + |g|;
    }
  }

  /** An occurrence of `g + ")"` at `j`, character by character. */
  lemma OccursAtChars(s: string, g: string, j: nat)
    requires OccursAt(s, g + ")", j)
    ensures j + |g| < |s| && s[j + |g|] == ')'
    ensures s[j..j + |g|] == g
    ensures forall i :: 0 <= i < |g| ==> s[j + i] == g[i]
  {
    var w := g + ")";
    assert s[j..j + |w|] == w;
    assert s[j + |g|] == s[j..j + |w|][|g|] == w[|g|];
    assert s[j..j + |g|] == s[j..j + |w|][..|g|] == w[..|g|] == g;
    forall i | 0 <= i < |g|
      ensures s[j + i] == g[i]
    {
      assert s[j..j + |g|][i] == s[j + i];
    }
  }

  /** The largest `k` in `[1, bound)` at which the pattern's tail matches: the greedy `.+`. */
  function LastMatch(s: string, bound: nat): (r: Option<nat>)
    requires bound <= |s|
    ensures r.Some? ==> 1 <= r.value < bound && CodeAt(s, r.value).Some?
  {
    if bound <= 1 then None
    else if CodeAt(s, bound - 1).Some? then Some(bound - 1)
    else LastMatch(s, bound - 1)
  }

  /** A match at `k` with none after it below `bound` is the one `LastMatch` picks. */
  lemma {:induction false} LastMatchOf(s: string, bound: nat, k: nat)
    requires bound <= |s| && 1 <= k < bound && CodeAt(s, k).Some?
    requires forall j :: k < j < bound ==> CodeAt(s, j).None?
    ensures LastMatch(s, bound) == Some(k)
  {
    if bound - 1 > k {
      assert CodeAt(s, bound - 1).None?;
      LastMatchOf(s, bound - 1, k);
    }
  }

  /** With no match anywhere in `[1, bound)`, `LastMatch` finds nothing. */
  lemma {:induction false} LastMatchNone(s: string, bound: nat)
    requires bound <= |s|
    requires forall j :: 1 <= j < bound ==> CodeAt(s, j).None?
    ensures LastMatch(s, bound) == None
  {
    if bound > 1 {
      assert CodeAt(s, bound - 1).None?;
      LastMatchNone(s, bound - 1);
    }
  }

  /**
   `FindStringSubmatch` of the name/code pattern on the first field: the trimmed groups when it
   matches, otherwise the untouched field as name and an empty code. The field comes from one
   line, so `.` matches every character in it and a match always starts at position 0.
   */
  function SplitNameCode(field: string): (r: (string, string))
    requires '\n' !in field
    ensures r.1 == "" || CodeShape(r.1)
    ensures r.1 == "" ==> r.0 == field
  {
    match LastMatch(field, |field|)
    case Some(k) =>
      var g := CodeAt(field, k).value;
      CodeAtMeaning(field, k, g);
      CodeShapeChars(g);
      (TrimSpace(field[..k]), TrimSpace(g))
    case None => (field, "")
  }

  /**
   A field written as `name (code)` splits back into the name and the code: nothing after the
   name's own end can start a later match, so the greedy group stops exactly there.
   */
  lemma SplitNameCodeOfField(name: string, code: string)
    requires name != "" && Trimmed(name) && '\n' !in name
    requires CodeShape(code)
    ensures '\n' !in name + " (" + code + ")"
    ensures SplitNameCode(name + " (" + code + ")") == (name, code)
  {
    var field := name + " (" + code + ")";
    var k := |name|;
    CodeShapeChars(code);
    FieldLayout(name, code);
    CodeAtComplete(field, k, code);
    NoSpaceAfterName(field, k, code);
    LastMatchIsLastSpace(field, k, code);
  }

  /** When the tail matches at `k` and no regexp space follows, the groups are split at `k`. */
  lemma LastMatchIsLastSpace(field: string, k: nat, code: string)
    requires 1 <= k < |field| && '\n' !in field
    requires CodeAt(field, k) == Some(code) && Trimmed(code)
    requires forall j :: k < j < |field| ==> !IsRegexSpace(field[j])
    ensures SplitNameCode(field) == (TrimSpace(field[..k]), code)
  {
    NoMatchWithoutSpace(field, k);
    LastMatchOf(field, |field|, k);
    var m := LastMatch(field, |field|);
    assert m == Some(k);
  }

  /** Where each part of `name (code)` sits. */
  lemma FieldLayout(name: string, code: string)
    requires '\n' !in name && forall i :: 0 <= i < |code| ==> IsCodeChar(code[i])
    ensures var field := name + " (" + code + ")";
            && |field| == |name| + |code| + 3
            && field[..|name|] == name
            && field[|name|] == ' ' && field[|name| + 1] == '(' && field[|field| - 1] == ')'
            && (forall i :: 0 <= i < |code| ==> field[|name| + 2 + i] == code[i])
            && OccursAt(field, code + ")", |name| + 2)
            && '\n' !in field
  {
    var field := name + " (" + code + ")";
    var k := |name|;
    assert field[k + 2..k + 2 + |code| + 1] == code + ")";
    forall i | 0 <= i < |field| ensures field[i] != '\n' {
      if i < k {
        assert field[i] == name[i];
      } else if k + 2 <= i < k + 2 + |code| {
        assert field[i] == code[i - k - 2];
      }
    }
  }

  lemma NoSpaceAfterName(field: string, k: nat, code: string)
    requires |field| == k + |code| + 3
    requires field[k + 1] == '(' && field[|field| - 1] == ')'
    requires forall i :: 0 <= i < |code| ==> field[k + 2 + i] == code[i]
    requires forall i :: 0 <= i < |code| ==> IsCodeChar(code[i])
    ensures forall j :: k < j < |field| ==> !IsRegexSpace(field[j])
  {
    forall j | k < j < |field|
      ensures !IsRegexSpace(field[j])
    {
      if k + 2 <= j < k + 2 + |code| {
        assert field[j] == code[j - k - 2];
      }
    }
  }

  /** Past the last regexp space nothing can match. */
  lemma NoMatchWithoutSpace(s: string, k: nat)
    requires k <= |s|
    requires forall j :: k < j < |s| ==> !IsRegexSpace(s[j])
    ensures forall j :: k < j <= |s| ==> CodeAt(s, j).None?
  {
  }

  /** A first field without `(` has no code: the name is the whole field. */
  lemma SplitNameCodeWithoutParen(field: string)
    requires '\n' !in field && '(' !in field
    ensures SplitNameCode(field) == (field, "")
  {
    forall j | 1 <= j < |field| ensures CodeAt(field, j).None? {
      if j + 1 < |field| {
        assert field[j + 1] in field;
      }
    }
    LastMatchNone(field, |field|);
  }

  /** The credits field: a blank field or one `Atoi` rejects reads as 0; a sign is accepted. */
  function CreditsOf(field: string): int {
    var t := TrimSpace(field);
    if t == "" then 0
    else match Atoi(t)
      case Some(c) => c
      case None => 0
  }

  /** The grade field: blank is the zero grade; otherwise the trimmed text. */
  function GradeOf(field: string): (g: Grade)
    ensures g == NoGrade <==> TrimSpace(field) == ""
    ensures g.Decimal? ==> g.text == TrimSpace(field)
  {
    var t := TrimSpace(field);
    if t == "" then NoGrade else Decimal(t)
  }

  /** What every record of the reader satisfies: approved, a valid type, an empty or code-shaped code. */
  predicate WellRead(e: SubjectInput) {
    && e.status == "APROBADA"
    && ValidarTipologia(e.tipologia)
    && (e.code == "" || CodeShape(e.code))
  }

  /**
   One trimmed line: a record exactly when it has at least five tab-separated fields; the record
   is approved, its type is one of the six labels, and its code is empty or code-shaped.
   */
  function ParseTabLine(line: string): (r: Option<SubjectInput>)
    requires '\n' !in line
    ensures r.Some? <==> Count(line, '\t') >= 4
    ensures r.Some? ==> WellRead(r.value)
  {
    var parts := Split(line, '\t');
    if |parts| < 5 then None
    else
      assert forall c :: c in parts[0] ==> c in line;
      var nc := SplitNameCode(parts[0]);
      var t := MapTipologia(TrimSpace(parts[2]));
      Some(SubjectInput(nc.1, nc.0, CreditsOf(parts[1]), Label(t), GradeOf(parts[4]),
                        "APROBADA", TrimSpace(parts[3])))
  }

  /** Every line of a text split at newlines is newline-free. */
  predicate NoNewlines(lines: seq<string>) {
    forall i :: 0 <= i < |lines| ==> '\n' !in lines[i]
  }

  /** A line yields a record when, trimmed, it is non-blank and has at least five fields. */
  predicate Qualifies(line: string) {
    var t := TrimSpace(line);
    t != "" && Count(t, '\t') >= 4
  }

  /** Number of lines that yield a record. */
  function QualifyingCount(lines: seq<string>): nat {
    if |lines| == 0 then 0 else (if Qualifies(lines[0]) then 1 else 0) + QualifyingCount(lines[1..])
  }

  /** One raw line: trimmed, skipped when blank, otherwise read by `ParseTabLine`. */
  function LineRecord(line: string): (r: Option<SubjectInput>)
    requires '\n' !in line
    ensures r.Some? <==> Qualifies(line)
    ensures r.Some? ==> WellRead(r.value)
  {
    var t := TrimSpace(line);
    assert forall c :: c in t ==> c in line;
    if t == "" then None else ParseTabLine(t)
  }

  /** The per-line loop: one record per qualifying line, in line order. */
  function ProcessLines(lines: seq<string>): (r: seq<SubjectInput>)
    requires NoNewlines(lines)
    ensures |r| == QualifyingCount(lines)
  {
    if |lines| == 0 then []
    else
      var rest := ProcessLines(lines[1..]);
      match LineRecord(lines[0])
      case Some(x) => [x] + rest
      case None => rest
  }

  /** Every record the loop emits is approved, validly typed and empty- or code-shaped-coded. */
  lemma {:induction false} ProcessLinesWellRead(lines: seq<string>)
    requires NoNewlines(lines)
    ensures forall i :: 0 <= i < |ProcessLines(lines)| ==> WellRead(ProcessLines(lines)[i])
  {
    if |lines| > 0 {
      ProcessLinesWellRead(lines[1..]);
      var rest := ProcessLines(lines[1..]);
      match LineRecord(lines[0])
      case Some(x) => ConsWellRead(x, rest, ProcessLines(lines));
      case None =>
    }
  }

  lemma ConsWellRead(x: SubjectInput, rest: seq<SubjectInput>, r: seq<SubjectInput>)
    requires r == [x] + rest && WellRead(x)
    requires forall i :: 0 <= i < |rest| ==> WellRead(rest[i])
    ensures forall i :: 0 <= i < |r| ==> WellRead(r[i])
  {
    forall i | 0 <= i < |r| ensures WellRead(r[i]) {
      if i > 0 {
        assert r[i] == rest[i - 1];
      }
    }
  }

  /** `procesarHistoriaAcademicaTexto`. */
  function ProcesarHistoria(texto: string): (r: seq<SubjectInput>)
    ensures |r| == QualifyingCount(Split(texto, '\n'))
    ensures forall i :: 0 <= i < |r| ==> WellRead(r[i])
  {
    var lines := Split(texto, '\n');
    ProcessLinesWellRead(lines);
    ProcessLines(lines)
  }

  // ---------------------------------------------------------------------------------------------
  // The tabular form the reader accepts, and the round trip through it

  function GradeText(g: Grade): string {
    match g
    case NoGrade => ""
    case Decimal(t) => t
  }

  /** The five fields of an entry's line: `name (code)`, credits, type, period, grade. */
  function Fields(e: SubjectInput): seq<string> {
    [e.name + " (" + e.code + ")", Itoa(e.credits), e.tipologia, e.semester, GradeText(e.grade)]
  }

  /** An entry written as one tab-separated line. */
  function FormatLine(e: SubjectInput): string {
    Join(Fields(e), '\t')
  }

  /** A one-line field: no tab, no newline, no whitespace at either end. */
  predicate PlainField(s: string) {
    Trimmed(s) && '\t' !in s && '\n' !in s
  }

  /** The entries the tabular form carries without loss. */
  predicate Writable(e: SubjectInput) {
    && e.name != "" && PlainField(e.name)
    && CodeShape(e.code)
    && ValidarTipologia(e.tipologia)
    && PlainField(e.semester)
    && e.grade.Decimal? && e.grade.text != "" && PlainField(e.grade.text)
    && e.status == "APROBADA"
  }

  lemma ItoaShape(n: int)
    ensures |Itoa(n)| > 0 && Trimmed(Itoa(n))
    ensures forall i :: 0 <= i < |Itoa(n)| ==> Itoa(n)[i] == '-' || IsDigit(Itoa(n)[i])
  {
  }

  lemma LabelShape(t: Tipologia)
    ensures PlainField(Label(t))
  {
    if t.FundObligatoria? || t.FundOptativa? || t.LibreEleccion? {
      FundLabelShape(t);
    } else {
      OtherLabelShape(t);
    }
  }

  lemma FundLabelShape(t: Tipologia)
    requires t.FundObligatoria? || t.FundOptativa? || t.LibreEleccion?
    ensures PlainField(Label(t))
  {
  }

  lemma OtherLabelShape(t: Tipologia)
    requires t.DisciplinarOptativa? || t.DisciplinarObligatoria? || t.TrabajoGrado?
    ensures PlainField(Label(t))
  {
  }

  /** The credits field reads back every integer written with `Itoa`, negative ones included. */
  lemma CreditsOfItoa(n: int)
    ensures CreditsOf(Itoa(n)) == n
  {
    ItoaShape(n);
    AtoiItoa(n);
  }

  /** A writable entry's fields hold neither tabs nor newlines. */
  lemma FieldsArePlain(e: SubjectInput)
    requires Writable(e)
    ensures forall i :: 0 <= i < |Fields(e)| ==> '\t' !in Fields(e)[i] && '\n' !in Fields(e)[i]
  {
    var t :| Label(t) == e.tipologia;
    CodeAvoidsBreaks(e.code);
    ItoaShape(e.credits);
    LabelShape(t);
    var parts := Fields(e);
    assert parts[0] == e.name + " (" + e.code + ")";
    assert parts[1] == Itoa(e.credits) && parts[2] == e.tipologia;
    assert parts[3] == e.semester && parts[4] == e.grade.text;
  }

  /** A code holds neither tabs nor newlines. */
  lemma CodeAvoidsBreaks(code: string)
    requires CodeShape(code)
    ensures '\t' !in code && '\n' !in code
  {
    CodeShapeChars(code);
  }

  /** A writable entry's line: trimmed, newline-free, and split at tabs into its five fields. */
  lemma FormatLineShape(e: SubjectInput)
    requires Writable(e)
    ensures Split(FormatLine(e), '\t') == Fields(e)
    ensures Trimmed(FormatLine(e)) && FormatLine(e) != "" && '\n' !in FormatLine(e)
  {
    var parts := Fields(e);
    var g := e.grade.text;
    FieldsArePlain(e);
    SplitJoin(parts, '\t');
    JoinAvoids(parts, '\t', '\n');
    var line := FormatLine(e);
    assert Join(parts[4..], '\t') == g;
    assert Join(parts[3..], '\t') == e.semester + "\t" + g;
    assert Join(parts[2..], '\t') == e.tipologia + "\t" + (e.semester + "\t" + g);
    var tail := Itoa(e.credits) + "\t" + (e.tipologia + "\t" + (e.semester + "\t" + g));
    assert Join(parts[1..], '\t') == tail;
    assert line == parts[0] + "\t" + tail;
    assert line[0] == e.name[0];
    assert line[|line| - 1] == g[|g| - 1];
  }

  /** A writable entry's line parses back to the entry itself. */
  lemma ParseFormatLine(e: SubjectInput)
    requires Writable(e)
    ensures '\n' !in FormatLine(e) && Qualifies(FormatLine(e))
    ensures ParseTabLine(FormatLine(e)) == Some(e)
  {
    FormatLineShape(e);
    FieldsReadBack(e);
    ParseOfFields(FormatLine(e), Fields(e), e);
  }

  /** Each of a writable entry's fields reads back to the part of the entry it was written from. */
  lemma FieldsReadBack(e: SubjectInput)
    requires Writable(e)
    ensures var parts := Fields(e);
            && '\n' !in parts[0] && SplitNameCode(parts[0]) == (e.name, e.code)
            && CreditsOf(parts[1]) == e.credits
            && Label(MapTipologia(TrimSpace(parts[2]))) == e.tipologia
            && TrimSpace(parts[3]) == e.semester && GradeOf(parts[4]) == e.grade
  {
    var parts := Fields(e);
    assert parts[0] == e.name + " (" + e.code + ")" && parts[1] == Itoa(e.credits);
    assert parts[2] == e.tipologia && parts[3] == e.semester && parts[4] == e.grade.text;
    SplitNameCodeOfField(e.name, e.code);
    CreditsOfItoa(e.credits);
    TypeFieldReads(e.tipologia);
  }

  /** A label written as the type field maps back to itself. */
  lemma TypeFieldReads(tipologia: string)
    requires ValidarTipologia(tipologia)
    ensures Label(MapTipologia(TrimSpace(tipologia))) == tipologia
  {
    var t :| Label(t) == tipologia;
    LabelShape(t);
    MapTipologiaOfLabel(t);
  }

  /** A line whose five fields read as the entry's parts yields that entry. */
  lemma ParseOfFields(line: string, parts: seq<string>, e: SubjectInput)
    requires '\n' !in line && Split(line, '\t') == parts && |parts| == 5
    requires '\n' !in parts[0] && SplitNameCode(parts[0]) == (e.name, e.code)
    requires CreditsOf(parts[1]) == e.credits
    requires Label(MapTipologia(TrimSpace(parts[2]))) == e.tipologia
    requires TrimSpace(parts[3]) == e.semester && GradeOf(parts[4]) == e.grade
    requires e.status == "APROBADA"
    ensures ParseTabLine(line) == Some(e)
  {
  }

  /** A writable entry's line, as one raw line of the transcript, yields the entry. */
  lemma LineRecordOfFormat(e: SubjectInput)
    requires Writable(e)
    ensures '\n' !in FormatLine(e) && LineRecord(FormatLine(e)) == Some(e)
  {
    FormatLineShape(e);
    ParseFormatLine(e);
  }

  /** The entries written one per line. */
  function FormatLines(es: seq<SubjectInput>): (lines: seq<string>)
    ensures |lines| == |es|
    ensures forall i :: 0 <= i < |es| ==> lines[i] == FormatLine(es[i])
  {
    seq(|es|, i requires 0 <= i < |es| => FormatLine(es[i]))
  }

  /** When every line yields a record, the loop returns exactly those records. */
  lemma {:induction false} ProcessLinesAllRecords(lines: seq<string>, es: seq<SubjectInput>)
    requires NoNewlines(lines) && |lines| == |es|
    requires forall i :: 0 <= i < |lines| ==> LineRecord(lines[i]) == Some(es[i])
    ensures ProcessLines(lines) == es
  {
    if |lines| > 0 {
      ProcessLinesAllRecords(lines[1..], es[1..]);
      ProcessLinesHead(lines, es[0]);
      HeadAndTail(es);
    }
  }

  /** A first line that yields `x` puts `x` in front of the rest's records. */
  lemma ProcessLinesHead(lines: seq<string>, x: SubjectInput)
    requires NoNewlines(lines) && |lines| > 0 && LineRecord(lines[0]) == Some(x)
    ensures ProcessLines(lines) == [x] + ProcessLines(lines[1..])
  {
  }

  lemma HeadAndTail<T>(s: seq<T>)
    requires |s| > 0
    ensures s == [s[0]] + s[1..]
  {
  }

  /** The per-line loop reads the written lines back to the same entries. */
  lemma ProcessFormattedLines(es: seq<SubjectInput>)
    requires forall i :: 0 <= i < |es| ==> Writable(es[i])
    ensures NoNewlines(FormatLines(es)) && ProcessLines(FormatLines(es)) == es
  {
    var lines := FormatLines(es);
    forall i | 0 <= i < |es|
      ensures '\n' !in lines[i] && LineRecord(lines[i]) == Some(es[i])
    {
      LineRecordOfFormat(es[i]);
    }
    ProcessLinesAllRecords(lines, es);
  }

  /** `procesarHistoriaAcademicaTexto` inverts writing the entries one per line. */
  lemma ProcesarFormatted(es: seq<SubjectInput>)
    requires forall i :: 0 <= i < |es| ==> Writable(es[i])
    ensures ProcesarHistoria(Join(FormatLines(es), '\n')) == es
  {
    var lines := FormatLines(es);
    ProcessFormattedLines(es);
    if |es| == 0 {
      assert Join(lines, '\n') == "";
      assert Split("", '\n') == [""];
      assert TrimSpace("") == "";
    } else {
      SplitJoin(lines, '\n');
    }
  }

  // ---------------------------------------------------------------------------------------------
  // Worked lines

  /** An example: the tab-delimited line for Cálculo Diferencial reads as code 1000003, 4 credits, FUND. OBLIGATORIA, 2020-1S, 4.5. */
  lemma SampleLine(line: string)
    requires line == "Cálculo Diferencial (1000003)\t4\tFUND. OBLIGATORIA\t2020-1S\t4.5"
    ensures && '\n' !in line
            && ParseTabLine(line) == Some(SubjectInput("1000003", "Cálculo Diferencial", 4, "FUND. OBLIGATORIA",
                                                      Decimal("4.5"), "APROBADA", "2020-1S"))
  {
    var e := SubjectInput("1000003", "Cálculo Diferencial", 4, "FUND. OBLIGATORIA",
                          Decimal("4.5"), "APROBADA", "2020-1S");
    SampleEntry(e);
    JoinFive(Fields(e), '\t');
    SampleJoin();
    assert FormatLine(e) == line;
    ParseFormatLine(e);
  }

  lemma SampleJoin()
    ensures "Cálculo Diferencial (1000003)" + "\t" + "4" + "\t" + "FUND. OBLIGATORIA" + "\t" + "2020-1S" + "\t" + "4.5" == "Cálculo Diferencial (1000003)\t4\tFUND. OBLIGATORIA\t2020-1S\t4.5"
  {
  }

  lemma SampleEntry(e: SubjectInput)
    requires e == SubjectInput("1000003", "Cálculo Diferencial", 4, "FUND. OBLIGATORIA",
                               Decimal("4.5"), "APROBADA", "2020-1S")
    ensures Writable(e)
    ensures Fields(e) == ["Cálculo Diferencial (1000003)", "4", "FUND. OBLIGATORIA", "2020-1S", "4.5"]
  {
    DigitCode(e.code);
    assert Label(FundObligatoria) == e.tipologia;
    SamplePlain(e.name, e.semester, e.grade.text);
    SampleFields(e);
  }

  lemma SamplePlain(name: string, semester: string, grade: string)
    requires name == "Cálculo Diferencial" && semester == "2020-1S" && grade == "4.5"
    ensures PlainField(name) && PlainField(semester) && PlainField(grade)
  {
  }

  lemma SampleFields(e: SubjectInput)
    requires e == SubjectInput("1000003", "Cálculo Diferencial", 4, "FUND. OBLIGATORIA",
                               Decimal("4.5"), "APROBADA", "2020-1S")
    ensures Fields(e) == ["Cálculo Diferencial (1000003)", "4", "FUND. OBLIGATORIA", "2020-1S", "4.5"]
  {
    assert Itoa(4) == "4";
    assert e.name + " (" + e.code + ")" == "Cálculo Diferencial (1000003)";
  }

  /** Six or more digits make a code. */
  lemma DigitCode(code: string)
    requires |code| >= 6 && AllDigits(code)
    ensures CodeShape(code)
  {
    assert code[|code|..] == [];
  }

  /** A signed credits field is accepted: the reader yields negative credits. */
  lemma NegativeCreditsLine(line: string)
    requires line == "Física (1000019)\t-3\tLIBRE ELECCIÓN\t2021-2S\t3.0"
    ensures && '\n' !in line
            && ParseTabLine(line) == Some(SubjectInput("1000019", "Física", -3, "LIBRE ELECCIÓN",
                                                      Decimal("3.0"), "APROBADA", "2021-2S"))
  {
    var e := SubjectInput("1000019", "Física", -3, "LIBRE ELECCIÓN", Decimal("3.0"), "APROBADA", "2021-2S");
    NegativeCreditsEntry(e);
    JoinFive(Fields(e), '\t');
    NegativeCreditsJoin();
    assert FormatLine(e) == line;
    ParseFormatLine(e);
  }

  lemma NegativeCreditsJoin()
    ensures "Física (1000019)" + "\t" + "-3" + "\t" + "LIBRE ELECCIÓN" + "\t" + "2021-2S" + "\t" + "3.0" == "Física (1000019)\t-3\tLIBRE ELECCIÓN\t2021-2S\t3.0"
  {
  }

  lemma NegativeCreditsEntry(e: SubjectInput)
    requires e == SubjectInput("1000019", "Física", -3, "LIBRE ELECCIÓN", Decimal("3.0"), "APROBADA", "2021-2S")
    ensures Writable(e)
    ensures Fields(e) == ["Física (1000019)", "-3", "LIBRE ELECCIÓN", "2021-2S", "3.0"]
  {
    DigitCode(e.code);
    assert Label(LibreEleccion) == e.tipologia;
    NegativeCreditsPlain(e.name, e.semester, e.grade.text);
    NegativeCreditsFields(e);
  }

  lemma NegativeCreditsPlain(name: string, semester: string, grade: string)
    requires name == "Física" && semester == "2021-2S" && grade == "3.0"
    ensures PlainField(name) && PlainField(semester) && PlainField(grade)
  {
  }

  lemma NegativeCreditsFields(e: SubjectInput)
    requires e == SubjectInput("1000019", "Física", -3, "LIBRE ELECCIÓN", Decimal("3.0"), "APROBADA", "2021-2S")
    ensures Fields(e) == ["Física (1000019)", "-3", "LIBRE ELECCIÓN", "2021-2S", "3.0"]
  {
    assert Itoa(-3) == "-3";
    assert e.name + " (" + e.code + ")" == "Física (1000019)";
  }

  lemma JoinFive(parts: seq<string>, sep: char)
    requires |parts| == 5
    ensures Join(parts, sep) == parts[0] + [sep] + parts[1] + [sep] + parts[2] + [sep] + parts[3] + [sep] + parts[4]
  {
    assert Join(parts[4..], sep) == parts[4];
    assert Join(parts[3..], sep) == parts[3] + [sep] + parts[4];
    assert Join(parts[2..], sep) == parts[2] + [sep] + (parts[3] + [sep] + parts[4]);
    assert Join(parts[1..], sep) == parts[1] + [sep] + (parts[2] + [sep] + (parts[3] + [sep] + parts[4]));
  }

  /**
   The name group is greedy: when the name itself holds a parenthesised code, the last code is
   the one taken and the earlier one stays in the name.
   */
  lemma GreedyNameGroup(name: string, code: string)
    requires name == "Cálculo (1000001) Avanzado" && code == "1000002"
    ensures '\n' !in name + " (" + code + ")"
    ensures SplitNameCode(name + " (" + code + ")") == (name, code)
  {
    DigitCode(code);
    GreedyNamePlain(name);
    SplitNameCodeOfField(name, code);
  }

  lemma GreedyNamePlain(name: string)
    requires name == "Cálculo (1000001) Avanzado"
    ensures name != "" && Trimmed(name) && '\n' !in name
  {
  }
}
