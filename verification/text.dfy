/**
 The handful of Go `strings`/`strconv` operations the core relies on, over an explicit
 character set: `strings.TrimSpace`, `strings.Split`, `strings.Join`, `strings.ToUpper`,
 `strings.Contains` and `strconv.Atoi`.
 */
module Text {
  import opened Common

  /** Whitespace as `unicode.IsSpace` reports it for ASCII, NEL and NO-BREAK SPACE. */
  predicate IsSpace(c: char) {
    c == ' ' || c == '\t' || c == '\n' || c == '\U{0B}' || c == '\U{0C}' || c == '\r'
    || c == '\U{85}' || c == '\U{A0}'
  }

  predicate IsDigit(c: char) {
    '0' <= c <= '9'
  }

  predicate AllDigits(s: string) {
    forall i :: 0 <= i < |s| ==> IsDigit(s[i])
  }

  /** The text with every whitespace character deleted: what whitespace edits cannot change. */
  function NonBlank(s: string): (r: string)
    ensures |r| <= |s|
    ensures forall c :: c in r ==> c in s && !IsSpace(c)
  {
    if |s| == 0 then [] else (if IsSpace(s[0]) then [] else [s[0]]) + NonBlank(s[1..])
  }

  lemma {:induction false} NonBlankConcat(a: string, b: string)
    ensures NonBlank(a + b) == NonBlank(a) + NonBlank(b)
  {
    if |a| == 0 {
      assert a + b == b;
    } else {
      assert (a + b)[1..] == a[1..] + b;
      NonBlankConcat(a[1..], b);
    }
  }

  lemma {:induction false} NonBlankOfSpaces(s: string)
    requires forall i :: 0 <= i < |s| ==> IsSpace(s[i])
    ensures NonBlank(s) == []
  {
    if |s| > 0 {
      NonBlankOfSpaces(s[1..]);
    }
  }

  /** No whitespace at either end. */
  predicate Trimmed(s: string) {
    |s| == 0 || (!IsSpace(s[0]) && !IsSpace(s[|s| - 1]))
  }

  function TrimLeft(s: string): (r: string)
    ensures |r| <= |s| && r == s[|s| - |r|..]
    ensures forall i :: 0 <= i < |s| - |r| ==> IsSpace(s[i])
    ensures |r| == 0 || !IsSpace(r[0])
  {
    if |s| > 0 && IsSpace(s[0]) then TrimLeft(s[1..]) else s
  }

  function TrimRight(s: string): (r: string)
    ensures |r| <= |s| && r == s[..|r|]
    ensures forall i :: |r| <= i < |s| ==> IsSpace(s[i])
    ensures |r| == 0 || !IsSpace(r[|r| - 1])
  {
    if |s| > 0 && IsSpace(s[|s| - 1]) then TrimRight(s[..|s| - 1]) else s
  }

  /** `strings.TrimSpace`: deletes the whitespace at both ends and nothing else. */
  function TrimSpace(s: string): (r: string)
    ensures Trimmed(r)
    ensures forall c :: c in r ==> c in s
    ensures Trimmed(s) ==> r == s
  {
    var l := TrimLeft(s);
    NonBlankTrimLeft(s);
    NonBlankTrimRight(l);
    TrimRight(l)
  }

  /** Only whitespace lies before `i` and from `j` on. */
  predicate SpaceOutside(s: string, i: nat, j: nat)
    requires i <= j <= |s|
  {
    (forall k :: 0 <= k < i ==> IsSpace(s[k])) && (forall k :: j <= k < |s| ==> IsSpace(s[k]))
  }

  /** The trimmed text is the slice of the input between its leading and its trailing whitespace. */
  lemma TrimSpaceIsInfix(s: string)
    ensures exists i: nat, j: nat :: i <= j <= |s| && TrimSpace(s) == s[i..j] && SpaceOutside(s, i, j)
  {
    TrimSpaceSlice(s);
    TrimSpaceOutside(s);
  }

  /**
   Conversely, a trimmed slice with only whitespace outside it is the trimmed text: the slice
   and the two trimmed ends fix `TrimSpace` completely.
   */
  lemma TrimSpaceUnique(s: string, i: nat, j: nat)
    requires i <= j <= |s| && SpaceOutside(s, i, j) && Trimmed(s[i..j])
    ensures TrimSpace(s) == s[i..j]
  {
    TrimSpaceSlice(s);
    TrimSpaceOutside(s);
    SlicesAgree(s, i, j, TrimStart(s), TrimEnd(s));
  }

  /** Where `TrimSpace` starts and ends the slice it keeps. */
  function TrimStart(s: string): nat {
    |s| - |TrimLeft(s)|
  }

  function TrimEnd(s: string): nat {
    |s| - |TrimLeft(s)| + |TrimRight(TrimLeft(s))|
  }

  lemma TrimSpaceSlice(s: string)
    ensures TrimStart(s) <= TrimEnd(s) <= |s| && TrimSpace(s) == s[TrimStart(s)..TrimEnd(s)]
  {
    var l := TrimLeft(s);
    var r := TrimRight(l);
    assert l == s[TrimStart(s)..];
    assert r == l[..|r|];
  }

  lemma TrimSpaceOutside(s: string)
    ensures TrimStart(s) <= TrimEnd(s) <= |s| && SpaceOutside(s, TrimStart(s), TrimEnd(s))
  {
    var l := TrimLeft(s);
    var r := TrimRight(l);
    var a := TrimStart(s);
    assert forall k :: 0 <= k < a ==> IsSpace(s[k]);
    forall k | a + |r| <= k < |s|
      ensures IsSpace(s[k])
    {
      assert l == s[a..];
      assert s[k] == l[k - a];
    }
  }

  /** Two trimmed slices, each with only whitespace outside it, are the same slice. */
  lemma SlicesAgree(s: string, i: nat, j: nat, a: nat, b: nat)
    requires i <= j <= |s| && a <= b <= |s|
    requires SpaceOutside(s, i, j) && SpaceOutside(s, a, b)
    requires Trimmed(s[i..j]) && Trimmed(s[a..b])
    ensures s[i..j] == s[a..b]
  {
    assert i < j ==> s[i..j][0] == s[i] && s[i..j][j - i - 1] == s[j - 1];
    assert a < b ==> s[a..b][0] == s[a] && s[a..b][b - a - 1] == s[b - 1];
  }

  /** Trimming deletes only whitespace: the non-blank characters stay, in order. */
  lemma TrimSpaceKeepsNonBlank(s: string)
    ensures NonBlank(TrimSpace(s)) == NonBlank(s)
  {
    NonBlankTrimLeft(s);
    NonBlankTrimRight(TrimLeft(s));
  }

  lemma {:induction false} NonBlankTrimLeft(s: string)
    ensures NonBlank(TrimLeft(s)) == NonBlank(s)
    ensures forall c :: c in TrimLeft(s) ==> c in s
  {
    if |s| > 0 && IsSpace(s[0]) {
      NonBlankTrimLeft(s[1..]);
      assert forall c :: c in s[1..] ==> c in s;
    }
  }

  lemma NonBlankTrimRight(s: string)
    ensures NonBlank(TrimRight(s)) == NonBlank(s)
    ensures forall c :: c in TrimRight(s) ==> c in s
  {
    var r := TrimRight(s);
    assert s == r + s[|r|..];
    NonBlankConcat(r, s[|r|..]);
    NonBlankOfSpaces(s[|r|..]);
  }

  lemma TrimSpaceIdempotent(s: string)
    ensures TrimSpace(TrimSpace(s)) == TrimSpace(s)
  {
  }

  /** Number of occurrences of `c` in `s`. */
  function Count(s: string, c: char): nat {
    if |s| == 0 then 0 else (if s[0] == c then 1 else 0) + Count(s[1..], c)
  }

  /** `strings.Split(s, string(sep))`: one more piece than there are separators. */
  function Split(s: string, sep: char): (parts: seq<string>)
    ensures |parts| == Count(s, sep) + 1
    ensures forall i :: 0 <= i < |parts| ==> sep !in parts[i]
    ensures forall i, c :: 0 <= i < |parts| && c in parts[i] ==> c in s
  {
    if |s| == 0 then [""]
    else
      var rest := Split(s[1..], sep);
      assert forall c :: c in s[1..] ==> c in s;
      if s[0] == sep then [""] + rest
      else [[s[0]] + rest[0]] + rest[1..]
  }

  /** `strings.Join(parts, string(sep))`. */
  function Join(parts: seq<string>, sep: char): (s: string)
    ensures forall c :: c in s ==> c == sep || exists i :: 0 <= i < |parts| && c in parts[i]
  {
    if |parts| == 0 then ""
    else if |parts| == 1 then parts[0]
    else parts[0] + [sep] + Join(parts[1..], sep)
  }

  /** A character absent from every piece and different from the separator is absent from the join. */
  lemma {:induction false} JoinAvoids(parts: seq<string>, sep: char, c: char)
    requires c != sep
    requires forall i :: 0 <= i < |parts| ==> c !in parts[i]
    ensures c !in Join(parts, sep)
  {
    if |parts| > 1 {
      JoinAvoids(parts[1..], sep, c);
    }
  }

  /** Joining the pieces of a split gives the text back. */
  lemma {:induction false} JoinSplit(s: string, sep: char)
    ensures Join(Split(s, sep), sep) == s
  {
    if |s| > 0 {
      var rest := Split(s[1..], sep);
      JoinSplit(s[1..], sep);
      if s[0] == sep {
        assert Split(s, sep) == [""] + rest;
        assert ([""] + rest)[1..] == rest;
      } else if |rest| == 1 {
        assert Split(s, sep) == [[s[0]] + rest[0]];
      } else {
        var parts := Split(s, sep);
        assert parts == [[s[0]] + rest[0]] + rest[1..];
        assert parts[1..] == rest[1..];
        assert Join(rest, sep) == rest[0] + [sep] + Join(rest[1..], sep);
      }
    }
  }

  /** A separator splits the text into the pieces before it and the pieces after it. */
  lemma {:induction false} SplitAround(a: string, b: string, sep: char)
    ensures Split(a + [sep] + b, sep) == Split(a, sep) + Split(b, sep)
  {
    if |a| == 0 {
      assert a + [sep] + b == [sep] + b;
      assert ([sep] + b)[1..] == b;
    } else {
      assert (a + [sep] + b)[1..] == a[1..] + [sep] + b;
      SplitAround(a[1..], b, sep);
    }
  }

  lemma {:induction false} SplitNoSeparator(a: string, sep: char)
    requires sep !in a
    ensures Split(a, sep) == [a]
  {
    if |a| > 0 {
      SplitNoSeparator(a[1..], sep);
      assert [a[0]] + a[1..] == a;
    }
  }

  /** Splitting the join of separator-free pieces gives the pieces back. */
  lemma {:induction false} SplitJoin(parts: seq<string>, sep: char)
    requires |parts| >= 1
    requires forall i :: 0 <= i < |parts| ==> sep !in parts[i]
    ensures Split(Join(parts, sep), sep) == parts
  {
    if |parts| == 1 {
      SplitNoSeparator(parts[0], sep);
    } else {
      SplitJoin(parts[1..], sep);
      SplitAround(parts[0], Join(parts[1..], sep), sep);
      SplitNoSeparator(parts[0], sep);
      assert parts == [parts[0]] + parts[1..];
    }
  }

  /** Appending a non-separator extends the last piece. */
  lemma {:induction false} SplitSnoc(a: string, c: char, sep: char)
    requires c != sep
    ensures var p := Split(a, sep);
            Split(a + [c], sep) == p[..|p| - 1] + [p[|p| - 1] + [c]]
  {
    if |a| == 0 {
      SplitSingle(c, sep);
      assert a + [c] == [c];
    } else {
      SplitSnoc(a[1..], c, sep);
      assert (a + [c])[1..] == a[1..] + [c];
      if a[0] == sep {
        SplitSnocAfterSep(a, c, sep);
      } else if |Split(a[1..], sep)| == 1 {
        SplitSnocOnePiece(a, c, sep);
      } else {
        SplitSnocManyPieces(a, c, sep);
      }
    }
  }

  /** The inductive hypothesis of `SplitSnoc` for the tail of `a`. */
  predicate SnocTail(a: string, c: char, sep: char)
    requires |a| > 0
  {
    var p := Split(a[1..], sep);
    (a + [c])[1..] == a[1..] + [c] && Split(a[1..] + [c], sep) == p[..|p| - 1] + [p[|p| - 1] + [c]]
  }

  lemma SplitSnocAfterSep(a: string, c: char, sep: char)
    requires c != sep && |a| > 0 && a[0] == sep && SnocTail(a, c, sep)
    ensures var p := Split(a, sep);
            Split(a + [c], sep) == p[..|p| - 1] + [p[|p| - 1] + [c]]
  {
    var p := Split(a[1..], sep);
    var q := Split(a[1..] + [c], sep);
    var bigP := Split(a, sep);
    assert bigP == [""] + p;
    assert Split(a + [c], sep) == [""] + q;
    assert bigP[..|bigP| - 1] == [""] + p[..|p| - 1];
  }

  lemma SplitSnocOnePiece(a: string, c: char, sep: char)
    requires c != sep && |a| > 0 && a[0] != sep && |Split(a[1..], sep)| == 1 && SnocTail(a, c, sep)
    ensures var p := Split(a, sep);
            Split(a + [c], sep) == p[..|p| - 1] + [p[|p| - 1] + [c]]
  {
    var p := Split(a[1..], sep);
    var q := Split(a[1..] + [c], sep);
    var bigP := Split(a, sep);
    assert bigP == [[a[0]] + p[0]];
    assert q == [p[0] + [c]];
    assert Split(a + [c], sep) == [[a[0]] + q[0]] + q[1..];
    assert [a[0]] + (p[0] + [c]) == ([a[0]] + p[0]) + [c];
  }

  lemma SplitSnocManyPieces(a: string, c: char, sep: char)
    requires c != sep && |a| > 0 && a[0] != sep && |Split(a[1..], sep)| > 1 && SnocTail(a, c, sep)
    ensures var p := Split(a, sep);
            Split(a + [c], sep) == p[..|p| - 1] + [p[|p| - 1] + [c]]
  {
    var p := Split(a[1..], sep);
    var n := |p|;
    var q := Split(a[1..] + [c], sep);
    var bigP := Split(a, sep);
    assert bigP == [[a[0]] + p[0]] + p[1..];
    assert q[0] == p[0];
    assert q[1..] == p[1..n - 1] + [p[n - 1] + [c]];
    assert Split(a + [c], sep) == [[a[0]] + q[0]] + q[1..];
    assert bigP[..|bigP| - 1] == [[a[0]] + p[0]] + p[1..n - 1];
  }


  lemma SplitSingle(c: char, sep: char)
    requires c != sep
    ensures Split([c], sep) == [[c]]
  {
    assert [c][1..] == [];
    var rest := Split([c][1..], sep);
    assert rest == [""];
    assert [c] + rest[0] == [c];
    assert rest[1..] == [];
    assert Split([c], sep) == [[c] + rest[0]] + rest[1..];
  }

  /** Every line (piece between `\n`s) is trimmed. */
  predicate LinesTrimmed(s: string) {
    var lines := Split(s, '\n');
    forall i :: 0 <= i < |lines| ==> Trimmed(lines[i])
  }

  lemma {:induction false} TrimLeftKeepsLinesTrimmed(s: string)
    requires LinesTrimmed(s)
    ensures LinesTrimmed(TrimLeft(s))
  {
    if |s| > 0 && IsSpace(s[0]) {
      var rest := Split(s[1..], '\n');
      if s[0] == '\n' {
        assert Split(s, '\n') == [""] + rest;
        assert forall i :: 0 <= i < |rest| ==> rest[i] == Split(s, '\n')[i + 1];
        TrimLeftKeepsLinesTrimmed(s[1..]);
      } else {
        FirstLineStart(s);
        assert false;
      }
    }
  }

  /** A text that does not open with `\n` opens its first line with its first character. */
  lemma FirstLineStart(s: string)
    requires |s| > 0 && s[0] != '\n'
    ensures |Split(s, '\n')[0]| > 0 && Split(s, '\n')[0][0] == s[0]
  {
    var rest := Split(s[1..], '\n');
    assert Split(s, '\n')[0] == [s[0]] + rest[0];
  }

  /** A text that does not end with `\n` ends its last line with its last character. */
  lemma LastLineEnd(s: string)
    requires |s| > 0 && s[|s| - 1] != '\n'
    ensures var p := Split(s, '\n');
            |p[|p| - 1]| > 0 && p[|p| - 1][|p[|p| - 1]| - 1] == s[|s| - 1]
  {
    var u := s[..|s| - 1];
    assert s == u + [s[|s| - 1]];
    SplitSnoc(u, s[|s| - 1], '\n');
  }

  lemma {:induction false} TrimRightKeepsLinesTrimmed(s: string)
    requires LinesTrimmed(s)
    ensures LinesTrimmed(TrimRight(s))
  {
    if |s| > 0 && IsSpace(s[|s| - 1]) {
      var u := s[..|s| - 1];
      assert s == u + [s[|s| - 1]];
      if s[|s| - 1] == '\n' {
        SplitAround(u, [], '\n');
        assert u + ['\n'] + [] == s;
        var p := Split(u, '\n');
        assert Split(s, '\n') == p + [""];
        assert forall i :: 0 <= i < |p| ==> p[i] == Split(s, '\n')[i];
        TrimRightKeepsLinesTrimmed(u);
      } else {
        LastLineEnd(s);
        assert false;
      }
    }
  }

  /** Trimming the whole text keeps every line trimmed. */
  lemma TrimSpaceKeepsLinesTrimmed(s: string)
    requires LinesTrimmed(s)
    ensures LinesTrimmed(TrimSpace(s))
  {
    TrimLeftKeepsLinesTrimmed(s);
    TrimRightKeepsLinesTrimmed(TrimLeft(s));
  }

  /** `unicode.ToUpper` on ASCII letters and the Spanish letters áéíóúñü. */
  function UpperChar(c: char): char {
    if 'a' <= c <= 'z' then (c as int - 32) as char
    else if c == 'á' then 'Á'
    else if c == 'é' then 'É'
    else if c == 'í' then 'Í'
    else if c == 'ó' then 'Ó'
    else if c == 'ú' then 'Ú'
    else if c == 'ñ' then 'Ñ'
    else if c == 'ü' then 'Ü'
    else c
  }

  function ToUpper(s: string): string {
    seq(|s|, i requires 0 <= i < |s| => UpperChar(s[i]))
  }

  /** Text with no lower-case letter that `UpperChar` would change. */
  predicate NoLower(s: string) {
    forall i :: 0 <= i < |s| ==> UpperChar(s[i]) == s[i]
  }

  lemma UpperFixed(s: string)
    requires NoLower(s)
    ensures ToUpper(s) == s
  {
  }

  /** `strings.Contains`. */
  predicate Contains(s: string, sub: string) {
    exists i :: 0 <= i <= |s| - |sub| && OccursAt(s, sub, i)
  }

  predicate OccursAt(s: string, sub: string, i: nat) {
    i + |sub| <= |s| && s[i..i + |sub|] == sub
  }

  function DigitValue(c: char): nat
    requires IsDigit(c)
  {
    c as int - '0' as int
  }

  /** Decimal value of a run of ASCII digits (the empty run is worth 0). */
  function DigitsValue(s: string): nat
    requires AllDigits(s)
  {
    if |s| == 0 then 0 else DigitsValue(s[..|s| - 1]) * 10 + DigitValue(s[|s| - 1])
  }

  /**
   `strconv.Atoi`: an optional `+` or `-` followed by at least one ASCII digit;
   anything else is a syntax error (None). Range errors are not modelled.
   */
  function Atoi(s: string): Option<int> {
    if |s| == 0 then None
    else if s[0] == '+' || s[0] == '-' then
      var digits := s[1..];
      if |digits| > 0 && AllDigits(digits) then
        var v: int := DigitsValue(digits);
        Some(if s[0] == '-' then -v else v)
      else None
    else if AllDigits(s) then Some(DigitsValue(s))
    else None
  }

  /** The decimal digits of `n`, most significant first, without leading zeros. */
  function NatDigits(n: nat): (s: string)
    ensures |s| > 0 && AllDigits(s)
    ensures DigitsValue(s) == n
  {
    var d := ['0' + (n % 10) as char];
    if n < 10 then d
    else
      var hi := NatDigits(n / 10);
      var s := hi + d;
      assert s[..|s| - 1] == hi;
      s
  }

  /** `strconv.Itoa`. */
  function Itoa(n: int): string {
    if n < 0 then "-" + NatDigits(-n) else NatDigits(n)
  }

  /** `Atoi` reads back every integer `Itoa` writes. */
  lemma AtoiItoa(n: int)
    ensures Atoi(Itoa(n)) == Some(n)
  {
    var d := NatDigits(if n < 0 then -n else n);
    if n < 0 {
      assert Itoa(n)[1..] == d;
    } else {
      assert Itoa(n)[0] == d[0];
    }
  }

  /** A signed integer text `Atoi` accepts: it may be negative. */
  lemma AtoiAcceptsSign()
    ensures Atoi("-3") == Some(-3)
    ensures Atoi("+4") == Some(4)
    ensures Atoi("") == None && Atoi("-") == None && Atoi("4a") == None
  {
    assert "-3"[1..] == "3";
    assert "3"[..0] == "";
    assert "+4"[1..] == "4";
    assert "4"[..0] == "";
    assert !IsDigit("4a"[1]);
  }
}
