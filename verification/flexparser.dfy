/**
 `parseAcademicHistoryTextFlexible`: the line-grouping reader used by the text comparison.
 Over the trimmed, non-empty lines of the text, a header line `name (code)` starts a record and
 flushes the one in progress; the next four non-header lines fill credits, type, period and
 grade by position, and the record is flushed after the fourth.

 `Records` is a reference reading of the same text built from header positions alone; the
 method `ParseFlexible` follows the source's loop and is proved to produce exactly `Records`.
 */
module FlexParser {
  import opened Common
  import opened Text
  import opened Models

  /** Position of the first `c` at or after `from`. */
  function FirstFrom(s: string, c: char, from: nat): (r: Option<nat>)
    requires from <= |s|
    ensures r.Some? ==> from <= r.value < |s| && s[r.value] == c
    ensures r.Some? ==> forall k :: from <= k < r.value ==> s[k] != c
    ensures r.None? ==> forall k :: from <= k < |s| ==> s[k] != c
    decreases |s| - from
  {
    if from == |s| then None
    else if s[from] == c then Some(from)
    else FirstFrom(s, c, from + 1)
  }

  /**
   The header pattern `^([^(]+)\s*\(([^)]+)\)` on a trimmed line. The first group cannot pass a
   `(`, so the `(` matched is the line's first one and must not be at position 0; the second
   group cannot pass a `)`, so it ends at the first `)` after that and must not be empty.
   The groups are returned trimmed, name first.
   */
  function HeaderOf(line: string): Option<(string, string)> {
    match FirstFrom(line, '(', 0)
    case None => None
    case Some(i) =>
      if i == 0 then None
      else
        match FirstFrom(line, ')', i + 1)
        case None => None
        case Some(j) =>
          if j == i + 1 then None else Some((TrimSpace(line[..i]), TrimSpace(line[i + 1..j])))
  }

  /** `(` at `i` is the line's first, something precedes it, and `)` at `j > i + 1` is the first after it. */
  predicate HeaderAt(line: string, i: nat, j: nat) {
    && 0 < i && i + 1 < j < |line|
    && line[i] == '(' && line[j] == ')'
    && (forall k :: 0 <= k < i ==> line[k] != '(')
    && (forall k :: i < k < j ==> line[k] != ')')
  }

  /** The groups `name` and `code` are what the brackets placed as `HeaderAt` says enclose, trimmed. */
  ghost predicate IsHeaderSplit(line: string, name: string, code: string) {
    exists i: nat, j: nat :: HeaderAt(line, i, j) && name == TrimSpace(line[..i]) && code == TrimSpace(line[i + 1..j])
  }

  /** A line is a header with groups `name` and `code` exactly when the brackets sit as `HeaderAt` says. */
  lemma HeaderOfMeaning(line: string, name: string, code: string)
    ensures HeaderOf(line) == Some((name, code)) <==> IsHeaderSplit(line, name, code)
  {
    if IsHeaderSplit(line, name, code) {
      HeaderOfComplete(line, name, code);
    }
    if HeaderOf(line) == Some((name, code)) {
      HeaderOfSound(line, name, code);
    }
  }

  lemma HeaderOfComplete(line: string, name: string, code: string)
    requires IsHeaderSplit(line, name, code)
    ensures HeaderOf(line) == Some((name, code))
  {
    var i: nat, j: nat :| HeaderAt(line, i, j) && name == TrimSpace(line[..i]) && code == TrimSpace(line[i + 1..j]);
    HeaderOfAt(line, i, j);
  }

  /** Brackets placed as `HeaderAt` says make the line a header with those groups. */
  lemma HeaderOfAt(line: string, i: nat, j: nat)
    requires HeaderAt(line, i, j)
    ensures HeaderOf(line) == Some((TrimSpace(line[..i]), TrimSpace(line[i + 1..j])))
  {
    HeaderAtFirsts(line, i, j);
  }

  /** A header's brackets are placed as `HeaderAt` says. */
  lemma HeaderOfSound(line: string, name: string, code: string)
    requires HeaderOf(line) == Some((name, code))
    ensures IsHeaderSplit(line, name, code)
  {
    var fi := FirstFrom(line, '(', 0);
    assert fi.Some? && fi.value > 0;
    var i := fi.value;
    var fj := FirstFrom(line, ')', i + 1);
    assert fj.Some? && fj.value != i + 1;
    var j := fj.value;
    assert HeaderAt(line, i, j);
    assert name == TrimSpace(line[..i]) && code == TrimSpace(line[i + 1..j]);
  }

  /** The brackets `HeaderAt` describes are the ones `HeaderOf` finds. */
  lemma HeaderAtFirsts(line: string, i: nat, j: nat)
    requires HeaderAt(line, i, j)
    ensures FirstFrom(line, '(', 0) == Some(i) && FirstFrom(line, ')', i + 1) == Some(j)
  {
    FirstFromExact(line, '(', 0, i);
    FirstFromExact(line, ')', i + 1, j);
  }

  lemma {:induction false} FirstFromExact(s: string, c: char, from: nat, k: nat)
    requires from <= k < |s| && s[k] == c
    requires forall p :: from <= p < k ==> s[p] != c
    ensures FirstFrom(s, c, from) == Some(k)
    decreases k - from
  {
    if from < k {
      FirstFromExact(s, c, from + 1, k);
    }
  }

  /** Lines that open with `(`, have no `(`, or close the bracket at once are not headers. */
  lemma NotHeaders(line: string)
    ensures |line| > 0 && line[0] == '(' ==> HeaderOf(line).None?
    ensures '(' !in line ==> HeaderOf(line).None?
    ensures (exists i :: 0 < i && i + 1 < |line| && line[i] == '(' && line[i + 1] == ')' && '(' !in line[..i]) ==>
              HeaderOf(line).None?
  {
    if exists i :: 0 < i && i + 1 < |line| && line[i] == '(' && line[i + 1] == ')' && '(' !in line[..i] {
      var i :| 0 < i && i + 1 < |line| && line[i] == '(' && line[i + 1] == ')' && '(' !in line[..i];
      assert forall k :: 0 <= k < i ==> line[k] != '(' by {
        forall k | 0 <= k < i ensures line[k] != '(' {
          assert line[..i][k] == line[k];
        }
      }
      FirstFromExact(line, '(', 0, i);
      FirstFromExact(line, ')', i + 1, i + 1);
    }
    if '(' !in line {
      assert forall k :: 0 <= k < |line| ==> line[k] != '(';
    }
  }

  /** The credits pattern `^\s*(\d+)\s*$` on a trimmed line: nothing but decimal digits. */
  predicate IsCreditsLine(line: string) {
    line != "" && AllDigits(line)
  }

  /** Number of leading decimal digits. */
  function LeadingDigits(s: string): (n: nat)
    ensures n <= |s| && AllDigits(s[..n])
    ensures n == |s| || !IsDigit(s[n])
  {
    if |s| == 0 || !IsDigit(s[0]) then 0
    else
      var n := 1 + LeadingDigits(s[1..]);
      assert s[..n] == [s[0]] + s[1..][..n - 1];
      n
  }

  /** The grade pattern `^\s*(\d+\.?\d*)\s*$` on a trimmed line: digits, then optionally `.` and more digits. */
  predicate IsGradeLine(line: string) {
    var d := LeadingDigits(line);
    d >= 1 && (d == |line| || (line[d] == '.' && AllDigits(line[d + 1..])))
  }

  /**
   The `n`-th line after a header, `n` from 1 to 4: credits when the line is all digits, the type
   and the period verbatim, the grade when the line is a decimal number.
   */
  function Apply(r: ParsedSubject, n: nat, line: string): ParsedSubject {
    if n == 1 then (if IsCreditsLine(line) then r.(credits := DigitsValue(line)) else r)
    else if n == 2 then r.(tipologia := line)
    else if n == 3 then r.(semester := line)
    else if n == 4 then (if IsGradeLine(line) then r.(grade := Decimal(line)) else r)
    else r
  }

  /** A fresh record for a header: approved, everything else at its zero value. */
  function Blank(h: (string, string)): ParsedSubject {
    ParsedSubject(h.1, h.0, 0, "", NoGrade, "APROBADA", "")
  }

  /** The non-header lines that follow, up to the next header. */
  function Body(ls: seq<string>): (b: seq<string>)
    ensures |b| <= |ls| && b == ls[..|b|]
  {
    if |ls| == 0 || HeaderOf(ls[0]).Some? then []
    else
      var t := Body(ls[1..]);
      assert ls[..1 + |t|] == [ls[0]] + ls[1..][..|t|];
      [ls[0]] + t
  }

  /** Applies the lines of `body` as positions `n + 1`, `n + 2`, ... up to position 4. */
  function FillFrom(r: ParsedSubject, n: nat, body: seq<string>): ParsedSubject
    decreases |body|
  {
    if |body| == 0 || n >= 4 then r
    else FillFrom(Apply(r, n + 1, body[0]), n + 1, body[1..])
  }

  /**
   The record a header makes from the lines that follow it: credits from the first, type from
   the second, period from the third, grade from the fourth, each left at its zero value when
   its line is missing (the next header came first) or does not have the expected shape. Any
   lines past the fourth are ignored.
   */
  function Fill(h: (string, string), body: seq<string>): (r: ParsedSubject)
    ensures r.name == h.0 && r.code == h.1 && r.status == "APROBADA"
    ensures r.credits == (if |body| >= 1 && IsCreditsLine(body[0]) then DigitsValue(body[0]) else 0)
    ensures r.tipologia == (if |body| >= 2 then body[1] else "")
    ensures r.semester == (if |body| >= 3 then body[2] else "")
    ensures r.grade == (if |body| >= 4 && IsGradeLine(body[3]) then Decimal(body[3]) else NoGrade)
  {
    FillFromFields(Blank(h), 0, body);
    FillFrom(Blank(h), 0, body)
  }

  /**
   Filling from position `n`: the header fields stay, and each of the four positions past `n`
   that a body line reaches is set from that line.
   */
  lemma {:induction false} FillFromFields(r: ParsedSubject, n: nat, body: seq<string>)
    ensures var f := FillFrom(r, n, body);
            && f.name == r.name && f.code == r.code && f.status == r.status
            && f.credits == (if n < 1 && |body| >= 1 && IsCreditsLine(body[0]) then DigitsValue(body[0]) else r.credits)
            && f.tipologia == (if n < 2 && |body| >= 2 - n then body[1 - n] else r.tipologia)
            && f.semester == (if n < 3 && |body| >= 3 - n then body[2 - n] else r.semester)
            && f.grade == (if n < 4 && |body| >= 4 - n && IsGradeLine(body[3 - n]) then Decimal(body[3 - n]) else r.grade)
    decreases |body|
  {
    if |body| > 0 && n < 4 {
      var r1 := Apply(r, n + 1, body[0]);
      FillFromFields(r1, n + 1, body[1..]);
      ApplyFields(r, n + 1, body[0]);
      assert FillFrom(r, n, body) == FillFrom(r1, n + 1, body[1..]);
      BodyShift(body, n);
    }
  }

  /** The body line for a later position is the next one after the first. */
  lemma BodyShift(body: seq<string>, n: nat)
    requires |body| > 0 && n < 4
    ensures n + 1 < 2 && |body[1..]| >= 1 - n ==> body[1..][0 - n] == body[1 - n]
    ensures n + 1 < 3 && |body[1..]| >= 2 - n ==> body[1..][1 - n] == body[2 - n]
    ensures n + 1 < 4 && |body[1..]| >= 3 - n ==> body[1..][2 - n] == body[3 - n]
  {
  }

  /** One position of the record: only the field of position `n` can change. */
  lemma ApplyFields(r: ParsedSubject, n: nat, line: string)
    requires 1 <= n <= 4
    ensures var a := Apply(r, n, line);
            && a.name == r.name && a.code == r.code && a.status == r.status
            && a.credits == (if n == 1 && IsCreditsLine(line) then DigitsValue(line) else r.credits)
            && a.tipologia == (if n == 2 then line else r.tipologia)
            && a.semester == (if n == 3 then line else r.semester)
            && a.grade == (if n == 4 && IsGradeLine(line) then Decimal(line) else r.grade)
  {
  }

  /** Reference reading: one record per header line, in order, each filled from its own body. */
  function Records(ls: seq<string>): seq<ParsedSubject> {
    if |ls| == 0 then []
    else match HeaderOf(ls[0])
      case Some(h) => [Fill(h, Body(ls[1..]))] + Records(ls[1..])
      case None => Records(ls[1..])
  }

  /** The groups of the header lines, in order. */
  function Headers(ls: seq<string>): seq<(string, string)> {
    if |ls| == 0 then []
    else match HeaderOf(ls[0])
      case Some(h) => [h] + Headers(ls[1..])
      case None => Headers(ls[1..])
  }

  /** One record per header line, in header order, each approved and named and coded by its header. */
  lemma {:induction false} RecordsFollowHeaders(ls: seq<string>)
    ensures |Records(ls)| == |Headers(ls)|
    ensures forall k :: 0 <= k < |Records(ls)| ==>
              && Records(ls)[k].name == Headers(ls)[k].0
              && Records(ls)[k].code == Headers(ls)[k].1
              && Records(ls)[k].status == "APROBADA"
  {
    if |ls| > 0 {
      RecordsFollowHeaders(ls[1..]);
      match HeaderOf(ls[0])
      case Some(h) =>
        var r := Fill(h, Body(ls[1..]));
        assert Records(ls) == [r] + Records(ls[1..]);
        assert Headers(ls) == [h] + Headers(ls[1..]);
        ConsFollows(r, h, Records(ls[1..]), Headers(ls[1..]));
      case None =>
    }
  }

  /** Prepending a record made from its header keeps records and headers in step. */
  lemma ConsFollows(r: ParsedSubject, h: (string, string), rs: seq<ParsedSubject>, hs: seq<(string, string)>)
    requires r.name == h.0 && r.code == h.1 && r.status == "APROBADA" && |rs| == |hs|
    requires forall k :: 0 <= k < |rs| ==> rs[k].name == hs[k].0 && rs[k].code == hs[k].1 && rs[k].status == "APROBADA"
    ensures |[r] + rs| == |[h] + hs|
    ensures forall k :: 0 <= k < |[r] + rs| ==>
              && ([r] + rs)[k].name == ([h] + hs)[k].0
              && ([r] + rs)[k].code == ([h] + hs)[k].1
              && ([r] + rs)[k].status == "APROBADA"
  {
    forall k | 0 < k < |[r] + rs|
      ensures ([r] + rs)[k] == rs[k - 1] && ([h] + hs)[k] == hs[k - 1]
    {
    }
  }

  /** The source's line filter: each line trimmed, empty ones dropped. */
  function Cleaned(raw: seq<string>): seq<string> {
    if |raw| == 0 then [] else Kept(raw[0]) + Cleaned(raw[1..])
  }

  /** One raw line as the loop sees it: trimmed, or nothing when blank. */
  function Kept(raw: string): seq<string> {
    if TrimSpace(raw) == "" then [] else [TrimSpace(raw)]
  }

  /** The lines the parser looks at are trimmed and non-empty. */
  lemma {:induction false} CleanedLines(raw: seq<string>)
    ensures forall k :: 0 <= k < |Cleaned(raw)| ==> Cleaned(raw)[k] != "" && Trimmed(Cleaned(raw)[k])
  {
    if |raw| > 0 {
      CleanedLines(raw[1..]);
      var t := TrimSpace(raw[0]);
      var tail := Cleaned(raw[1..]);
      if t == "" {
        assert Cleaned(raw) == [] + tail == tail;
      } else {
        assert Cleaned(raw) == [t] + tail;
        ConsLines(t, tail);
      }
    }
  }

  lemma ConsLines(t: string, tail: seq<string>)
    requires t != "" && Trimmed(t)
    requires forall k :: 0 <= k < |tail| ==> tail[k] != "" && Trimmed(tail[k])
    ensures forall k :: 0 <= k < |[t] + tail| ==> ([t] + tail)[k] != "" && Trimmed(([t] + tail)[k])
  {
    forall k | 0 < k < |[t] + tail| ensures ([t] + tail)[k] == tail[k - 1] {
    }
  }

  /** What a loop state still owes: the record in progress completed from the coming body, then the rest. */
  function Continue(current: Option<ParsedSubject>, n: nat, ls: seq<string>): seq<ParsedSubject> {
    match current
    case Some(r) => [FillFrom(r, n, Body(ls))] + Records(ls)
    case None => Records(ls)
  }

  /** A header line flushes the record in progress and opens a blank one. */
  lemma HeaderStep(current: Option<ParsedSubject>, n: nat, line: string, h: (string, string), ls: seq<string>)
    requires HeaderOf(line) == Some(h)
    ensures Continue(current, n, [line] + ls) ==
            (if current.Some? then [current.value] else []) + Continue(Some(Blank(h)), 0, ls)
  {
    assert ([line] + ls)[1..] == ls;
  }

  /** A non-header line fills the next position of the record in progress, flushing it after the fourth. */
  lemma BodyStep(r: ParsedSubject, n: nat, line: string, ls: seq<string>)
    requires HeaderOf(line).None? && n < 4
    ensures Continue(Some(r), n, [line] + ls) ==
            if n + 1 == 4 then [Apply(r, 4, line)] + Continue(None, 0, ls)
            else Continue(Some(Apply(r, n + 1, line)), n + 1, ls)
  {
    NonHeaderCons(line, ls);
    FillFromCons(r, n, line, Body(ls));
  }

  /** A non-header line in front joins the body and adds no record. */
  lemma NonHeaderCons(line: string, ls: seq<string>)
    requires HeaderOf(line).None?
    ensures Body([line] + ls) == [line] + Body(ls)
    ensures Records([line] + ls) == Records(ls)
  {
    assert ([line] + ls)[1..] == ls;
  }

  lemma FillFromCons(r: ParsedSubject, n: nat, line: string, b: seq<string>)
    requires n < 4
    ensures FillFrom(r, n, [line] + b) == FillFrom(Apply(r, n + 1, line), n + 1, b)
    ensures n + 1 == 4 ==> FillFrom(r, n, [line] + b) == Apply(r, 4, line)
  {
    assert ([line] + b)[1..] == b;
  }

  /** With no record in progress a non-header line is skipped. */
  lemma IdleStep(line: string, ls: seq<string>)
    requires HeaderOf(line).None?
    ensures Continue(None, 0, [line] + ls) == Continue(None, 0, ls)
  {
    assert ([line] + ls)[1..] == ls;
  }

  lemma Regroup<T>(a: seq<T>, b: seq<T>, c: seq<T>)
    ensures (a + b) + c == a + (b + c)
  {
  }

  lemma CleanedStep(raw: seq<string>, i: nat)
    requires i < |raw|
    ensures Cleaned(raw[i..]) == Kept(raw[i]) + Cleaned(raw[i + 1..])
  {
    assert raw[i..][1..] == raw[i + 1..];
  }

  /**
   `parseAcademicHistoryTextFlexible`: the source's loop over the text's lines. It never fails,
   and it reads exactly the reference records, one per header line.
   */
  method ParseFlexible(text: string) returns (subjects: seq<ParsedSubject>)
    ensures subjects == Records(Cleaned(Split(text, '\n')))
    ensures |subjects| == |Headers(Cleaned(Split(text, '\n')))|
  {
    subjects := ParseLines(Split(text, '\n'));
    RecordsFollowHeaders(Cleaned(Split(text, '\n')));
  }

  /** The loop over the raw lines, with the final flush of the record still in progress. */
  method ParseLines(lines: seq<string>) returns (subjects: seq<ParsedSubject>)
    ensures subjects == Records(Cleaned(lines))
  {
    subjects := [];
    var current: Option<ParsedSubject> := None;
    var lineCount: nat := 0;
    var i := 0;
    assert subjects + Continue(current, lineCount, Cleaned(lines[i..])) == Records(Cleaned(lines)) by {
      assert lines[i..] == lines;
    }
    while i < |lines|
      invariant i <= |lines|
      invariant current.Some? ==> lineCount < 4
      invariant current.None? ==> lineCount == 0
      invariant subjects + Continue(current, lineCount, Cleaned(lines[i..])) == Records(Cleaned(lines))
    {
      CleanedStep(lines, i);
      subjects, current, lineCount := Step(subjects, current, lineCount, lines[i], Cleaned(lines[i + 1..]));
      i := i + 1;
    }
    assert Cleaned(lines[i..]) == [] by {
      assert lines[i..] == [];
    }
    if current.Some? {
      subjects := subjects + [current.value];
    }
  }

  /** One raw line of the source's loop: trimmed, skipped when blank, otherwise fed to the state machine. */
  method Step(subjects: seq<ParsedSubject>, current: Option<ParsedSubject>, lineCount: nat, raw: string,
              ghost rest: seq<string>)
    returns (subjects': seq<ParsedSubject>, current': Option<ParsedSubject>, lineCount': nat)
    requires current.Some? ==> lineCount < 4
    requires current.None? ==> lineCount == 0
    ensures current'.Some? ==> lineCount' < 4
    ensures current'.None? ==> lineCount' == 0
    ensures subjects' + Continue(current', lineCount', rest) == subjects + Continue(current, lineCount, Kept(raw) + rest)
  {
    var line := TrimSpace(raw);
    if line == "" {
      assert Kept(raw) + rest == rest;
      subjects', current', lineCount' := subjects, current, lineCount;
    } else {
      assert Kept(raw) + rest == [line] + rest;
      subjects', current', lineCount' := Feed(subjects, current, lineCount, line, rest);
    }
  }

  /**
   One trimmed, non-empty line of the source's loop: a header flushes the record in progress
   and opens a blank one; otherwise the record in progress, if any, takes the line at its next
   position and is flushed after the fourth. What is emitted plus what is still owed for the
   lines `rest` to come is unchanged.
   */
  method Feed(subjects: seq<ParsedSubject>, current: Option<ParsedSubject>, lineCount: nat, line: string,
              ghost rest: seq<string>)
    returns (subjects': seq<ParsedSubject>, current': Option<ParsedSubject>, lineCount': nat)
    requires current.Some? ==> lineCount < 4
    requires current.None? ==> lineCount == 0
    ensures current'.Some? ==> lineCount' < 4
    ensures current'.None? ==> lineCount' == 0
    ensures subjects' + Continue(current', lineCount', rest) == subjects + Continue(current, lineCount, [line] + rest)
  {
    match HeaderOf(line)
    case Some(h) =>
      HeaderStep(current, lineCount, line, h, rest);
      var flushed := if current.Some? then [current.value] else [];
      Regroup(subjects, flushed, Continue(Some(Blank(h)), 0, rest));
      subjects' := subjects + flushed;
      current' := Some(Blank(h));
      lineCount' := 0;
    case None =>
      if current.Some? {
        var r := current.value;
        BodyStep(r, lineCount, line, rest);
        lineCount' := lineCount + 1;
        current' := Some(Apply(r, lineCount', line));
        subjects' := subjects;
        if lineCount' == 4 {
          Regroup(subjects, [current'.value], Continue(None, 0, rest));
          subjects' := subjects + [current'.value];
          current' := None;
          lineCount' := 0;
        }
      } else {
        IdleStep(line, rest);
        subjects', current', lineCount' := subjects, current, lineCount;
      }
  }

  /** The empty text has no records. */
  lemma EmptyTextNoRecords()
    ensures Records(Cleaned(Split("", '\n'))) == []
  {
    var raw := Split("", '\n');
    assert raw == [""];
    assert Trimmed(raw[0]);
    assert raw[1..] == [];
  }

  /**
   The conversion feeding the comparison keeps, record by record, the header's code: it was
   trimmed when read, and trimming again changes nothing.
   */
  lemma ComparisonCodesAreHeaderCodes(ls: seq<string>)
    ensures var inputs := ToSubjectInputs(Records(ls));
            && |inputs| == |Headers(ls)|
            && forall k :: 0 <= k < |inputs| ==> inputs[k].code == Headers(ls)[k].1 && inputs[k].status == "APROBADA"
  {
    RecordsFollowHeaders(ls);
    forall k | 0 <= k < |Headers(ls)| ensures TrimSpace(Headers(ls)[k].1) == Headers(ls)[k].1 {
      HeadersTrimmed(ls, k);
    }
  }

  /** Header groups are trimmed. */
  lemma {:induction false} HeadersTrimmed(ls: seq<string>, k: nat)
    requires k < |Headers(ls)|
    ensures Trimmed(Headers(ls)[k].0) && Trimmed(Headers(ls)[k].1)
  {
    if |ls| > 0 {
      match HeaderOf(ls[0])
      case Some(h) =>
        if k > 0 {
          HeadersTrimmed(ls[1..], k - 1);
        }
      case None =>
        HeadersTrimmed(ls[1..], k);
    }
  }
}
