/**
 The curriculum comparator: which subjects of a study plan a history approves, directly or
 through an equivalence, and the per-category credit summary. The plan, the equivalence rows
 and the history are inputs; the two database lookups that can fail become `Option`s.
 */
module Comparator {
  import opened Common
  import opened Text
  import opened Tipologia
  import opened Models

  /** The keys of the plan-subject map: the codes of the plan's subjects. */
  function PlanCodes(subjects: seq<Subject>): set<string> {
    set s | s in subjects :: s.code
  }

  // ---------------------------------------------------------------------------------------
  // The bidirectional equivalence lookup
  // ---------------------------------------------------------------------------------------

  /** `e` relates `c` to `x`, in either direction. */
  predicate Links(e: Equivalence, c: string, x: string) {
    (e.sourceCode == c && e.targetCode == x) || (e.targetCode == c && e.sourceCode == x)
  }

  /** What one equivalence adds to the list of `c`: its target if `c` is its source, then its source if `c` is its target. */
  function Contribution(e: Equivalence, c: string): seq<string> {
    (if e.sourceCode == c then [e.targetCode] else []) + (if e.targetCode == c then [e.sourceCode] else [])
  }

  /** Reference for one entry of the lookup: every contribution to `c`, in list order. */
  function Partners(eqs: seq<Equivalence>, c: string): seq<string> {
    if |eqs| == 0 then [] else Partners(eqs[..|eqs| - 1], c) + Contribution(eqs[|eqs| - 1], c)
  }

  /** Go's `m[k] = append(m[k], v)`, where a missing key reads as the empty list. */
  function AppendTo(m: map<string, seq<string>>, k: string, v: string): map<string, seq<string>> {
    m[k := (if k in m then m[k] else []) + [v]]
  }

  /** One iteration of the lookup-building loop. */
  function AddEquivalence(m: map<string, seq<string>>, e: Equivalence, codes: set<string>): map<string, seq<string>> {
    var m1 := if e.sourceCode in codes then AppendTo(m, e.sourceCode, e.targetCode) else m;
    if e.targetCode in codes then AppendTo(m1, e.targetCode, e.sourceCode) else m1
  }

  /** `equivalenceMap`: the equivalences folded in list order. */
  function BuildLookup(eqs: seq<Equivalence>, codes: set<string>): map<string, seq<string>> {
    if |eqs| == 0 then map[] else AddEquivalence(BuildLookup(eqs[..|eqs| - 1], codes), eqs[|eqs| - 1], codes)
  }

  /**
   The lookup holds exactly the plan codes some equivalence touches, and each entry lists the
   codes on the other side of those equivalences, in list order.
   */
  lemma {:induction false} LookupIsPartners(eqs: seq<Equivalence>, codes: set<string>, c: string)
    ensures c in BuildLookup(eqs, codes) <==> c in codes && Partners(eqs, c) != []
    ensures c in BuildLookup(eqs, codes) ==> BuildLookup(eqs, codes)[c] == Partners(eqs, c)
  {
    if |eqs| > 0 {
      LookupIsPartners(eqs[..|eqs| - 1], codes, c);
    }
  }

  /** `x` is listed for `c` exactly when some equivalence links the two. */
  lemma {:induction false} PartnersMembership(eqs: seq<Equivalence>, c: string, x: string)
    ensures x in Partners(eqs, c) <==> exists i :: 0 <= i < |eqs| && Links(eqs[i], c, x)
  {
    if |eqs| > 0 {
      var n := |eqs| - 1;
      PartnersMembership(eqs[..n], c, x);
      ContributionLinks(eqs[n], c, x);
      LinksInPrefix(eqs, eqs[..n], c, x);
    }
  }

  lemma ContributionLinks(e: Equivalence, c: string, x: string)
    ensures x in Contribution(e, c) <==> Links(e, c, x)
  {
  }

  /** A link in a non-empty list is a link in all but its last row, or in the last row. */
  lemma LinksInPrefix(eqs: seq<Equivalence>, init: seq<Equivalence>, c: string, x: string)
    requires |eqs| > 0 && init == eqs[..|eqs| - 1]
    ensures (exists i :: 0 <= i < |eqs| && Links(eqs[i], c, x)) <==>
            (exists i :: 0 <= i < |init| && Links(init[i], c, x)) || Links(eqs[|eqs| - 1], c, x)
  {
    if exists i :: 0 <= i < |eqs| && Links(eqs[i], c, x) {
      var i :| 0 <= i < |eqs| && Links(eqs[i], c, x);
      if i < |init| {
        assert Links(init[i], c, x);
      }
    }
    if exists i :: 0 <= i < |init| && Links(init[i], c, x) {
      var i :| 0 <= i < |init| && Links(init[i], c, x);
      assert Links(eqs[i], c, x);
    }
  }

  /** Between two plan subjects the lookup is symmetric: each lists the other or neither does. */
  lemma LookupSymmetric(eqs: seq<Equivalence>, codes: set<string>, a: string, b: string)
    requires a in codes && b in codes
    ensures var m := BuildLookup(eqs, codes);
            (a in m && b in m[a]) <==> (b in m && a in m[b])
  {
    LookupIsPartners(eqs, codes, a);
    LookupIsPartners(eqs, codes, b);
    PartnersMembership(eqs, a, b);
    PartnersMembership(eqs, b, a);
    assert forall i :: 0 <= i < |eqs| ==> (Links(eqs[i], a, b) <==> Links(eqs[i], b, a));
  }

  /** The rows the source's query returns: those whose source or target belongs to the plan. */
  function Related(eqs: seq<Equivalence>, codes: set<string>): (r: seq<Equivalence>)
    ensures forall e :: e in r <==> e in eqs && (e.sourceCode in codes || e.targetCode in codes)
  {
    if |eqs| == 0 then []
    else
      var e := eqs[|eqs| - 1];
      Related(eqs[..|eqs| - 1], codes) + (if e.sourceCode in codes || e.targetCode in codes then [e] else [])
  }

  /** Filtering the rows to the plan's subjects, as the source's query does, changes nothing in the lookup. */
  lemma {:induction false} LookupIgnoresUnrelated(eqs: seq<Equivalence>, codes: set<string>)
    ensures BuildLookup(Related(eqs, codes), codes) == BuildLookup(eqs, codes)
  {
    if |eqs| > 0 {
      var n := |eqs| - 1;
      LookupIgnoresUnrelated(eqs[..n], codes);
      var e := eqs[n];
      if e.sourceCode in codes || e.targetCode in codes {
        var rel := Related(eqs[..n], codes);
        assert Related(eqs, codes) == rel + [e];
        assert (rel + [e])[..|rel + [e]| - 1] == rel;
      } else {
        assert Related(eqs, codes) == Related(eqs[..n], codes);
      }
    }
  }

  /** The comparator never reads an equivalence's career: rows that agree on codes give the same lookup. */
  lemma {:induction false} LookupIgnoresCareer(eqs: seq<Equivalence>, other: seq<Equivalence>, codes: set<string>)
    requires |eqs| == |other|
    requires forall i :: 0 <= i < |eqs| ==>
               eqs[i].sourceCode == other[i].sourceCode && eqs[i].targetCode == other[i].targetCode
    ensures BuildLookup(eqs, codes) == BuildLookup(other, codes)
  {
    if |eqs| > 0 {
      var n := |eqs| - 1;
      LookupIgnoresCareer(eqs[..n], other[..n], codes);
    }
  }

  // ---------------------------------------------------------------------------------------
  // Approval of one plan subject
  // ---------------------------------------------------------------------------------------

  /** The approved-code set: every history code, trimmed, whatever its status. */
  function ApprovedCodes(history: seq<SubjectInput>): (r: set<string>)
    ensures forall c :: c in r <==> exists i :: 0 <= i < |history| && TrimSpace(history[i].code) == c
  {
    set i | 0 <= i < |history| :: TrimSpace(history[i].code)
  }

  /** The first code of the list that is approved. */
  function FirstApproved(codes: seq<string>, approved: set<string>): (r: Option<string>)
    ensures r.None? <==> forall i :: 0 <= i < |codes| ==> codes[i] !in approved
    ensures r.Some? ==>
              exists i :: 0 <= i < |codes| && codes[i] == r.value && r.value in approved &&
                          forall j :: 0 <= j < i ==> codes[j] !in approved
  {
    if |codes| == 0 then None
    else if codes[0] in approved then Some(codes[0])
    else
      var r := FirstApproved(codes[1..], approved);
      assert r.Some? ==> exists i :: 0 < i < |codes| && codes[i] == r.value && r.value in approved &&
                                     forall j :: 0 <= j < i ==> codes[j] !in approved by {
        if r.Some? {
          var k :| 0 <= k < |codes[1..]| && codes[1..][k] == r.value && r.value in approved &&
                   forall j :: 0 <= j < k ==> codes[1..][j] !in approved;
          assert codes[k + 1] == r.value;
          assert forall j :: 0 <= j < k + 1 ==> codes[j] !in approved by {
            forall j | 0 <= j < k + 1 ensures codes[j] !in approved {
              if j > 0 { assert codes[j] == codes[1..][j - 1]; }
            }
          }
        }
      }
      r
  }

  /** How a plan subject is approved, if it is. */
  datatype Approval = Pending | Direct | ViaEquivalence(code: string)

  /** A direct match wins; otherwise the first approved code in the subject's lookup list. */
  function Decide(s: Subject, lookup: map<string, seq<string>>, approved: set<string>): Approval {
    if s.code in approved then Direct
    else if s.code in lookup then
      match FirstApproved(lookup[s.code], approved)
      case Some(c) => ViaEquivalence(c)
      case None => Pending
    else Pending
  }

  /**
   A subject is approved directly exactly when its own code is approved; otherwise through the
   first approved code of its lookup list, if any; otherwise it is pending.
   */
  lemma DecideMeaning(s: Subject, lookup: map<string, seq<string>>, approved: set<string>)
    ensures var a := Decide(s, lookup, approved);
            && (a == Direct <==> s.code in approved)
            && (a.ViaEquivalence? ==>
                  s.code !in approved && s.code in lookup &&
                  exists i :: 0 <= i < |lookup[s.code]| && lookup[s.code][i] == a.code && a.code in approved &&
                              forall j :: 0 <= j < i ==> lookup[s.code][j] !in approved)
            && (a == Pending <==>
                  s.code !in approved &&
                  (s.code !in lookup || forall i :: 0 <= i < |lookup[s.code]| ==> lookup[s.code][i] !in approved))
  {
  }

  /** The result row of one plan subject. */
  function ResultFor(s: Subject, a: Approval): (r: SubjectResult)
    ensures r.code == s.code && r.name == s.name && r.credits == s.credits && r.tipologia == s.tipologia
    ensures r.status == (if a == Pending then "PENDIENTE" else "APROBADA")
    ensures r.equivalence.Some? <==> a.ViaEquivalence?
    ensures a.ViaEquivalence? ==>
              r.equivalence == Some(EquivalenceResult("total", "Aprobada por equivalencia con " + a.code))
  {
    var equivalence := match a
      case ViaEquivalence(c) => Some(EquivalenceResult("total", "Aprobada por equivalencia con " + c))
      case _ => None;
    SubjectResult(s.code, s.name, s.credits, s.tipologia,
                  if a == Pending then "PENDIENTE" else "APROBADA", equivalence)
  }

  /**
   A plan subject is approved exactly when its code is a trimmed history code or some
   equivalence links it to a trimmed history code.
   */
  lemma ApprovalMeaning(s: Subject, plan: seq<Subject>, eqs: seq<Equivalence>, history: seq<SubjectInput>)
    requires s in plan
    ensures var approved := ApprovedCodes(history);
            Decide(s, BuildLookup(eqs, PlanCodes(plan)), approved) != Pending <==>
              s.code in approved ||
              exists i, x :: 0 <= i < |eqs| && Links(eqs[i], s.code, x) && x in approved
  {
    var codes := PlanCodes(plan);
    var approved := ApprovedCodes(history);
    var m := BuildLookup(eqs, codes);
    LookupIsPartners(eqs, codes, s.code);
    DecideMeaning(s, m, approved);
    if s.code !in approved {
      if exists i, x :: 0 <= i < |eqs| && Links(eqs[i], s.code, x) && x in approved {
        var i, x :| 0 <= i < |eqs| && Links(eqs[i], s.code, x) && x in approved;
        PartnersMembership(eqs, s.code, x);
        assert x in m[s.code];
      }
      if Decide(s, m, approved) != Pending {
        var k :| 0 <= k < |m[s.code]| && m[s.code][k] in approved;
        PartnersMembership(eqs, s.code, m[s.code][k]);
      }
    }
  }

  // ---------------------------------------------------------------------------------------
  // The loop over the plan's subjects
  // ---------------------------------------------------------------------------------------

  /** The loop state: the two result lists and the credits added per `Type` string. */
  datatype Tally = Tally(equivalent: seq<SubjectResult>, missing: seq<SubjectResult>, buckets: map<string, int>)

  /** `creditsByType` before the loop: the five literal keys at zero. */
  function InitialBuckets(): map<string, int> {
    map["fund.obligatoria" := 0, "fund.optativa" := 0, "dis.obligatoria" := 0, "dis.optativa" := 0, "libre" := 0]
  }

  /** Go's map read: a missing key reads as zero. */
  function Bucket(m: map<string, int>, k: string): int {
    if k in m then m[k] else 0
  }

  /** One iteration of the loop: the row goes to the list its approval selects; approved credits go to the bucket of its `Type`. */
  function Step(t: Tally, s: Subject, a: Approval): Tally {
    if a != Pending then
      Tally(t.equivalent + [ResultFor(s, a)], t.missing, t.buckets[s.tipologia := Bucket(t.buckets, s.tipologia) + s.credits])
    else
      Tally(t.equivalent, t.missing + [ResultFor(s, a)], t.buckets)
  }

  /** The loop over plan subjects, one subject at a time in plan order. */
  function Scan(subjects: seq<Subject>, lookup: map<string, seq<string>>, approved: set<string>): Tally {
    if |subjects| == 0 then Tally([], [], InitialBuckets())
    else
      var s := subjects[|subjects| - 1];
      Step(Scan(subjects[..|subjects| - 1], lookup, approved), s, Decide(s, lookup, approved))
  }

  /** Reference: the result row of every plan subject, in plan order. */
  function Results(subjects: seq<Subject>, lookup: map<string, seq<string>>, approved: set<string>): seq<SubjectResult> {
    seq(|subjects|, i requires 0 <= i < |subjects| => ResultFor(subjects[i], Decide(subjects[i], lookup, approved)))
  }

  /** The rows with a given status, in order. */
  function WithStatus(rs: seq<SubjectResult>, status: string): seq<SubjectResult> {
    if |rs| == 0 then []
    else WithStatus(rs[..|rs| - 1], status) + (if rs[|rs| - 1].status == status then [rs[|rs| - 1]] else [])
  }

  /** Sum of the credits of the rows whose `Type` string is exactly `key`. */
  function CreditsWithType(rs: seq<SubjectResult>, key: string): int {
    if |rs| == 0 then 0
    else CreditsWithType(rs[..|rs| - 1], key) + (if rs[|rs| - 1].tipologia == key then rs[|rs| - 1].credits else 0)
  }

  /** The loop splits the result rows by status, each list in plan order. */
  lemma ScanLists(subjects: seq<Subject>, lookup: map<string, seq<string>>, approved: set<string>)
    ensures var t := Scan(subjects, lookup, approved);
            var rs := Results(subjects, lookup, approved);
            t.equivalent == WithStatus(rs, "APROBADA") && t.missing == WithStatus(rs, "PENDIENTE")
  {
    ScanEquivalent(subjects, lookup, approved);
    ScanMissing(subjects, lookup, approved);
  }

  /** The last subject's row closes the result list of a non-empty plan. */
  lemma ResultsSnoc(subjects: seq<Subject>, lookup: map<string, seq<string>>, approved: set<string>)
    requires |subjects| > 0
    ensures var n := |subjects| - 1;
            var rs := Results(subjects, lookup, approved);
            && rs[..n] == Results(subjects[..n], lookup, approved)
            && rs[n] == ResultFor(subjects[n], Decide(subjects[n], lookup, approved))
  {
  }

  lemma {:induction false} ScanEquivalent(subjects: seq<Subject>, lookup: map<string, seq<string>>, approved: set<string>)
    ensures Scan(subjects, lookup, approved).equivalent == WithStatus(Results(subjects, lookup, approved), "APROBADA")
  {
    if |subjects| > 0 {
      var n := |subjects| - 1;
      ScanEquivalent(subjects[..n], lookup, approved);
      ResultsSnoc(subjects, lookup, approved);
    }
  }

  lemma {:induction false} ScanMissing(subjects: seq<Subject>, lookup: map<string, seq<string>>, approved: set<string>)
    ensures Scan(subjects, lookup, approved).missing == WithStatus(Results(subjects, lookup, approved), "PENDIENTE")
  {
    if |subjects| > 0 {
      var n := |subjects| - 1;
      ScanMissing(subjects[..n], lookup, approved);
      ResultsSnoc(subjects, lookup, approved);
    }
  }


  /**
   Each bucket holds the credits of the approved rows whose `Type` string equals its key, and
   the five literal keys are always present.
   */
  lemma {:induction false} ScanBuckets(subjects: seq<Subject>, lookup: map<string, seq<string>>, approved: set<string>)
    ensures forall k :: k in InitialBuckets() ==> k in Scan(subjects, lookup, approved).buckets
    ensures forall k :: Bucket(Scan(subjects, lookup, approved).buckets, k) ==
                        CreditsWithType(Scan(subjects, lookup, approved).equivalent, k)
  {
    if |subjects| > 0 {
      var n := |subjects| - 1;
      ScanBuckets(subjects[..n], lookup, approved);
      var t := Scan(subjects[..n], lookup, approved);
      var s := subjects[n];
      var a := Decide(s, lookup, approved);
      if a != Pending {
        var eq := t.equivalent + [ResultFor(s, a)];
        assert eq[..|eq| - 1] == t.equivalent;
        var b := t.buckets[s.tipologia := Bucket(t.buckets, s.tipologia) + s.credits];
        forall k ensures Bucket(b, k) == CreditsWithType(eq, k) {
          assert CreditsWithType(eq, k) == CreditsWithType(t.equivalent, k) + (if s.tipologia == k then s.credits else 0);
          assert Bucket(t.buckets, k) == CreditsWithType(t.equivalent, k);
          if k == s.tipologia {
            assert Bucket(b, k) == Bucket(t.buckets, k) + s.credits;
          } else {
            assert Bucket(b, k) == Bucket(t.buckets, k);
          }
        }
      }
    }
  }

  /** `max(0, x)`: the clamp applied to every missing value. */
  function Clamp(x: int): (r: int)
    ensures r >= 0 && r >= x && (r == 0 || r == x)
  {
    if x < 0 then 0 else x
  }

  function Row(required: int, completed: int): CreditTypeInfo {
    CreditTypeInfo(required, completed, Clamp(required - completed))
  }

  /** Every row's missing value is the shortfall, never below zero. */
  predicate RowClamped(row: CreditTypeInfo) {
    row.missing >= 0 && row.missing >= row.required - row.completed &&
    (row.missing == 0 || row.missing == row.required - row.completed)
  }

  /** The credit summary: each row pairs a target with a bucket read under the row's literal key. */
  function SummaryOf(plan: StudyPlan, buckets: map<string, int>): (c: CreditsSummary)
    ensures && c.fundObligatoria.required == plan.fundObligatoriaCredits
            && c.fundOptativa.required == plan.fundOptativaCredits
            && c.disObligatoria.required == plan.disObligatoriaCredits
            && c.disOptativa.required == plan.disOptativaCredits
            && c.libre.required == plan.libreCredits
            && c.total.required == plan.totalCredits
    ensures && c.fundObligatoria.completed == Bucket(buckets, "fund.obligatoria")
            && c.fundOptativa.completed == Bucket(buckets, "fund.optativa")
            && c.disObligatoria.completed == Bucket(buckets, "dis.obligatoria")
            && c.disOptativa.completed == Bucket(buckets, "dis.optativa")
            && c.libre.completed == Bucket(buckets, "libre")
            && c.total.completed == c.fundObligatoria.completed + c.fundOptativa.completed
                                    + c.disObligatoria.completed + c.disOptativa.completed + c.libre.completed
    ensures && RowClamped(c.fundObligatoria) && RowClamped(c.fundOptativa) && RowClamped(c.disObligatoria)
            && RowClamped(c.disOptativa) && RowClamped(c.libre) && RowClamped(c.total)
  {
    var fundObl := Bucket(buckets, "fund.obligatoria");
    var fundOpt := Bucket(buckets, "fund.optativa");
    var disObl := Bucket(buckets, "dis.obligatoria");
    var disOpt := Bucket(buckets, "dis.optativa");
    var libre := Bucket(buckets, "libre");
    CreditsSummary(
      Row(plan.fundObligatoriaCredits, fundObl),
      Row(plan.fundOptativaCredits, fundOpt),
      Row(plan.disObligatoriaCredits, disObl),
      Row(plan.disOptativaCredits, disOpt),
      Row(plan.libreCredits, libre),
      Row(plan.totalCredits, fundObl + fundOpt + disObl + disOpt + libre))
  }

  /**
   The pure body of `CompareAcademicHistoryWithStudyPlan`. Each Completed value is the credit
   sum of the approved rows whose `Type` string equals the row's literal key, the Total row
   requires the plan's total, every Missing value is clamped at zero, and the two top-level
   credit fields are never set.
   */
  function Compare(plan: StudyPlan, eqs: seq<Equivalence>, history: seq<SubjectInput>): (r: ComparisonResult)
    ensures r.totalCredits == 0 && r.missingCredits == 0
    ensures var c := r.creditsSummary;
            && c.fundObligatoria.required == plan.fundObligatoriaCredits
            && c.fundOptativa.required == plan.fundOptativaCredits
            && c.disObligatoria.required == plan.disObligatoriaCredits
            && c.disOptativa.required == plan.disOptativaCredits
            && c.libre.required == plan.libreCredits
            && c.total.required == plan.totalCredits
    ensures var c := r.creditsSummary;
            && c.fundObligatoria.completed == CreditsWithType(r.equivalentSubjects, "fund.obligatoria")
            && c.fundOptativa.completed == CreditsWithType(r.equivalentSubjects, "fund.optativa")
            && c.disObligatoria.completed == CreditsWithType(r.equivalentSubjects, "dis.obligatoria")
            && c.disOptativa.completed == CreditsWithType(r.equivalentSubjects, "dis.optativa")
            && c.libre.completed == CreditsWithType(r.equivalentSubjects, "libre")
            && c.total.completed == c.fundObligatoria.completed + c.fundOptativa.completed
                                    + c.disObligatoria.completed + c.disOptativa.completed + c.libre.completed
    ensures var c := r.creditsSummary;
            && RowClamped(c.fundObligatoria) && RowClamped(c.fundOptativa) && RowClamped(c.disObligatoria)
            && RowClamped(c.disOptativa) && RowClamped(c.libre) && RowClamped(c.total)
  {
    var lookup := BuildLookup(eqs, PlanCodes(plan.subjects));
    var approved := ApprovedCodes(history);
    var t := Scan(plan.subjects, lookup, approved);
    ScanBuckets(plan.subjects, lookup, approved);
    ComparisonResult(t.equivalent, t.missing, 0, 0, SummaryOf(plan, t.buckets))
  }

  /** The rows kept by `WithStatus` carry that status and come from the input. */
  lemma {:induction false} WithStatusMembers(rs: seq<SubjectResult>, status: string)
    ensures forall x :: x in WithStatus(rs, status) ==> x in rs && x.status == status
  {
    if |rs| > 0 {
      WithStatusMembers(rs[..|rs| - 1], status);
      assert forall x :: x in rs[..|rs| - 1] ==> x in rs;
    }
  }

  /** When every row is approved or pending, the two status lists together are as long as the rows. */
  lemma {:induction false} StatusSplitSizes(rs: seq<SubjectResult>)
    requires forall i :: 0 <= i < |rs| ==> rs[i].status == "APROBADA" || rs[i].status == "PENDIENTE"
    ensures |WithStatus(rs, "APROBADA")| + |WithStatus(rs, "PENDIENTE")| == |rs|
  {
    if |rs| > 0 {
      StatusSplitSizes(rs[..|rs| - 1]);
    }
  }

  /**
   Every plan subject appears exactly once: the approved rows and the pending rows are the
   plan's rows, in plan order, split by status, and each row describes its plan subject.
   */
  lemma ComparePartition(plan: StudyPlan, eqs: seq<Equivalence>, history: seq<SubjectInput>)
    ensures var r := Compare(plan, eqs, history);
            var rs := Results(plan.subjects, BuildLookup(eqs, PlanCodes(plan.subjects)), ApprovedCodes(history));
            && r.equivalentSubjects == WithStatus(rs, "APROBADA")
            && r.missingSubjects == WithStatus(rs, "PENDIENTE")
            && (forall i :: 0 <= i < |rs| ==>
                  rs[i].code == plan.subjects[i].code && rs[i].name == plan.subjects[i].name &&
                  rs[i].credits == plan.subjects[i].credits && rs[i].tipologia == plan.subjects[i].tipologia)
  {
    ScanLists(plan.subjects, BuildLookup(eqs, PlanCodes(plan.subjects)), ApprovedCodes(history));
  }

  /**
   The approved and pending lists together hold one row per plan subject, approved rows
   marked "APROBADA" and pending rows "PENDIENTE".
   */
  lemma CompareSplitsPlan(plan: StudyPlan, eqs: seq<Equivalence>, history: seq<SubjectInput>)
    ensures var r := Compare(plan, eqs, history);
            && |r.equivalentSubjects| + |r.missingSubjects| == |plan.subjects|
            && (forall x :: x in r.equivalentSubjects ==> x.status == "APROBADA")
            && (forall x :: x in r.missingSubjects ==> x.status == "PENDIENTE")
  {
    var lookup := BuildLookup(eqs, PlanCodes(plan.subjects));
    var rs := Results(plan.subjects, lookup, ApprovedCodes(history));
    var r := Compare(plan, eqs, history);
    ScanLists(plan.subjects, lookup, ApprovedCodes(history));
    ResultsStatuses(plan.subjects, lookup, ApprovedCodes(history));
    StatusListsSplit(rs, r.equivalentSubjects, r.missingSubjects);
  }

  /** One row per subject, each approved or pending. */
  lemma ResultsStatuses(subjects: seq<Subject>, lookup: map<string, seq<string>>, approved: set<string>)
    ensures var rs := Results(subjects, lookup, approved);
            && |rs| == |subjects|
            && forall i :: 0 <= i < |rs| ==> rs[i].status == "APROBADA" || rs[i].status == "PENDIENTE"
  {
  }

  /** The two status lists of rows that are all approved or pending partition them. */
  lemma StatusListsSplit(rs: seq<SubjectResult>, equivalent: seq<SubjectResult>, missing: seq<SubjectResult>)
    requires forall i :: 0 <= i < |rs| ==> rs[i].status == "APROBADA" || rs[i].status == "PENDIENTE"
    requires equivalent == WithStatus(rs, "APROBADA") && missing == WithStatus(rs, "PENDIENTE")
    ensures |equivalent| + |missing| == |rs|
    ensures forall x :: x in equivalent ==> x.status == "APROBADA"
    ensures forall x :: x in missing ==> x.status == "PENDIENTE"
  {
    StatusSplitSizes(rs);
    WithStatusMembers(rs, "APROBADA");
    WithStatusMembers(rs, "PENDIENTE");
  }

  /** A row's type string that no row carries contributes nothing. */
  lemma {:induction false} CreditsWithAbsentType(rs: seq<SubjectResult>, key: string)
    requires forall x :: x in rs ==> x.tipologia != key
    ensures CreditsWithType(rs, key) == 0
  {
    if |rs| > 0 {
      assert rs[|rs| - 1] in rs;
      assert forall x :: x in rs[..|rs| - 1] ==> x in rs;
      CreditsWithAbsentType(rs[..|rs| - 1], key);
    }
  }

  /** Every approved row describes some plan subject. */
  lemma ApprovedRowsFromPlan(plan: StudyPlan, eqs: seq<Equivalence>, history: seq<SubjectInput>)
    ensures forall x :: x in Compare(plan, eqs, history).equivalentSubjects ==>
              exists i :: 0 <= i < |plan.subjects| &&
                          x.code == plan.subjects[i].code && x.tipologia == plan.subjects[i].tipologia &&
                          x.credits == plan.subjects[i].credits
  {
    var lookup := BuildLookup(eqs, PlanCodes(plan.subjects));
    var rs := Results(plan.subjects, lookup, ApprovedCodes(history));
    ScanLists(plan.subjects, lookup, ApprovedCodes(history));
    WithStatusMembers(rs, "APROBADA");
    RowsDescribeSubjects(plan.subjects, rs, lookup, ApprovedCodes(history));
  }

  /** Every result row carries the code, type and credits of the plan subject it stands for. */
  lemma RowsDescribeSubjects(subjects: seq<Subject>, rs: seq<SubjectResult>,
                             lookup: map<string, seq<string>>, approved: set<string>)
    requires rs == Results(subjects, lookup, approved)
    ensures forall x :: x in rs ==>
              exists i :: 0 <= i < |subjects| &&
                          x.code == subjects[i].code && x.tipologia == subjects[i].tipologia &&
                          x.credits == subjects[i].credits
  {
    forall x | x in rs
      ensures exists i :: 0 <= i < |subjects| &&
                          x.code == subjects[i].code && x.tipologia == subjects[i].tipologia &&
                          x.credits == subjects[i].credits
    {
      var i :| 0 <= i < |rs| && rs[i] == x;
      assert rs[i] == ResultFor(subjects[i], Decide(subjects[i], lookup, approved));
    }
  }


  /** No valid tipología label is one of the comparator's bucket keys. */
  lemma LabelIsNoBucketKey(tipo: string)
    requires ValidarTipologia(tipo)
    ensures tipo !in InitialBuckets()
  {
  }

  /**
   When no plan subject's type is one of the five literal keys, every Completed value is zero
   and every Missing value is the clamped target.
   */
  lemma UnkeyedRowsEarnNothing(plan: StudyPlan, eqs: seq<Equivalence>, history: seq<SubjectInput>)
    requires forall s :: s in plan.subjects ==> s.tipologia !in InitialBuckets()
    ensures var c := Compare(plan, eqs, history).creditsSummary;
            && c.fundObligatoria == CreditTypeInfo(plan.fundObligatoriaCredits, 0, Clamp(plan.fundObligatoriaCredits))
            && c.fundOptativa == CreditTypeInfo(plan.fundOptativaCredits, 0, Clamp(plan.fundOptativaCredits))
            && c.disObligatoria == CreditTypeInfo(plan.disObligatoriaCredits, 0, Clamp(plan.disObligatoriaCredits))
            && c.disOptativa == CreditTypeInfo(plan.disOptativaCredits, 0, Clamp(plan.disOptativaCredits))
            && c.libre == CreditTypeInfo(plan.libreCredits, 0, Clamp(plan.libreCredits))
            && c.total == CreditTypeInfo(plan.totalCredits, 0, Clamp(plan.totalCredits))
  {
    var eq := Compare(plan, eqs, history).equivalentSubjects;
    ApprovedRowsFromPlan(plan, eqs, history);
    forall x | x in eq
      ensures x.tipologia !in InitialBuckets()
    {
      var i :| 0 <= i < |plan.subjects| && x.tipologia == plan.subjects[i].tipologia;
      assert plan.subjects[i] in plan.subjects;
    }
    CreditsWithAbsentType(eq, "fund.obligatoria");
    CreditsWithAbsentType(eq, "fund.optativa");
    CreditsWithAbsentType(eq, "dis.obligatoria");
    CreditsWithAbsentType(eq, "dis.optativa");
    CreditsWithAbsentType(eq, "libre");
  }

  /**
   When every plan subject's type passes `ValidarTipologia`, no bucket key ever matches, so
   every Completed value, the total included, is zero.
   */
  lemma ValidTypesEarnNothing(plan: StudyPlan, eqs: seq<Equivalence>, history: seq<SubjectInput>)
    requires forall s :: s in plan.subjects ==> ValidarTipologia(s.tipologia)
    ensures var c := Compare(plan, eqs, history).creditsSummary;
            c.fundObligatoria.completed == 0 && c.fundOptativa.completed == 0 &&
            c.disObligatoria.completed == 0 && c.disOptativa.completed == 0 &&
            c.libre.completed == 0 && c.total.completed == 0
  {
    forall s | s in plan.subjects
      ensures s.tipologia !in InitialBuckets()
    {
      LabelIsNoBucketKey(s.tipologia);
    }
    UnkeyedRowsEarnNothing(plan, eqs, history);
  }

  /** The comparison does not depend on the careers of the equivalence rows. */
  lemma CompareIgnoresEquivalenceCareer(plan: StudyPlan, eqs: seq<Equivalence>, other: seq<Equivalence>, history: seq<SubjectInput>)
    requires |eqs| == |other|
    requires forall i :: 0 <= i < |eqs| ==>
               eqs[i].sourceCode == other[i].sourceCode && eqs[i].targetCode == other[i].targetCode
    ensures Compare(plan, eqs, history) == Compare(plan, other, history)
  {
    LookupIgnoresCareer(eqs, other, PlanCodes(plan.subjects));
  }

  // ---------------------------------------------------------------------------------------
  // Entry points and the handlers' summary counts
  // ---------------------------------------------------------------------------------------

  /** `GetStudyPlanByCareerCode`: the active plan found for the career, or its error. */
  function StudyPlanByCareerCode(careerCode: string, found: Option<StudyPlan>): (r: Result<StudyPlan>)
    ensures r.Ok? <==> found.Some?
    ensures r.Ok? ==> r.value == found.value
    ensures r.Err? ==> r.message == "plan de estudio activo no encontrado para la carrera: " + careerCode
  {
    match found
    case None => Err("plan de estudio activo no encontrado para la carrera: " + careerCode)
    case Some(p) => Ok(p)
  }

  /** `CompareAcademicHistoryWithStudyPlan`: fails only when the plan id matches no plan. */
  function CompareWithStudyPlan(planById: Option<StudyPlan>, eqs: seq<Equivalence>, history: seq<SubjectInput>)
    : (r: Result<ComparisonResult>)
    ensures r.Err? <==> planById.None?
    ensures r.Err? ==> r.message == "plan de estudio no encontrado"
    ensures r.Ok? ==> |r.value.equivalentSubjects| + |r.value.missingSubjects| == |planById.value.subjects|
  {
    match planById
    case None => Err("plan de estudio no encontrado")
    case Some(plan) =>
      CompareSplitsPlan(plan, eqs, history);
      Ok(Compare(plan, eqs, history))
  }

  /** `CompareAcademicHistoryByCareerCode`: the active-plan lookup's error passes through unchanged. */
  function CompareByCareerCode(careerCode: string, activePlan: Option<StudyPlan>, eqs: seq<Equivalence>, history: seq<SubjectInput>)
    : (r: Result<ComparisonResult>)
    ensures r.Err? <==> activePlan.None?
    ensures r.Err? ==> r.message == "plan de estudio activo no encontrado para la carrera: " + careerCode
    ensures r.Ok? ==> |r.value.equivalentSubjects| + |r.value.missingSubjects| == |activePlan.value.subjects|
  {
    match StudyPlanByCareerCode(careerCode, activePlan)
    case Err(m) => Err(m)
    case Ok(plan) => CompareWithStudyPlan(Some(plan), eqs, history)
  }

  /** The counts the comparison handlers report next to the result. */
  datatype CompareSummary = CompareSummary(totalSubjectsInPlan: nat, approvedSubjects: nat, missingSubjects: nat)

  function Summary(r: ComparisonResult): (s: CompareSummary)
    ensures s.totalSubjectsInPlan == s.approvedSubjects + s.missingSubjects
  {
    CompareSummary(|r.equivalentSubjects| + |r.missingSubjects|, |r.equivalentSubjects|, |r.missingSubjects|)
  }

  /** The reported `total_subjects_in_plan` is the number of subjects of the plan. */
  lemma SummaryCountsPlan(plan: StudyPlan, eqs: seq<Equivalence>, history: seq<SubjectInput>)
    ensures Summary(Compare(plan, eqs, history)).totalSubjectsInPlan == |plan.subjects|
  {
    CompareSplitsPlan(plan, eqs, history);
  }

  /** On a plan `NewStudyPlan` created, the Total row requires exactly the five rows' requirements. */
  lemma NewPlanTotalRequired(
    careerId: nat, version: string, careerExists: bool, versionTaken: bool,
    fundObl: int, fundOpt: int, disObl: int, disOpt: int, libre: int,
    eqs: seq<Equivalence>, history: seq<SubjectInput>)
    requires NewStudyPlan(careerId, version, careerExists, versionTaken, fundObl, fundOpt, disObl, disOpt, libre).Ok?
    ensures var plan := NewStudyPlan(careerId, version, careerExists, versionTaken, fundObl, fundOpt, disObl, disOpt, libre).value;
            var c := Compare(plan, eqs, history).creditsSummary;
            c.total.required == c.fundObligatoria.required + c.fundOptativa.required + c.disObligatoria.required
                                + c.disOptativa.required + c.libre.required
  {
  }

  // ---------------------------------------------------------------------------------------
  // The bucket keys, as written and as intended
  // ---------------------------------------------------------------------------------------

  /** An example: the plan, equivalence and history of one FUND. OBLIGATORIA subject approved through an equivalence. */
  function ExamplePlan(): StudyPlan {
    StudyPlan(1, "2023-1", true, [Subject("1000001", "Cálculo diferencial", 4, "FUND. OBLIGATORIA")], 4, 4, 0, 0, 0, 0)
  }

  function ExampleEquivalences(): seq<Equivalence> {
    [Equivalence("1000099", "1000001", "total", "", 1)]
  }

  function ExampleHistory(): seq<SubjectInput> {
    [SubjectInput("1000099", "Cálculo", 4, "FUND. OBLIGATORIA", Decimal("4.5"), "APROBADA", "2020-1S")]
  }

  /** The example's lookup lists the equivalence's source for the plan subject. */
  lemma ExampleLookup()
    ensures BuildLookup(ExampleEquivalences(), PlanCodes(ExamplePlan().subjects)) == map["1000001" := ["1000099"]]
  {
    var eqs := ExampleEquivalences();
    var codes := PlanCodes(ExamplePlan().subjects);
    assert ExamplePlan().subjects[0] in ExamplePlan().subjects;
    assert codes == {"1000001"};
    assert eqs[..0] == [];
    var empty: map<string, seq<string>> := map[];
    assert BuildLookup(eqs[..0], codes) == empty;
    assert [] + ["1000099"] == ["1000099"];
    assert AddEquivalence(empty, eqs[0], codes) == AppendTo(empty, "1000001", "1000099");
  }

  lemma ExampleApproved()
    ensures ApprovedCodes(ExampleHistory()) == {"1000099"}
  {
    var h := ExampleHistory();
    assert Trimmed(h[0].code);
    assert TrimSpace(h[0].code) == "1000099";
  }

  /** The example's only subject is approved through the equivalence. */
  lemma ExampleScan()
    ensures var t := Scan(ExamplePlan().subjects, map["1000001" := ["1000099"]], {"1000099"});
            t.equivalent == [ExampleRow()] && t.missing == []
  {
    var subjects := ExamplePlan().subjects;
    var lookup := map["1000001" := ["1000099"]];
    var approved := {"1000099"};
    assert subjects[..0] == [];
    assert FirstApproved(["1000099"], approved) == Some("1000099");
    assert Decide(subjects[0], lookup, approved) == ViaEquivalence("1000099");
    assert "Aprobada por equivalencia con " + "1000099" == "Aprobada por equivalencia con 1000099";
    assert ResultFor(subjects[0], ViaEquivalence("1000099")) == ExampleRow();
    assert [] + [ExampleRow()] == [ExampleRow()];
  }

  /** The row the example's subject gets. */
  function ExampleRow(): SubjectResult {
    SubjectResult("1000001", "Cálculo diferencial", 4, "FUND. OBLIGATORIA", "APROBADA",
                  Some(EquivalenceResult("total", "Aprobada por equivalencia con 1000099")))
  }

  /**
   As written: the subject is approved through the equivalence, yet its 4 credits reach no row,
   because the credits go to the bucket "FUND. OBLIGATORIA" while the row reads "fund.obligatoria".
   */
  lemma BucketKeyMismatchExample()
    ensures var r := Compare(ExamplePlan(), ExampleEquivalences(), ExampleHistory());
            && r.equivalentSubjects == [ExampleRow()]
            && r.missingSubjects == []
            && r.creditsSummary.fundObligatoria == CreditTypeInfo(4, 0, 4)
            && r.creditsSummary.total == CreditTypeInfo(4, 0, 4)
  {
    ExampleLists();
    ExampleSummary(ExamplePlan(), ExampleEquivalences(), ExampleHistory());
  }

  /** The summary of any comparison whose only approved row is the example's, against a 4-credit target. */
  lemma ExampleSummary(plan: StudyPlan, eqs: seq<Equivalence>, history: seq<SubjectInput>)
    requires Compare(plan, eqs, history).equivalentSubjects == [ExampleRow()]
    requires plan.fundObligatoriaCredits == 4 && plan.totalCredits == 4
    ensures var c := Compare(plan, eqs, history).creditsSummary;
            c.fundObligatoria == CreditTypeInfo(4, 0, 4) && c.total == CreditTypeInfo(4, 0, 4)
  {
    ExampleEarnsNothing(plan, eqs, history);
    RowsFromNothingEarned(plan, eqs, history);
  }

  lemma ExampleEarnsNothing(plan: StudyPlan, eqs: seq<Equivalence>, history: seq<SubjectInput>)
    requires Compare(plan, eqs, history).equivalentSubjects == [ExampleRow()]
    ensures var c := Compare(plan, eqs, history).creditsSummary;
            c.fundObligatoria.completed == 0 && c.total.completed == 0
  {
    ExampleRowUnkeyed();
  }

  lemma RowsFromNothingEarned(plan: StudyPlan, eqs: seq<Equivalence>, history: seq<SubjectInput>)
    requires var c := Compare(plan, eqs, history).creditsSummary;
             c.fundObligatoria.completed == 0 && c.total.completed == 0
    ensures var c := Compare(plan, eqs, history).creditsSummary;
            && c.fundObligatoria == CreditTypeInfo(plan.fundObligatoriaCredits, 0, Clamp(plan.fundObligatoriaCredits))
            && c.total == CreditTypeInfo(plan.totalCredits, 0, Clamp(plan.totalCredits))
  {
  }

  lemma ExampleRowUnkeyed()
    ensures && CreditsWithType([ExampleRow()], "fund.obligatoria") == 0
            && CreditsWithType([ExampleRow()], "fund.optativa") == 0
            && CreditsWithType([ExampleRow()], "dis.obligatoria") == 0
            && CreditsWithType([ExampleRow()], "dis.optativa") == 0
            && CreditsWithType([ExampleRow()], "libre") == 0
  {
    assert [ExampleRow()][..0] == [];
  }

  lemma ExampleLists()
    ensures var r := Compare(ExamplePlan(), ExampleEquivalences(), ExampleHistory());
            r.equivalentSubjects == [ExampleRow()] && r.missingSubjects == []
  {
    ExampleLookup();
    ExampleApproved();
    ExampleScan();
  }

  /** The intended summary: each row reads the credits of approved rows carrying that row's tipología label. */
  function CorrectedSummary(plan: StudyPlan, approvedRows: seq<SubjectResult>): (c: CreditsSummary)
    ensures && c.fundObligatoria.completed == CreditsWithType(approvedRows, Label(FundObligatoria))
            && c.fundOptativa.completed == CreditsWithType(approvedRows, Label(FundOptativa))
            && c.disObligatoria.completed == CreditsWithType(approvedRows, Label(DisciplinarObligatoria))
            && c.disOptativa.completed == CreditsWithType(approvedRows, Label(DisciplinarOptativa))
            && c.libre.completed == CreditsWithType(approvedRows, Label(LibreEleccion))
    ensures c.total.required == plan.totalCredits
    ensures && RowClamped(c.fundObligatoria) && RowClamped(c.fundOptativa) && RowClamped(c.disObligatoria)
            && RowClamped(c.disOptativa) && RowClamped(c.libre) && RowClamped(c.total)
  {
    var fundObl := CreditsWithType(approvedRows, Label(FundObligatoria));
    var fundOpt := CreditsWithType(approvedRows, Label(FundOptativa));
    var disObl := CreditsWithType(approvedRows, Label(DisciplinarObligatoria));
    var disOpt := CreditsWithType(approvedRows, Label(DisciplinarOptativa));
    var libre := CreditsWithType(approvedRows, Label(LibreEleccion));
    CreditsSummary(
      Row(plan.fundObligatoriaCredits, fundObl),
      Row(plan.fundOptativaCredits, fundOpt),
      Row(plan.disObligatoriaCredits, disObl),
      Row(plan.disOptativaCredits, disOpt),
      Row(plan.libreCredits, libre),
      Row(plan.totalCredits, fundObl + fundOpt + disObl + disOpt + libre))
  }

  /** The comparison with the intended summary; the subject lists are unchanged. */
  function CorrectedCompare(plan: StudyPlan, eqs: seq<Equivalence>, history: seq<SubjectInput>): (r: ComparisonResult)
    ensures r.equivalentSubjects == Compare(plan, eqs, history).equivalentSubjects
    ensures r.missingSubjects == Compare(plan, eqs, history).missingSubjects
  {
    var r := Compare(plan, eqs, history);
    r.(creditsSummary := CorrectedSummary(plan, r.equivalentSubjects))
  }

  /** Sum of the credits of all rows. */
  function TotalCreditsOf(rs: seq<SubjectResult>): int {
    if |rs| == 0 then 0 else TotalCreditsOf(rs[..|rs| - 1]) + rs[|rs| - 1].credits
  }

  /** Sum of the credits of the rows whose type is not one of the six labels. */
  function UntypedCredits(rs: seq<SubjectResult>): int {
    if |rs| == 0 then 0
    else UntypedCredits(rs[..|rs| - 1]) + (if ValidarTipologia(rs[|rs| - 1].tipologia) then 0 else rs[|rs| - 1].credits)
  }

  /** The six labels and the untyped rest partition the credits: every credit lands in exactly one part. */
  lemma {:induction false} LabelsPartitionCredits(rs: seq<SubjectResult>)
    ensures CreditsWithType(rs, Label(FundObligatoria)) + CreditsWithType(rs, Label(FundOptativa))
            + CreditsWithType(rs, Label(DisciplinarObligatoria)) + CreditsWithType(rs, Label(DisciplinarOptativa))
            + CreditsWithType(rs, Label(LibreEleccion)) + CreditsWithType(rs, Label(TrabajoGrado))
            + UntypedCredits(rs) == TotalCreditsOf(rs)
  {
    if |rs| > 0 {
      LabelsPartitionCredits(rs[..|rs| - 1]);
    }
  }

  /**
   With the intended keys every approved credit is counted: the corrected Total's Completed plus
   the TRABAJO DE GRADO and untyped credits is the credit sum of all approved rows.
   */
  lemma CorrectedTotalCountsEveryCredit(plan: StudyPlan, eqs: seq<Equivalence>, history: seq<SubjectInput>)
    ensures var r := CorrectedCompare(plan, eqs, history);
            r.creditsSummary.total.completed
              + CreditsWithType(r.equivalentSubjects, Label(TrabajoGrado))
              + UntypedCredits(r.equivalentSubjects)
            == TotalCreditsOf(r.equivalentSubjects)
  {
    LabelsPartitionCredits(CorrectedCompare(plan, eqs, history).equivalentSubjects);
  }

  /** With the intended keys, the example credits the 4 FUND. OBLIGATORIA credits. */
  lemma CorrectedBucketExample()
    ensures var r := CorrectedCompare(ExamplePlan(), ExampleEquivalences(), ExampleHistory());
            && r.creditsSummary.fundObligatoria == CreditTypeInfo(4, 4, 0)
            && r.creditsSummary.total == CreditTypeInfo(4, 4, 0)
  {
    ExampleLists();
    ExampleCorrectedSummary();
  }

  lemma ExampleCorrectedSummary()
    ensures var c := CorrectedSummary(ExamplePlan(), [ExampleRow()]);
            c.fundObligatoria == CreditTypeInfo(4, 4, 0) && c.total == CreditTypeInfo(4, 4, 0)
  {
    var rows := [ExampleRow()];
    assert rows[..0] == [];
    assert CreditsWithType(rows, Label(FundObligatoria)) == 4;
    assert CreditsWithType(rows, Label(FundOptativa)) == 0;
    assert CreditsWithType(rows, Label(DisciplinarObligatoria)) == 0;
    assert CreditsWithType(rows, Label(DisciplinarOptativa)) == 0;
    assert CreditsWithType(rows, Label(LibreEleccion)) == 0;
  }
}
