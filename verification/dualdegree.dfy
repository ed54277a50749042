/**
 The dual-degree homologation: `CompareDobleTitulacionParsed` over two parsed histories, and
 `CompareDobleTitulacion`, the same comparison over histories read by the tab-delimited parser.
 A subject of the target plan is homologable when the origin history has it, directly or through
 an equivalence of the target career, and the dual-degree history does not.
 */
module DualDegree {
  import opened Common
  import opened Models
  import Comparator
  import TabParser
  import Text

  // ---------------------------------------------------------------------------
  // Go maps filled in list order
  // ---------------------------------------------------------------------------

  /** A Go map filled by `m[k] = v` for each pair in turn: the last pair with a key wins. */
  function Assoc<V>(pairs: seq<(string, V)>): map<string, V> {
    if |pairs| == 0 then map[]
    else Assoc(pairs[..|pairs| - 1])[pairs[|pairs| - 1].0 := pairs[|pairs| - 1].1]
  }

  /** The keys are exactly the keys of the pairs, and every entry comes from some pair. */
  lemma {:induction false} AssocKeys<V>(pairs: seq<(string, V)>)
    ensures forall k :: k in Assoc(pairs) <==> exists i :: 0 <= i < |pairs| && pairs[i].0 == k
    ensures forall k :: k in Assoc(pairs) ==> exists i :: 0 <= i < |pairs| && pairs[i] == (k, Assoc(pairs)[k])
  {
    if |pairs| > 0 {
      var n := |pairs| - 1;
      var init := pairs[..n];
      AssocKeys(init);
      forall k | k in Assoc(pairs)
        ensures exists i :: 0 <= i < |pairs| && pairs[i] == (k, Assoc(pairs)[k])
      {
        if k == pairs[n].0 {
          assert pairs[n] == (k, Assoc(pairs)[k]);
        } else {
          assert Assoc(pairs) == Assoc(init)[pairs[n].0 := pairs[n].1];
          assert k in Assoc(init) && Assoc(pairs)[k] == Assoc(init)[k];
          var i :| 0 <= i < |init| && init[i] == (k, Assoc(init)[k]);
          assert pairs[i] == init[i];
        }
      }
      forall k | exists i :: 0 <= i < |pairs| && pairs[i].0 == k
        ensures k in Assoc(pairs)
      {
        var i :| 0 <= i < |pairs| && pairs[i].0 == k;
        if i < n {
          assert init[i].0 == k;
        }
      }
    }
  }

  /** The value kept for a key is the one of its last pair. */
  lemma {:induction false} AssocLastWins<V>(pairs: seq<(string, V)>, i: nat)
    requires i < |pairs|
    requires forall j :: i < j < |pairs| ==> pairs[j].0 != pairs[i].0
    ensures pairs[i].0 in Assoc(pairs) && Assoc(pairs)[pairs[i].0] == pairs[i].1
  {
    var n := |pairs| - 1;
    if i < n {
      var init := pairs[..n];
      assert init[i] == pairs[i];
      AssocLastWins(init, i);
    }
  }

  /** `equivalenciaMap`: source code to target code, built from the rows in order. */
  function SourceToTarget(eqs: seq<Equivalence>): map<string, string> {
    Assoc(seq(|eqs|, i requires 0 <= i < |eqs| => (eqs[i].sourceCode, eqs[i].targetCode)))
  }

  /** `materiasCursadasOrigen` / `materiasCursadasDoble`: each code to its last record. */
  function ByCode(hs: seq<SubjectInput>): map<string, SubjectInput> {
    Assoc(seq(|hs|, i requires 0 <= i < |hs| => (hs[i].code, hs[i])))
  }

  /** Of several equivalences with one source, the last one's target is kept. */
  lemma SourceToTargetLastWins(eqs: seq<Equivalence>, i: nat)
    requires i < |eqs|
    requires forall j :: i < j < |eqs| ==> eqs[j].sourceCode != eqs[i].sourceCode
    ensures eqs[i].sourceCode in SourceToTarget(eqs)
    ensures SourceToTarget(eqs)[eqs[i].sourceCode] == eqs[i].targetCode
  {
    var pairs := seq(|eqs|, i requires 0 <= i < |eqs| => (eqs[i].sourceCode, eqs[i].targetCode));
    AssocLastWins(pairs, i);
  }

  /** Every source code has an entry, and every entry is the target of an equivalence with that source. */
  lemma SourceToTargetEntries(eqs: seq<Equivalence>)
    ensures forall k :: k in SourceToTarget(eqs) <==> exists i :: 0 <= i < |eqs| && eqs[i].sourceCode == k
    ensures forall k :: k in SourceToTarget(eqs) ==>
              exists i :: 0 <= i < |eqs| && eqs[i].sourceCode == k && eqs[i].targetCode == SourceToTarget(eqs)[k]
  {
    var pairs := seq(|eqs|, i requires 0 <= i < |eqs| => (eqs[i].sourceCode, eqs[i].targetCode));
    AssocKeys(pairs);
    forall k | k in SourceToTarget(eqs)
      ensures exists i :: 0 <= i < |eqs| && eqs[i].sourceCode == k && eqs[i].targetCode == SourceToTarget(eqs)[k]
    {
      var i :| 0 <= i < |pairs| && pairs[i] == (k, Assoc(pairs)[k]);
      assert eqs[i].sourceCode == k;
    }
    forall k | exists i :: 0 <= i < |eqs| && eqs[i].sourceCode == k
      ensures k in SourceToTarget(eqs)
    {
      var i :| 0 <= i < |eqs| && eqs[i].sourceCode == k;
      assert pairs[i].0 == k;
    }
  }

  /** Among several records with one code, the last one is kept; every entry is a record filed under its own code. */
  lemma ByCodeEntries(hs: seq<SubjectInput>)
    ensures forall k :: k in ByCode(hs) <==> exists i :: 0 <= i < |hs| && hs[i].code == k
    ensures forall k :: k in ByCode(hs) ==> ByCode(hs)[k].code == k && ByCode(hs)[k] in hs
    ensures forall i :: 0 <= i < |hs| && (forall j :: i < j < |hs| ==> hs[j].code != hs[i].code) ==>
              ByCode(hs)[hs[i].code] == hs[i]
  {
    var pairs := seq(|hs|, i requires 0 <= i < |hs| => (hs[i].code, hs[i]));
    AssocKeys(pairs);
    forall k | k in ByCode(hs)
      ensures ByCode(hs)[k].code == k && ByCode(hs)[k] in hs
    {
      var i :| 0 <= i < |pairs| && pairs[i] == (k, Assoc(pairs)[k]);
      assert hs[i] == ByCode(hs)[k];
    }
    forall k | exists i :: 0 <= i < |hs| && hs[i].code == k
      ensures k in ByCode(hs)
    {
      var i :| 0 <= i < |hs| && hs[i].code == k;
      assert pairs[i].0 == k;
    }
    forall i | 0 <= i < |hs| && (forall j :: i < j < |hs| ==> hs[j].code != hs[i].code)
      ensures ByCode(hs)[hs[i].code] == hs[i]
    {
      AssocLastWins(pairs, i);
    }
  }

  /** The equivalence query of the target career (`career_id = ?`), in stored order. */
  function ForCareer(eqs: seq<Equivalence>, careerId: nat): (r: seq<Equivalence>)
    ensures forall e :: e in r <==> e in eqs && e.careerId == careerId
  {
    if |eqs| == 0 then []
    else
      var n := |eqs| - 1;
      assert eqs == eqs[..n] + [eqs[n]];
      ForCareer(eqs[..n], careerId) + (if eqs[n].careerId == careerId then [eqs[n]] else [])
  }

  // ---------------------------------------------------------------------------
  // The per-subject decision
  // ---------------------------------------------------------------------------

  /**
   The equivalence loop over `equivalenciaMap`, visiting its keys in `order` (Go leaves the order
   unspecified): the first source that maps to `target` and has an origin record.
   */
  function FirstSource(order: seq<string>, m: map<string, string>, target: string, origin: map<string, SubjectInput>)
    : (r: Option<string>)
    ensures r.Some? ==> r.value in order && r.value in m && m[r.value] == target && r.value in origin
    ensures r.None? ==> forall k :: k in order && k in m && m[k] == target ==> k !in origin
  {
    if |order| == 0 then None
    else if order[0] in m && m[order[0]] == target && order[0] in origin then Some(order[0])
    else FirstSource(order[1..], m, target, origin)
  }

  /** The notes of a match found through an equivalence. */
  function EquivalenceNote(source: string, target: string): string {
    "Equivalencia: " + source + " → " + target
  }

  /** The origin record a plan subject is matched with, and how. */
  datatype Found = Found(record: SubjectInput, via: Option<EquivalenceResult>)

  /** A direct match first; otherwise the first equivalence source in `order` that the origin history has. */
  function FindOrigin(p: Subject, order: seq<string>, m: map<string, string>, origin: map<string, SubjectInput>)
    : Option<Found>
  {
    if p.code in origin then Some(Found(origin[p.code], None))
    else
      match FirstSource(order, m, p.code, origin)
      case None => None
      case Some(k) => Some(Found(origin[k], Some(EquivalenceResult("TOTAL", EquivalenceNote(k, p.code)))))
  }

  /** The row for one plan subject: found in the origin history and not already taken in the dual one. */
  function RowFor(p: Subject, order: seq<string>, m: map<string, string>,
                  origin: map<string, SubjectInput>, dual: map<string, SubjectInput>): Option<MateriaHomologable>
  {
    match FindOrigin(p, order, m, origin)
    case None => None
    case Some(f) =>
      if p.code in dual then None
      else Some(MateriaHomologable(p.code, p.name, p.credits, p.tipologia,
                                   f.record.code, f.record.name, f.record.tipologia,
                                   f.record.semester, f.record.grade, f.via))
  }

  /** The loop over the plan's subjects; `orders[i]` is the map order seen for the i-th subject. */
  function Homologables(subjects: seq<Subject>, orders: seq<seq<string>>, m: map<string, string>,
                        origin: map<string, SubjectInput>, dual: map<string, SubjectInput>)
    : (rows: seq<MateriaHomologable>)
    requires |orders| == |subjects|
    ensures |rows| <= |subjects|
  {
    if |subjects| == 0 then []
    else
      var rest := Homologables(subjects[1..], orders[1..], m, origin, dual);
      match RowFor(subjects[0], orders[0], m, origin, dual)
      case Some(row) => [row] + rest
      case None => rest
  }

  function CreditsOf(rows: seq<MateriaHomologable>): int {
    if |rows| == 0 then 0 else rows[0].creditos + CreditsOf(rows[1..])
  }

  // ---------------------------------------------------------------------------
  // What the rows mean, independently of the map order
  // ---------------------------------------------------------------------------

  /**
   A plan subject is homologable when the origin history has its code or the code of an
   equivalence source mapped to it, and the dual-degree history does not have its code.
   */
  ghost predicate Homologable(p: Subject, m: map<string, string>,
                              origin: map<string, SubjectInput>, dual: map<string, SubjectInput>) {
    (p.code in origin || exists k :: k in m && m[k] == p.code && k in origin) && p.code !in dual
  }

  /** The homologable plan subjects, in plan order. */
  ghost function HomologableSubjects(subjects: seq<Subject>, m: map<string, string>,
                                     origin: map<string, SubjectInput>, dual: map<string, SubjectInput>)
    : seq<Subject>
  {
    if |subjects| == 0 then []
    else (if Homologable(subjects[0], m, origin, dual) then [subjects[0]] else [])
         + HomologableSubjects(subjects[1..], m, origin, dual)
  }

  function PlanCredits(subjects: seq<Subject>): int {
    if |subjects| == 0 then 0 else subjects[0].credits + PlanCredits(subjects[1..])
  }

  /** The target-plan side of a row. */
  function TargetOf(row: MateriaHomologable): Subject {
    Subject(row.codigoObjetivo, row.nombreObjetivo, row.creditos, row.tipologiaObjetivo)
  }

  /** `order` visits every key of the map. */
  predicate Visits(order: seq<string>, m: map<string, string>) {
    forall k :: k in m ==> k in order
  }

  /** The origin-side fields of a row are those of `record`. */
  predicate FromRecord(row: MateriaHomologable, record: SubjectInput) {
    && row.codigoOrigen == record.code && row.nombreOrigen == record.name
    && row.tipologiaOrigen == record.tipologia && row.periodo == record.semester
    && row.calificacion == record.grade
  }

  /**
   Where a row's origin fields come from: the record with the plan code itself, with no
   equivalence; or, when there is none, the record of a source mapped to the plan code, with a
   TOTAL equivalence naming that source.
   */
  ghost predicate Provenance(row: MateriaHomologable, m: map<string, string>, origin: map<string, SubjectInput>) {
    if row.equivalencia.None? then
      row.codigoObjetivo in origin && FromRecord(row, origin[row.codigoObjetivo])
    else
      && row.codigoObjetivo !in origin
      && exists k :: k in m && m[k] == row.codigoObjetivo && k in origin && FromRecord(row, origin[k])
                     && row.equivalencia == Some(EquivalenceResult("TOTAL", EquivalenceNote(k, row.codigoObjetivo)))
  }

  /** A plan subject gets a row exactly when it is homologable, and the row carries its plan fields. */
  lemma RowForMeaning(p: Subject, order: seq<string>, m: map<string, string>,
                      origin: map<string, SubjectInput>, dual: map<string, SubjectInput>)
    requires Visits(order, m)
    ensures RowFor(p, order, m, origin, dual).Some? <==> Homologable(p, m, origin, dual)
    ensures RowFor(p, order, m, origin, dual).Some? ==> TargetOf(RowFor(p, order, m, origin, dual).value) == p
  {
    if p.code !in origin && (exists k :: k in m && m[k] == p.code && k in origin) {
      var k :| k in m && m[k] == p.code && k in origin;
      assert k in order;
    }
  }

  /** Whatever the map order, a row's origin fields have the provenance above. */
  lemma RowForProvenance(p: Subject, order: seq<string>, m: map<string, string>,
                         origin: map<string, SubjectInput>, dual: map<string, SubjectInput>)
    ensures RowFor(p, order, m, origin, dual).Some? ==> Provenance(RowFor(p, order, m, origin, dual).value, m, origin)
  {
    if p.code !in origin {
      match FirstSource(order, m, p.code, origin)
      case None =>
      case Some(k) =>
        if p.code !in dual {
          var row := RowFor(p, order, m, origin, dual).value;
          assert k in m && m[k] == row.codigoObjetivo && k in origin && FromRecord(row, origin[k]);
        }
    }
  }

  /** The rows are the homologable subjects, in plan order, and their credits add up to theirs. */
  lemma {:induction false} HomologablesMeaning(subjects: seq<Subject>, orders: seq<seq<string>>, m: map<string, string>,
                                               origin: map<string, SubjectInput>, dual: map<string, SubjectInput>)
    requires |orders| == |subjects|
    requires forall i :: 0 <= i < |orders| ==> Visits(orders[i], m)
    ensures var rows := Homologables(subjects, orders, m, origin, dual);
            var hs := HomologableSubjects(subjects, m, origin, dual);
            && |rows| == |hs|
            && (forall i :: 0 <= i < |rows| ==> TargetOf(rows[i]) == hs[i])
            && CreditsOf(rows) == PlanCredits(hs)
  {
    if |subjects| > 0 {
      assert Visits(orders[0], m);
      HomologablesMeaning(subjects[1..], orders[1..], m, origin, dual);
      RowForMeaning(subjects[0], orders[0], m, origin, dual);
      var rows := Homologables(subjects, orders, m, origin, dual);
      var hs := HomologableSubjects(subjects, m, origin, dual);
      var rest := Homologables(subjects[1..], orders[1..], m, origin, dual);
      var hrest := HomologableSubjects(subjects[1..], m, origin, dual);
      match RowFor(subjects[0], orders[0], m, origin, dual)
      case Some(row) =>
        assert rows == [row] + rest;
        assert hs == [subjects[0]] + hrest;
        ConsTargets(rows, row, rest, hs, subjects[0], hrest);
        assert rows[1..] == rest && hs[1..] == hrest;
      case None =>
        assert rows == rest;
        assert hs == hrest;
    }
  }

  lemma ConsTargets(rows: seq<MateriaHomologable>, row: MateriaHomologable, rest: seq<MateriaHomologable>,
                    hs: seq<Subject>, h: Subject, hrest: seq<Subject>)
    requires rows == [row] + rest && hs == [h] + hrest && TargetOf(row) == h
    requires |rest| == |hrest| && forall i :: 0 <= i < |rest| ==> TargetOf(rest[i]) == hrest[i]
    ensures |rows| == |hs| && forall i :: 0 <= i < |rows| ==> TargetOf(rows[i]) == hs[i]
  {
    forall i | 0 <= i < |rows|
      ensures TargetOf(rows[i]) == hs[i]
    {
      if i > 0 {
        assert rows[i] == rest[i - 1] && hs[i] == hrest[i - 1];
      }
    }
  }

  ghost predicate AllTraced(rows: seq<MateriaHomologable>, m: map<string, string>, origin: map<string, SubjectInput>) {
    forall i :: 0 <= i < |rows| ==> Provenance(rows[i], m, origin)
  }

  /** Every row, whatever the map order, has the provenance above. */
  lemma {:induction false} HomologablesProvenance(subjects: seq<Subject>, orders: seq<seq<string>>, m: map<string, string>,
                                                  origin: map<string, SubjectInput>, dual: map<string, SubjectInput>)
    requires |orders| == |subjects|
    ensures AllTraced(Homologables(subjects, orders, m, origin, dual), m, origin)
  {
    if |subjects| > 0 {
      HomologablesProvenance(subjects[1..], orders[1..], m, origin, dual);
      RowForProvenance(subjects[0], orders[0], m, origin, dual);
      var rows := Homologables(subjects, orders, m, origin, dual);
      var rest := Homologables(subjects[1..], orders[1..], m, origin, dual);
      match RowFor(subjects[0], orders[0], m, origin, dual)
      case Some(row) =>
        assert rows == [row] + rest;
        forall i | 0 <= i < |rows|
          ensures Provenance(rows[i], m, origin)
        {
          if i > 0 {
            assert rows[i] == rest[i - 1];
          } else {
            assert rows[0] == row;
          }
        }
      case None =>
        assert rows == rest;
    }
  }

  // ---------------------------------------------------------------------------
  // The comparison
  // ---------------------------------------------------------------------------

  /** The homologation percentage: left at zero unless the plan has a positive credit total. */
  function PercentageOf(credits: int, totalCredits: int): (p: Percentage)
    ensures p.Ratio? <==> totalCredits > 0
    ensures p.Ratio? ==> p.part == credits && p.whole == totalCredits
  {
    if totalCredits > 0 then Ratio(credits, totalCredits) else Zero
  }

  /**
   `CompareDobleTitulacionParsed`. `target` is the active plan `GetStudyPlanByCareerCode` found
   for `careerCode`, `eqs` every stored equivalence, and `orders[i]` the order in which the
   equivalence map is visited while the i-th plan subject is looked up.
   */
  function CompareDobleTitulacionParsed(careerCode: string, target: Option<StudyPlan>, eqs: seq<Equivalence>,
                                        origen: seq<SubjectInput>, doble: seq<SubjectInput>,
                                        orders: seq<seq<string>>)
    : (r: Result<DobleTitulacionResult>)
    requires target.Some? ==> |orders| == |target.value.subjects|
    ensures r.Err? <==> target.None?
    ensures r.Err? ==> r.message == "plan de estudio objetivo no encontrado para la carrera: " + careerCode
    ensures r.Ok? ==>
              var res := r.value;
              && res.totalMaterias == |res.materiasHomologables| == res.resumen.materiasHomologables
              && res.totalCreditos == CreditsOf(res.materiasHomologables) == res.resumen.creditosHomologables
              && res.resumen.materiasCursadasOrigen == |origen|
              && res.resumen.materiasCursadasDoble == |doble|
              && |res.materiasHomologables| <= |target.value.subjects|
              && (res.resumen.porcentajeHomologacion.Ratio? <==> target.value.totalCredits > 0)
  {
    match Comparator.StudyPlanByCareerCode(careerCode, target)
    case Err(_) => Err("plan de estudio objetivo no encontrado para la carrera: " + careerCode)
    case Ok(plan) =>
      var m := SourceToTarget(ForCareer(eqs, plan.careerId));
      var rows := Homologables(plan.subjects, orders, m, ByCode(origen), ByCode(doble));
      var total := CreditsOf(rows);
      var resumen := ResumenDobleTitulacion(|origen|, |doble|, |rows|, total, PercentageOf(total, plan.totalCredits));
      Ok(DobleTitulacionResult(rows, |rows|, total, resumen))
  }

  /**
   Whatever order the equivalence map is visited in, the rows are exactly the homologable
   subjects of the target plan, in plan order, judged against the target career's equivalences
   and the last record per code of each history; the credit total is theirs, and each row's
   origin side has the provenance above.
   */
  lemma CompareDobleMeaning(careerCode: string, target: Option<StudyPlan>, eqs: seq<Equivalence>,
                            origen: seq<SubjectInput>, doble: seq<SubjectInput>, orders: seq<seq<string>>)
    requires target.Some? && |orders| == |target.value.subjects|
    requires forall i :: 0 <= i < |orders| ==> Visits(orders[i], SourceToTarget(ForCareer(eqs, target.value.careerId)))
    ensures var res := CompareDobleTitulacionParsed(careerCode, target, eqs, origen, doble, orders).value;
            var m := SourceToTarget(ForCareer(eqs, target.value.careerId));
            var hs := HomologableSubjects(target.value.subjects, m, ByCode(origen), ByCode(doble));
            && |res.materiasHomologables| == |hs|
            && (forall i :: 0 <= i < |hs| ==> TargetOf(res.materiasHomologables[i]) == hs[i])
            && res.totalCreditos == PlanCredits(hs)
            && AllTraced(res.materiasHomologables, m, ByCode(origen))
  {
    var plan := target.value;
    var m := SourceToTarget(ForCareer(eqs, plan.careerId));
    HomologablesMeaning(plan.subjects, orders, m, ByCode(origen), ByCode(doble));
    HomologablesProvenance(plan.subjects, orders, m, ByCode(origen), ByCode(doble));
  }

  /** A subject taken in both histories is never homologable. */
  lemma TakenInDualNotHomologable(p: Subject, m: map<string, string>, origen: seq<SubjectInput>,
                                  doble: seq<SubjectInput>, j: nat)
    requires j < |doble| && doble[j].code == p.code
    ensures !Homologable(p, m, ByCode(origen), ByCode(doble))
  {
    ByCodeEntries(doble);
  }

  /** A subject the origin history has by its own code, and the dual one does not, is homologable. */
  lemma TakenInOriginHomologable(p: Subject, m: map<string, string>, origen: seq<SubjectInput>,
                                 doble: seq<SubjectInput>, j: nat)
    requires j < |origen| && origen[j].code == p.code
    requires forall i :: 0 <= i < |doble| ==> doble[i].code != p.code
    ensures Homologable(p, m, ByCode(origen), ByCode(doble))
  {
    ByCodeEntries(origen);
    ByCodeEntries(doble);
  }

  /**
   `CompareDobleTitulacion`: the same comparison on two histories read by the tab-delimited
   parser; the history counts are the numbers of qualifying lines.
   */
  function CompareDobleTitulacion(careerCode: string, target: Option<StudyPlan>, eqs: seq<Equivalence>,
                                  historiaOrigen: string, historiaDoble: string, orders: seq<seq<string>>)
    : (r: Result<DobleTitulacionResult>)
    requires target.Some? ==> |orders| == |target.value.subjects|
    ensures r.Err? <==> target.None?
    ensures r.Err? ==> r.message == "plan de estudio objetivo no encontrado para la carrera: " + careerCode
    ensures r.Ok? ==>
              && r.value.resumen.materiasCursadasOrigen == TabParser.QualifyingCount(Text.Split(historiaOrigen, '\n'))
              && r.value.resumen.materiasCursadasDoble == TabParser.QualifyingCount(Text.Split(historiaDoble, '\n'))
  {
    CompareDobleTitulacionParsed(careerCode, target, eqs, TabParser.ProcesarHistoria(historiaOrigen),
                                 TabParser.ProcesarHistoria(historiaDoble), orders)
  }
}
