/**
 The records the comparison logic reads and produces: the persisted plan, subject and
 equivalence rows (only the fields the logic reads), the history entries and the result DTOs.
 */
module Models {
  import opened Common
  import Text

  /**
   A grade as it was read from the transcript. Floating-point parsing is not modelled:
   `NoGrade` is Go's zero value `0.0`, `Decimal` keeps the accepted text verbatim.
   */
  datatype Grade = NoGrade | Decimal(text: string)

  /** A subject of a study plan; `tipologia` is the raw `Type` string, not necessarily a valid label. */
  datatype Subject = Subject(code: string, name: string, credits: int, tipologia: string)

  /** A study plan with its subjects in stored order and its per-category credit targets. */
  datatype StudyPlan = StudyPlan(
    careerId: nat,
    version: string,
    isActive: bool,
    subjects: seq<Subject>,
    totalCredits: int,
    fundObligatoriaCredits: int,
    fundOptativaCredits: int,
    disObligatoriaCredits: int,
    disOptativaCredits: int,
    libreCredits: int)

  /** An equivalence row with its preloaded source and target subject codes. */
  datatype Equivalence = Equivalence(
    sourceCode: string,
    targetCode: string,
    kind: string,
    notes: string,
    careerId: nat)

  /** One entry of an academic history (`SubjectInput`). */
  datatype SubjectInput = SubjectInput(
    code: string,
    name: string,
    credits: int,
    tipologia: string,
    grade: Grade,
    status: string,
    semester: string)

  /** One record of the flexible text parser (`ParsedSubject`). */
  datatype ParsedSubject = ParsedSubject(
    code: string,
    name: string,
    credits: int,
    tipologia: string,
    grade: Grade,
    status: string,
    semester: string)

  datatype EquivalenceResult = EquivalenceResult(kind: string, notes: string)

  datatype SubjectResult = SubjectResult(
    code: string,
    name: string,
    credits: int,
    tipologia: string,
    status: string,
    equivalence: Option<EquivalenceResult>)

  datatype CreditTypeInfo = CreditTypeInfo(required: int, completed: int, missing: int)

  /** Five category rows and a total; there is no row for TRABAJO DE GRADO. */
  datatype CreditsSummary = CreditsSummary(
    fundObligatoria: CreditTypeInfo,
    fundOptativa: CreditTypeInfo,
    disObligatoria: CreditTypeInfo,
    disOptativa: CreditTypeInfo,
    libre: CreditTypeInfo,
    total: CreditTypeInfo)

  datatype ComparisonResult = ComparisonResult(
    equivalentSubjects: seq<SubjectResult>,
    missingSubjects: seq<SubjectResult>,
    totalCredits: int,
    missingCredits: int,
    creditsSummary: CreditsSummary)

  datatype MateriaHomologable = MateriaHomologable(
    codigoObjetivo: string,
    nombreObjetivo: string,
    creditos: int,
    tipologiaObjetivo: string,
    codigoOrigen: string,
    nombreOrigen: string,
    tipologiaOrigen: string,
    periodo: string,
    calificacion: Grade,
    equivalencia: Option<EquivalenceResult>)

  /**
   The homologation percentage, kept as the exact ratio `part / whole * 100` the code computes
   in floating point; `Zero` is the value left in place when the plan has no positive total.
   */
  datatype Percentage = Zero | Ratio(part: int, whole: int)

  datatype ResumenDobleTitulacion = ResumenDobleTitulacion(
    materiasCursadasOrigen: nat,
    materiasCursadasDoble: nat,
    materiasHomologables: nat,
    creditosHomologables: int,
    porcentajeHomologacion: Percentage)

  datatype DobleTitulacionResult = DobleTitulacionResult(
    materiasHomologables: seq<MateriaHomologable>,
    totalMaterias: nat,
    totalCreditos: int,
    resumen: ResumenDobleTitulacion)

  /** The sum of the five category targets, the formula `CreateStudyPlan` stores as `TotalCredits`. */
  function TargetSum(fundObl: int, fundOpt: int, disObl: int, disOpt: int, libre: int): int {
    fundObl + fundOpt + disObl + disOpt + libre
  }

  /**
   `CreateStudyPlan` without the database: whether the career exists and whether the version
   is already taken are inputs. The checks run in the source's order and a new plan is active,
   has no subjects, and stores each target and their sum.
   */
  function NewStudyPlan(
    careerId: nat, version: string, careerExists: bool, versionTaken: bool,
    fundObl: int, fundOpt: int, disObl: int, disOpt: int, libre: int): (r: Result<StudyPlan>)
    ensures version == "" ==> r == Err("version is required")
    ensures version != "" && !careerExists ==> r == Err("career not found")
    ensures version != "" && careerExists && versionTaken ==>
              r == Err("study plan with this version already exists for this career")
    ensures r.Ok? <==> version != "" && careerExists && !versionTaken
    ensures r.Ok? ==>
              && r.value.careerId == careerId && r.value.version == version
              && r.value.isActive && r.value.subjects == []
              && r.value.fundObligatoriaCredits == fundObl && r.value.fundOptativaCredits == fundOpt
              && r.value.disObligatoriaCredits == disObl && r.value.disOptativaCredits == disOpt
              && r.value.libreCredits == libre
              && r.value.totalCredits == fundObl + fundOpt + disObl + disOpt + libre
  {
    if version == "" then Err("version is required")
    else if !careerExists then Err("career not found")
    else if versionTaken then Err("study plan with this version already exists for this career")
    else Ok(StudyPlan(careerId, version, true, [], TargetSum(fundObl, fundOpt, disObl, disOpt, libre),
                      fundObl, fundOpt, disObl, disOpt, libre))
  }

  /** Sum of a plan's category targets. */
  function PlanTargetSum(p: StudyPlan): int {
    TargetSum(p.fundObligatoriaCredits, p.fundOptativaCredits, p.disObligatoriaCredits,
              p.disOptativaCredits, p.libreCredits)
  }

  /**
   The `ParsedSubject` to `SubjectInput` conversion of the text-comparison handler: the code is
   trimmed, every other field is carried over, the type string unchecked.
   */
  function ToSubjectInput(ps: ParsedSubject): (s: SubjectInput)
    ensures s.code == Text.TrimSpace(ps.code)
    ensures s.name == ps.name && s.credits == ps.credits && s.tipologia == ps.tipologia
    ensures s.grade == ps.grade && s.status == ps.status && s.semester == ps.semester
  {
    SubjectInput(Text.TrimSpace(ps.code), ps.name, ps.credits, ps.tipologia, ps.grade, ps.status, ps.semester)
  }

  function ToSubjectInputs(ps: seq<ParsedSubject>): (r: seq<SubjectInput>)
    ensures |r| == |ps|
    ensures forall i :: 0 <= i < |ps| ==> r[i] == ToSubjectInput(ps[i])
  {
    seq(|ps|, i requires 0 <= i < |ps| => ToSubjectInput(ps[i]))
  }
}
