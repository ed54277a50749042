# Transcript parsing and curriculum reconciliation, modelled in Dafny

This project models the decision logic of the `backend-olimpio` service (Go): how a pasted
academic transcript is cleaned and read into subject records, how a student's history is
compared against a study plan (plan de estudio) with its subject equivalences, and how two
histories are compared for a dual degree (doble titulación). Every database lookup becomes an
input value. HTTP handling and floating point are left out.

The modules follow the source:

| file | module | models |
|---|---|---|
| `common.dfy` | `Common` | `Option` and `Result` (an error carries Go's error message) |
| `text.dfy` | `Text` | the parts of `strings`, `strconv` and `unicode` the core calls: `TrimSpace`, `Split`, `Join`, `Contains`, `ToUpper`, `Atoi`, `Itoa` |
| `tipologia.dfy` | `Tipologia` | the six `TipologiaAsignatura` constants, `ValidarTipologia`, `mapearTipologia` |
| `models.dfy` | `Models` | the records the logic reads and the result DTOs; `CreateStudyPlan` without the database; the `ParsedSubject`→`SubjectInput` conversion |
| `normalizer.dfy` | `Normalizer` | `preprocessAcademicHistoryText`, steps 1 to 10, as written and with step 3's first template corrected |
| `flexparser.dfy` | `FlexParser` | `parseAcademicHistoryTextFlexible`: the line loop as a method, proved equal to a reference reading |
| `tabparser.dfy` | `TabParser` | `procesarHistoriaAcademicaTexto`, the tab-delimited reader |
| `comparator.dfy` | `Comparator` | `CompareAcademicHistoryWithStudyPlan`, `GetStudyPlanByCareerCode`, `CompareAcademicHistoryByCareerCode`, the handler's summary counts |
| `dualdegree.dfy` | `DualDegree` | `CompareDobleTitulacionParsed` and `CompareDobleTitulacion` |

How the model works:

- **Go maps.** A Go map filled in a loop is a function of the list it is filled from. The last
  write to a key wins.
- **Map iteration order.** This order is unspecified, so it becomes an explicit parameter: the
  equivalence map of the dual-degree comparison is visited in a caller-given order per plan
  subject. The lemmas that state what the rows mean hold for every such order.
- **Regular expressions.** Each pattern is a hand-written matcher for that one pattern. It keeps
  the pattern's leftmost-first choice and its backtracking where the outcome depends on them.
  `ReplaceAllString` becomes a scanner that resumes at the end of each match.
- **Grades.** A grade is the accepted text itself. `NoGrade` stands for a grade field that was never
  set, which Go holds as its zero value `0.0`.
- **Homologation percentage.** The percentage is the exact ratio `Ratio(part, whole)`.

Where the code departs from what its names and comments suggest, the model follows the code:

- **The normaliser is not idempotent.** A line holding only spaces survives step 8 and becomes
  an empty line in step 9. A second pass then collapses it (`Normalizer.PreprocessNotIdempotent`).
- **No row for TRABAJO DE GRADO.** The credit summary has five category rows and a total;
  TRABAJO DE GRADO credits reach no row.
- **No career scoping in the comparator.** The comparator's equivalence query is not restricted
  to the plan's career (`Comparator.LookupIgnoresCareer`). The dual-degree query is
  (`DualDegree.ForCareer`).
- **Credits of canonically typed subjects never reach a row.** The credit rows are keyed
  `"fund.obligatoria"` and the like, but credits are added under the subject's type string, such
  as `FUND. OBLIGATORIA`. So an approved subject of one of the six canonical types adds nothing to
  any row, whether it was approved directly or through an equivalence
  (`Comparator.ValidTypesEarnNothing`); only a type string that is literally one of the keys is
  counted. An example: a FUND. OBLIGATORIA subject approved through an equivalence is credited 0
  Completed credits, not 4. See Findings.
- **Step 3 of the normaliser drops credit digits.** Its first template, `$1\n$2F`, refers to a
  group named `2F`: Go reads a `$` name as long as it can, and a name that is no group expands to
  nothing. The digits and the `F` matched after a letter or `)` are therefore replaced by a line
  break (`Normalizer.PreprocessLosesCredits`). See Findings.

`ValidarTipologia` appears twice in the source, in `models/models.go:19-32` and, identically,
in `main.go:31-44`; it is modelled once. The handler's summary counts appear at
`main.go:390-394`, `main.go:582-586` and `main.go:829-835`; they are modelled once, by
`Comparator.Summary`.

## Model

| member | source | states |
|---|---|---|
| Text.TrimSpace | functions/functions.go:856 | `strings.TrimSpace`: the result has no whitespace at either end, holds only characters of the input, and a text already trimmed is returned unchanged |
| Text.TrimSpaceIsInfix | functions/functions.go:856 | the trimmed text is a slice of the input with only whitespace before and after it |
| Text.TrimSpaceUnique | functions/functions.go:856 | any trimmed slice of the input with only whitespace outside it is the trimmed text, so together with `Text.TrimSpaceIsInfix` the result is pinned down |
| Text.TrimSpaceKeepsNonBlank | functions/functions.go:856 | trimming deletes whitespace only: the visible characters stay, in order |
| Text.TrimSpaceIdempotent | main.go:793 | trimming a trimmed text changes nothing, so the conversion's second trim of a header code is a no-op |
| Text.Split | functions/functions.go:853 | `strings.Split` gives one more piece than there are separators; no piece holds the separator |
| Text.JoinSplit | main.go:741-745 | joining the pieces of a split gives the text back |
| Text.SplitJoin | functions/functions.go:862 | splitting the join of separator-free pieces gives the pieces back |
| Text.AtoiItoa | functions/functions.go:877 | `Atoi` reads back every integer `Itoa` writes, negative ones included |
| Text.AtoiAcceptsSign | functions/functions.go:877 | a signed text is accepted, so credits can be negative |
| Text.TrimSpaceKeepsLinesTrimmed | main.go:747 | trimming the whole text keeps every line trimmed |
| Tipologia.ParseTipologia | models/models.go:10-17 | reads a label back to its constant; the inverse of `Label`, so the six constants are pairwise distinct |
| Tipologia.ValidarTipologia | models/models.go:19-32 | true exactly when the text is one of the six labels, compared case-sensitively |
| Tipologia.ValidarRejectsNearMisses | models/models.go:19-32 | NIVELACIÓN, a lower-case and a mixed-case spelling, and the empty text are rejected |
| Tipologia.MapTipologia | functions/functions.go:916-936 | after upper-casing, each result holds exactly when its keyword occurs and every keyword of higher priority does not |
| Tipologia.MapTipologiaIsValid | functions/functions.go:916-936 | whatever the text, the mapper's answer passes `ValidarTipologia` |
| Tipologia.MapTipologiaOfLabel | functions/functions.go:916-936 | each canonical label maps to its own tipología |
| Models.NewStudyPlan | functions/functions.go:241-273 | the three errors in source order; a new plan is active, has no subjects, stores each category target, and its total is their sum |
| Normalizer.LineEndings | main.go:713-715 | after step 1 the text holds no carriage return |
| Normalizer.LineEndingsKeep | main.go:713-715 | step 1 changes no visible character, adds only line breaks, and leaves text without `\r` alone |
| Normalizer.CrlfToLfKeeps | main.go:714 | replacing `\r\n` keeps the visible characters and invents none |
| Normalizer.CrToLfKeeps | main.go:715 | replacing `\r` keeps the visible characters and adds only `\n` |
| Normalizer.MatchAt | main.go:717-736 | a match of any of the seven patterns puts its break inside the text, at or after where the match starts |
| Normalizer.Cuts | main.go:719 | every break position lies in the scanned part of the text |
| Normalizer.CutsAreMatches | main.go:719-736 | every break is the break of a match found in the text |
| Normalizer.FirstMatchCut | main.go:719-736 | the leftmost match from the scan position always puts its break in |
| Normalizer.NoMatchNoCuts | main.go:719-736 | where no pattern matches, no break is inserted |
| Normalizer.EditAdds | main.go:717-736 | a replacement pass keeps the text outside the dropped positions and only inserts line breaks into it |
| Normalizer.OtherRewritesAdd | main.go:719-736 | every pass except step 3's first (`$1\n$2`, `\n$1`, `$1$2\n$3`) keeps each group it matched, so it is the intended pass and only inserts line breaks |
| Normalizer.DroppedCredits | main.go:722 | step 3's first template `$1\n$2F` names the group `2F`, which does not exist; what the pass leaves out are only the credit digits and the `F` after them |
| Normalizer.CreditsRewriteDrops | main.go:722 | step 3's first pass as written: the text less some credit digits and `F`s, with line breaks inserted, so its visible characters are those of the text less the dropped ones |
| Normalizer.RewritesChars | main.go:717-736 | steps 2-7 as written invent no character other than `\n` |
| Normalizer.IntendedRewriteAdds | main.go:722 | with step 3's first template read as `$1\n${2}F`, every one of steps 2-7 only inserts line breaks |
| Normalizer.IntendedRewritesAdd | main.go:717-736 | with that template, steps 2-7 together only insert line breaks |
| Normalizer.RewritesAsIntended | main.go:717-736 | where no digit stands directly before an `F`, steps 2-7 as written give the same text as the intended ones |
| Normalizer.BreaksAddedNonBlank | main.go:717-736 | inserting line breaks changes no visible character |
| Normalizer.PlainRewritesUntouched | main.go:717-736 | text with no digit and no `(` passes steps 2-7 unchanged |
| Normalizer.SubjectMatchExample | main.go:719 | step 2 matches a whole `NAME (CODE)` and breaks before it |
| Normalizer.CreditsMatchExamples | main.go:721-724 | step 3's first pass matches `)4F` and replaces `4F` by a line break, giving `)\nUND` from `)4FUND`; its second breaks before one or two credit digits that follow a letter or `)` and end a word, and three digits do not match |
| Normalizer.IntendedCreditsExample | main.go:722 | with the template `$1\n${2}F`, `)4FUND` becomes `)\n4FUND`: the credits stay, on the next line |
| Normalizer.TypeMatchExample | main.go:726-727 | step 4 breaks between the credits and the tipología |
| Normalizer.PeriodMatchExample | main.go:729-730 | step 5 breaks between the tipología and the period |
| Normalizer.GradeMatchExamples | main.go:732-733 | step 6 breaks before the grade, after an optional ` Ordinaria`, backing off to a one-digit semester when the longer period leaves no grade |
| Normalizer.StatusMatchExample | main.go:735-736 | step 7 breaks between the grade and the status |
| Normalizer.CollapseRemovesBreaks | main.go:738-739 | step 8 deletes line breaks only |
| Normalizer.CollapseNoDoubleBreak | main.go:738-739 | after step 8 no two line breaks are adjacent |
| Normalizer.CollapseFixed | main.go:738-739 | text without a double line break is a fixed point of step 8 |
| Normalizer.TrimEach | main.go:742-744 | each line is replaced by its trimmed form, none added or dropped |
| Normalizer.TrimLinesNonBlank | main.go:740-745 | step 9 changes no visible character |
| Normalizer.TrimLinesTrimmed | main.go:740-745 | after step 9 every line is trimmed |
| Normalizer.TrimLinesFixed | main.go:740-745 | text whose lines are already trimmed is a fixed point of step 9 |
| Normalizer.PreprocessShape | main.go:712-749 | the normaliser as written: the output holds no character but the input's and `\n`, has no `\r`, is trimmed, and every line is trimmed; where no digit stands directly before an `F`, it has the input's visible characters in order |
| Normalizer.IntendedPreprocessShape | main.go:712-749 | with the template `$1\n${2}F`, the output always has the input's visible characters in order and only adds `\n`; it has no `\r`, is trimmed, and every line is trimmed |
| Normalizer.PreprocessAsIntended | main.go:712-749 | where no digit stands directly before an `F`, the normaliser as written and the intended one agree |
| Normalizer.PreprocessLosesCredits | main.go:722 | the normaliser as written turns `)4FUND` into `)` and `UND` on two lines: the credit digit `4` is lost |
| Normalizer.PreprocessNotIdempotent | main.go:738-747 | `"a\n \nb"` normalises to `"a\n\nb"`, which a second pass turns into `"a\nb"` |
| FlexParser.HeaderOfMeaning | main.go:628 | a line is a header with groups name and code exactly when its first `(` is not at 0, the first `)` after it is not next to it, and the groups are the trimmed texts before and between them |
| FlexParser.NotHeaders | main.go:628 | lines that open with `(`, have no `(`, or close the bracket at once are not headers |
| FlexParser.HeadersTrimmed | main.go:652-653 | header groups are trimmed |
| FlexParser.CleanedLines | main.go:637-641 | the lines the parser looks at are trimmed and non-empty |
| FlexParser.Fill | main.go:655-698 | credits come from the first body line when it is all digits, type and period verbatim from the second and third, and the grade from the fourth when it is a decimal; a missing line leaves the zero value |
| FlexParser.ApplyFields | main.go:673-698 | one body position changes only its own field |
| FlexParser.RecordsFollowHeaders | main.go:646-666 | one record per header line, in header order, each named and coded by its header and approved |
| FlexParser.HeaderStep | main.go:646-666 | a header flushes the record in progress and opens a blank one |
| FlexParser.BodyStep | main.go:669-698 | a non-header line fills the next position of the record in progress, flushing it after the fourth |
| FlexParser.IdleStep | main.go:669-670 | with no record in progress a non-header line is skipped |
| FlexParser.Feed | main.go:645-699 | one trimmed line keeps what is emitted plus what the state still owes for the coming lines |
| FlexParser.Step | main.go:637-642 | a blank raw line is skipped, any other is trimmed and fed |
| FlexParser.ParseLines | main.go:637-705 | the loop, with its final flush, returns the reference records of the cleaned lines |
| FlexParser.ParseFlexible | main.go:617-709 | never fails, and returns exactly one record per header line, as the reference reading gives them |
| FlexParser.EmptyTextNoRecords | main.go:617-709 | the empty text yields no records |
| FlexParser.ComparisonCodesAreHeaderCodes | main.go:791-802 | the inputs passed to the comparison carry the header codes, in order, all approved |
| TabParser.CodeAtMeaning | functions/functions.go:869 | the pattern's tail matches at a position with code group g exactly when a regexp space, `(`, a code-shaped g and `)` follow from there |
| TabParser.LastMatchOf | functions/functions.go:869 | the greedy name group makes the last matching position the one taken |
| TabParser.LastMatchNone | functions/functions.go:869 | with no matching position there is no match |
| TabParser.SplitNameCode | functions/functions.go:866-872 | the code is empty or code-shaped; with no match the whole field is the name |
| TabParser.SplitNameCodeOfField | functions/functions.go:866-872 | a field written `name (code)` splits back into the name and the code |
| TabParser.SplitNameCodeWithoutParen | functions/functions.go:866-872 | a field without `(` is all name and has no code |
| TabParser.GreedyNameGroup | functions/functions.go:869 | when the name itself holds a parenthesised code, the last code is taken and the earlier one stays in the name |
| TabParser.GradeOf | functions/functions.go:888-894 | a blank grade field is the zero grade; otherwise the trimmed text |
| TabParser.ParseTabLine | functions/functions.go:862-909 | a trimmed line is a record exactly when it has at least five tab fields; the record is approved, validly typed, and its code is empty or code-shaped |
| TabParser.LineRecord | functions/functions.go:855-860 | a raw line gives a record exactly when, trimmed, it is non-blank with five fields |
| TabParser.ProcessLines | functions/functions.go:855-911 | one record per qualifying line |
| TabParser.ProcessLinesWellRead | functions/functions.go:897-907 | every record is approved, has a valid type, and an empty or code-shaped code |
| TabParser.ProcesarHistoria | functions/functions.go:849-914 | as many records as qualifying lines, each approved and validly typed |
| TabParser.CreditsOfItoa | functions/functions.go:874-880 | the credits field reads back every integer, negative ones included |
| TabParser.TypeFieldReads | functions/functions.go:883-897 | a label in the type field maps back to itself |
| TabParser.FieldsReadBack | functions/functions.go:864-894 | each field of a written entry reads back to the part it was written from |
| TabParser.ParseFormatLine | functions/functions.go:862-909 | an entry written as one tab-separated line parses back to the entry |
| TabParser.LineRecordOfFormat | functions/functions.go:855-909 | that line, read as a raw transcript line, yields the entry |
| TabParser.ProcessLinesAllRecords | functions/functions.go:855-911 | when every line yields a record, the loop returns exactly those records in order |
| TabParser.ProcessFormattedLines | functions/functions.go:855-911 | the loop reads written lines back to the same entries |
| TabParser.ProcesarFormatted | functions/functions.go:849-914 | reading inverts writing the entries one per line |
| TabParser.SampleLine | functions/functions.go:861-909 | the line `Cálculo Diferencial (1000003)`, then 4, FUND. OBLIGATORIA, 2020-1S and 4.5 separated by tabs, reads as code 1000003, 4 credits, FUND. OBLIGATORIA, 2020-1S, grade 4.5, approved |
| TabParser.NegativeCreditsLine | functions/functions.go:874-880 | a line with credits `-3` yields a record with -3 credits |
| Comparator.Related | functions/functions.go:27-31 | the rows the query returns are exactly those whose source or target is a plan subject |
| Comparator.LookupIsPartners | functions/functions.go:39-50 | the lookup holds exactly the plan codes some equivalence touches; each lists the codes on the other side, in list order |
| Comparator.PartnersMembership | functions/functions.go:41-50 | a code is listed for another exactly when some equivalence links the two, in either direction |
| Comparator.LookupSymmetric | functions/functions.go:39-50 | between two plan subjects the lookup is symmetric |
| Comparator.LookupIgnoresUnrelated | functions/functions.go:27-50 | restricting the rows to the plan's subjects, as the query does, changes nothing in the lookup |
| Comparator.LookupIgnoresCareer | functions/functions.go:27-50 | the lookup does not depend on the equivalences' careers |
| Comparator.ApprovedCodes | functions/functions.go:53-58 | the approved set is exactly the trimmed history codes, whatever their status |
| Comparator.FirstApproved | functions/functions.go:88-98 | the first approved code in list order; none exactly when no listed code is approved |
| Comparator.DecideMeaning | functions/functions.go:79-100 | direct exactly when the subject's own code is approved; otherwise through the first approved code of its lookup list; otherwise pending |
| Comparator.ApprovalMeaning | functions/functions.go:79-100 | a plan subject is approved exactly when its code, or a code some equivalence links it to, is a trimmed history code |
| Comparator.ResultFor | functions/functions.go:102-117 | a row carries its plan subject's fields and its status; an equivalence row has type "total" and notes naming the code used |
| Comparator.ScanLists | functions/functions.go:79-118 | the two lists are the plan's rows split by status, each in plan order |
| Comparator.ScanBuckets | functions/functions.go:71-118 | the five literal keys stay present; every bucket holds the credits of the approved rows whose type string equals its key |
| Comparator.Clamp | functions/functions.go:159-177 | the clamped value is max(0, x) |
| Comparator.SummaryOf | functions/functions.go:120-177 | each row requires the plan's target and reads its bucket under its literal key; Total sums the five; every Missing is clamped |
| Comparator.Compare | functions/functions.go:14-184 | Completed values are the credits of approved rows typed with the row's literal key; Total requires the plan total; Missing values are clamped; the two top-level credit fields stay 0 |
| Comparator.ComparePartition | functions/functions.go:79-118 | every plan subject appears exactly once, approved or pending, in plan order, with its own fields |
| Comparator.CompareSplitsPlan | functions/functions.go:110-117 | the two lists together hold one row per plan subject, marked APROBADA or PENDIENTE |
| Comparator.ApprovedRowsFromPlan | functions/functions.go:102-113 | every approved row describes a plan subject |
| Comparator.LabelIsNoBucketKey | functions/functions.go:71-77 | no valid tipología label is one of the bucket keys |
| Comparator.UnkeyedRowsEarnNothing | functions/functions.go:113-157 | when no plan subject's type is a bucket key, every Completed is 0 and every Missing is the clamped target |
| Comparator.ValidTypesEarnNothing | functions/functions.go:71-157 | when every plan subject's type passes `ValidarTipologia`, every Completed value, Total included, is 0 |
| Comparator.CompareIgnoresEquivalenceCareer | functions/functions.go:27-31 | the comparison does not depend on the careers of the equivalence rows |
| Comparator.StudyPlanByCareerCode | functions/functions.go:186-199 | the active plan found, or the not-found error naming the career code |
| Comparator.CompareWithStudyPlan | functions/functions.go:14-19 | fails only when the plan id matches no plan, with the source's message; otherwise one row per plan subject |
| Comparator.CompareByCareerCode | functions/functions.go:201-211 | the active-plan lookup's error passes through unchanged |
| Comparator.SummaryCountsPlan | main.go:831 | the reported subjects in the plan are the plan's subjects |
| Comparator.NewPlanTotalRequired | functions/functions.go:259-260 | on a created plan, the Total row requires the sum of the five rows' requirements |
| Comparator.BucketKeyMismatchExample | functions/functions.go:113 | as written: the example subject is approved through the equivalence, yet FUND. OBLIGATORIA and Total complete 0 of 4 credits |
| Comparator.LabelsPartitionCredits | functions/functions.go:113 | the six labels and the untyped rest partition the credits |
| Comparator.CorrectedSummary | functions/functions.go:120-157 | each row reads the credits of approved rows carrying that row's label; every Missing is clamped |
| Comparator.CorrectedCompare | functions/functions.go:14-184 | the corrected comparison keeps both subject lists |
| Comparator.CorrectedTotalCountsEveryCredit | functions/functions.go:150-157 | with the intended keys, Total Completed plus the TRABAJO DE GRADO and untyped credits is every approved credit |
| Comparator.CorrectedBucketExample | functions/functions.go:113 | with the intended keys the example completes 4 of 4 FUND. OBLIGATORIA credits |
| DualDegree.ForCareer | functions/functions.go:747-749 | the equivalences read are exactly those of the target career |
| DualDegree.SourceToTargetEntries | functions/functions.go:751-755 | the map has exactly the equivalences' sources; each entry is the target of an equivalence with that source |
| DualDegree.SourceToTargetLastWins | functions/functions.go:751-755 | of several equivalences with one source, the last one's target is kept |
| DualDegree.ByCodeEntries | functions/functions.go:757-766 | each history map has exactly the history's codes; each entry is a record with that code, the last such record |
| DualDegree.FirstSource | functions/functions.go:787-802 | the source found maps to the plan code and has an origin record; none found means no visited source does |
| DualDegree.Homologables | functions/functions.go:772-825 | at most one row per plan subject |
| DualDegree.RowForMeaning | functions/functions.go:780-824 | a plan subject gets a row exactly when it is homologable, and the row carries its plan fields |
| DualDegree.RowForProvenance | functions/functions.go:780-819 | a row's origin fields come from the direct record, or from an equivalence source's record with a TOTAL note naming it |
| DualDegree.HomologablesMeaning | functions/functions.go:772-825 | the rows are the homologable subjects in plan order and their credits add up to theirs |
| DualDegree.HomologablesProvenance | functions/functions.go:772-825 | whatever the map order, every row has that provenance |
| DualDegree.TakenInDualNotHomologable | functions/functions.go:805-807 | a subject taken in the dual history is never homologable |
| DualDegree.TakenInOriginHomologable | functions/functions.go:780-807 | a subject the origin history has by its own code, and the dual one lacks, is homologable |
| DualDegree.PercentageOf | functions/functions.go:835-838 | the percentage is set exactly when the plan's total is positive, as credits over total |
| DualDegree.CompareDobleTitulacionParsed | functions/functions.go:740-846 | fails exactly when no active plan exists, with the source's message; counts, credit total and summary agree; history counts are list lengths |
| DualDegree.CompareDobleMeaning | functions/functions.go:740-846 | for every map order, the rows are the homologable plan subjects under the target career's equivalences and the last record per code, with their credits and provenance |
| DualDegree.CompareDobleTitulacion | functions/functions.go:627-737 | the same comparison on two texts read by the tab-delimited reader; history counts are the numbers of qualifying lines |

## Left out

- Database access. The plan found, the equivalence rows and the plan-by-id lookup are inputs;
  gorm queries, transactions and migrations are not modelled.
- HTTP handling. Routing, JSON and form binding, and response assembly are not modelled, except
  the record conversion and the summary counts.
- Debug printing is not modelled.
- Floating point. `calculateCompletionPercentage` (main.go:592-597) is not modelled. The
  homologation percentage is kept as the exact ratio of credits to total credits.
- TabParser.GradeOf: keeps any non-blank grade text as the grade. `strconv.ParseFloat` would
  turn text it rejects into `0.0`; float parsing is not modelled.
- Text.Atoi: does not model the range error for values beyond 64 bits. Such text reads as its
  exact value, where Go would read it as 0.
- FlexParser.Fill: a credits line of more digits than a 64-bit integer holds reads as its exact
  value, where `strconv.Atoi` fails and Go leaves 0.
- Text.TrimSpace: treats as whitespace ASCII whitespace, U+0085 and U+00A0 only. The other
  Unicode spaces (U+1680, U+2000-U+200A, U+2028, U+2029, U+202F, U+205F, U+3000) are not
  whitespace here.
- Text.ToUpper upper-cases ASCII letters and áéíóúñü only. The type field's other letters
  are not mapped.
- Regular expressions are not modelled by a general engine. Each pattern the core uses is a
  matcher of its own, written from the pattern.
- DualDegree.FirstSource: the equivalence map's iteration order is a parameter; the contracts
  hold for every order, and no particular order is chosen.
- CRUD functions other than `CreateStudyPlan`'s total formula and error checks, and the lookups
  of careers, subjects and equivalences by id, are not modelled.

## Findings

| source | as written | input that shows it | evidently intended | confidence | as-written member | corrected member |
|---|---|---|---|---|---|---|
| functions/functions.go:71-77, 113, 124-151 | approved credits are added to `creditsByType[string(planSubject.Type)]`, but the summary reads the keys `"fund.obligatoria"`, `"fund.optativa"`, `"dis.obligatoria"`, `"dis.optativa"`, `"libre"` | a plan with one 4-credit subject `1000001` typed `FUND. OBLIGATORIA`, an equivalence `1000099` → `1000001`, and a history holding `1000099`: the subject is approved, yet FUND. OBLIGATORIA and Total complete 0 of 4 credits | each row counts the credits of approved subjects carrying that row's tipología label, so the example completes 4 of 4 | high (not executed) | Comparator.BucketKeyMismatchExample | Comparator.CorrectedBucketExample |
| main.go:722 | step 3's first template is `$1\n$2F`; Go reads `$2F` as the group named `2F`, which does not exist and expands to nothing, so the credit digits and the `F` are deleted | `)4FUND` becomes `)` and `UND` on two lines, and the credit digit `4` is gone | `$1\n${2}F`, which keeps the digits and the `F` after the inserted line break, so the normaliser only moves whitespace | high (not executed) | Normalizer.PreprocessLosesCredits | Normalizer.IntendedPreprocessShape |
