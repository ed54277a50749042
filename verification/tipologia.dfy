/**
 The closed set of subject categories (tipologías): the six `TipologiaAsignatura`
 constants, the exact-match validator and the keyword mapper the tab-delimited parser uses.
 */
module Tipologia {
  import opened Common
  import opened Text

  datatype Tipologia =
    | DisciplinarOptativa
    | FundObligatoria
    | FundOptativa
    | DisciplinarObligatoria
    | LibreEleccion
    | TrabajoGrado

  /** The printed form of each constant. */
  function Label(t: Tipologia): string {
    match t
    case DisciplinarOptativa => "DISCIPLINAR OPTATIVA"
    case FundObligatoria => "FUND. OBLIGATORIA"
    case FundOptativa => "FUND. OPTATIVA"
    case DisciplinarObligatoria => "DISCIPLINAR OBLIGATORIA"
    case LibreEleccion => "LIBRE ELECCIÓN"
    case TrabajoGrado => "TRABAJO DE GRADO"
  }

  /** Reads a label back; the inverse of `Label`, so the six labels are pairwise distinct. */
  function ParseTipologia(s: string): (r: Option<Tipologia>)
    ensures r.Some? ==> Label(r.value) == s
    ensures r.None? ==> forall t :: Label(t) != s
    ensures forall t :: Label(t) == s ==> r == Some(t)
  {
    if s == "DISCIPLINAR OPTATIVA" then Some(DisciplinarOptativa)
    else if s == "FUND. OBLIGATORIA" then Some(FundObligatoria)
    else if s == "FUND. OPTATIVA" then Some(FundOptativa)
    else if s == "DISCIPLINAR OBLIGATORIA" then Some(DisciplinarObligatoria)
    else if s == "LIBRE ELECCIÓN" then Some(LibreEleccion)
    else if s == "TRABAJO DE GRADO" then Some(TrabajoGrado)
    else None
  }

  /** `ValidarTipologia`: true exactly for the six labels, compared case-sensitively. */
  function ValidarTipologia(tipo: string): (ok: bool)
    ensures ok <==> exists t :: Label(t) == tipo
  {
    var parsed := ParseTipologia(tipo);
    assert parsed.Some? ==> Label(parsed.value) == tipo;
    || tipo == "DISCIPLINAR OPTATIVA"
    || tipo == "FUND. OBLIGATORIA"
    || tipo == "FUND. OPTATIVA"
    || tipo == "DISCIPLINAR OBLIGATORIA"
    || tipo == "LIBRE ELECCIÓN"
    || tipo == "TRABAJO DE GRADO"
  }

  /** The term-boundary marker and lower- or mixed-case spellings are not tipologías. */
  lemma ValidarRejectsNearMisses()
    ensures !ValidarTipologia("NIVELACIÓN")
    ensures !ValidarTipologia("fund. obligatoria")
    ensures !ValidarTipologia("Libre Elección")
    ensures !ValidarTipologia("")
  {
  }

  /** A character of `sub` that never occurs in `s` rules out `sub` as a substring. */
  lemma AbsentChar(s: string, sub: string, k: nat)
    requires k < |sub| && sub[k] !in s
    ensures !Contains(s, sub)
  {
  }

  lemma PresentAt(s: string, sub: string, i: nat)
    requires OccursAt(s, sub, i)
    ensures Contains(s, sub)
  {
  }

  /**
   `mapearTipologia`: upper-cases the text, then tests keywords in a fixed priority order,
   falling back to LIBRE ELECCIÓN when none occurs.
   */
  function MapTipologia(tipo: string): (t: Tipologia)
    ensures var u := ToUpper(tipo);
            var fundObl := Contains(u, "FUNDAMENTACIÓN OBLIGATORIA") || Contains(u, "FUND. OBLIGATORIA");
            var fundOpt := Contains(u, "FUNDAMENTACIÓN OPTATIVA") || Contains(u, "FUND. OPTATIVA");
            var disObl := Contains(u, "DISCIPLINAR OBLIGATORIA");
            var disOpt := Contains(u, "DISCIPLINAR OPTATIVA");
            var libre := Contains(u, "LIBRE ELECCIÓN");
            var grado := Contains(u, "TRABAJO DE GRADO");
            && (t == FundObligatoria <==> fundObl)
            && (t == FundOptativa <==> !fundObl && fundOpt)
            && (t == DisciplinarObligatoria <==> !fundObl && !fundOpt && disObl)
            && (t == DisciplinarOptativa <==> !fundObl && !fundOpt && !disObl && disOpt)
            && (t == TrabajoGrado <==> !fundObl && !fundOpt && !disObl && !disOpt && !libre && grado)
  {
    var u := ToUpper(tipo);
    if Contains(u, "FUNDAMENTACIÓN OBLIGATORIA") || Contains(u, "FUND. OBLIGATORIA") then FundObligatoria
    else if Contains(u, "FUNDAMENTACIÓN OPTATIVA") || Contains(u, "FUND. OPTATIVA") then FundOptativa
    else if Contains(u, "DISCIPLINAR OBLIGATORIA") then DisciplinarObligatoria
    else if Contains(u, "DISCIPLINAR OPTATIVA") then DisciplinarOptativa
    else if Contains(u, "LIBRE ELECCIÓN") then LibreEleccion
    else if Contains(u, "TRABAJO DE GRADO") then TrabajoGrado
    else LibreEleccion
  }

  /** Whatever the text, the mapper's answer passes `ValidarTipologia`. */
  lemma MapTipologiaIsValid(tipo: string)
    ensures ValidarTipologia(Label(MapTipologia(tipo)))
  {
  }

  /** Mapping a canonical label gives back its own tipología. */
  lemma MapTipologiaOfLabel(t: Tipologia)
    ensures MapTipologia(Label(t)) == t
  {
    match t
    case FundObligatoria => MapFundObligatoria();
    case FundOptativa => MapFundOptativa();
    case DisciplinarObligatoria => MapDisciplinarObligatoria();
    case DisciplinarOptativa => MapDisciplinarOptativa();
    case LibreEleccion => MapLibreEleccion();
    case TrabajoGrado => MapTrabajoGrado();
  }

  lemma MapFundObligatoria()
    ensures MapTipologia(Label(FundObligatoria)) == FundObligatoria
  {
    assert NoLower(Label(FundObligatoria));
    UpperFixed(Label(FundObligatoria));
    PresentAt(Label(FundObligatoria), "FUND. OBLIGATORIA", 0);
  }

  lemma MapFundOptativa()
    ensures MapTipologia(Label(FundOptativa)) == FundOptativa
  {
    FundOptativaUpper();
    FundOptativaKeywords();
    SecondKeyword(Label(FundOptativa));
  }

  lemma FundOptativaUpper()
    ensures ToUpper(Label(FundOptativa)) == Label(FundOptativa)
  {
    assert NoLower(Label(FundOptativa));
    UpperFixed(Label(FundOptativa));
  }

  lemma FundOptativaKeywords()
    ensures !Contains(Label(FundOptativa), "FUNDAMENTACIÓN OBLIGATORIA")
    ensures !Contains(Label(FundOptativa), "FUND. OBLIGATORIA")
    ensures Contains(Label(FundOptativa), "FUND. OPTATIVA")
  {
    var s := Label(FundOptativa);
    AbsentChar(s, "FUNDAMENTACIÓN OBLIGATORIA", 5);
    AbsentChar(s, "FUND. OBLIGATORIA", 7);
    PresentAt(s, "FUND. OPTATIVA", 0);
  }

  /** An upper-case text with no first-rank keyword and an optional-foundation one maps there. */
  lemma SecondKeyword(s: string)
    requires ToUpper(s) == s
    requires !Contains(s, "FUNDAMENTACIÓN OBLIGATORIA") && !Contains(s, "FUND. OBLIGATORIA")
    requires Contains(s, "FUND. OPTATIVA")
    ensures MapTipologia(s) == FundOptativa
  {
  }

  lemma MapDisciplinarObligatoria()
    ensures MapTipologia(Label(DisciplinarObligatoria)) == DisciplinarObligatoria
  {
    assert NoLower(Label(DisciplinarObligatoria));
    UpperFixed(Label(DisciplinarObligatoria));
    var s := Label(DisciplinarObligatoria);
    AbsentChar(s, "FUNDAMENTACIÓN OBLIGATORIA", 0);
    AbsentChar(s, "FUND. OBLIGATORIA", 0);
    AbsentChar(s, "FUNDAMENTACIÓN OPTATIVA", 0);
    AbsentChar(s, "FUND. OPTATIVA", 0);
    PresentAt(s, "DISCIPLINAR OBLIGATORIA", 0);
  }

  lemma MapDisciplinarOptativa()
    ensures MapTipologia(Label(DisciplinarOptativa)) == DisciplinarOptativa
  {
    assert NoLower(Label(DisciplinarOptativa));
    UpperFixed(Label(DisciplinarOptativa));
    var s := Label(DisciplinarOptativa);
    AbsentChar(s, "FUNDAMENTACIÓN OBLIGATORIA", 0);
    AbsentChar(s, "FUND. OBLIGATORIA", 0);
    AbsentChar(s, "FUNDAMENTACIÓN OPTATIVA", 0);
    AbsentChar(s, "FUND. OPTATIVA", 0);
    PresentAt(s, "DISCIPLINAR OPTATIVA", 0);
  }

  lemma MapLibreEleccion()
    ensures MapTipologia(Label(LibreEleccion)) == LibreEleccion
  {
    assert NoLower(Label(LibreEleccion));
    UpperFixed(Label(LibreEleccion));
    var s := Label(LibreEleccion);
    AbsentChar(s, "FUNDAMENTACIÓN OBLIGATORIA", 0);
    AbsentChar(s, "FUND. OBLIGATORIA", 0);
    AbsentChar(s, "FUNDAMENTACIÓN OPTATIVA", 0);
    AbsentChar(s, "FUND. OPTATIVA", 0);
    AbsentChar(s, "DISCIPLINAR OBLIGATORIA", 0);
    AbsentChar(s, "DISCIPLINAR OPTATIVA", 0);
    PresentAt(s, "LIBRE ELECCIÓN", 0);
  }

  lemma MapTrabajoGrado()
    ensures MapTipologia(Label(TrabajoGrado)) == TrabajoGrado
  {
    var s := Label(TrabajoGrado);
    assert NoLower(s);
    UpperFixed(s);
    TrabajoGradoEarlierAbsent(s);
    TrabajoGradoLaterAbsent(s);
    PresentAt(s, "TRABAJO DE GRADO", 0);
  }

  lemma TrabajoGradoEarlierAbsent(s: string)
    requires s == Label(TrabajoGrado)
    ensures !Contains(s, "FUNDAMENTACIÓN OBLIGATORIA") && !Contains(s, "FUND. OBLIGATORIA")
    ensures !Contains(s, "FUNDAMENTACIÓN OPTATIVA") && !Contains(s, "FUND. OPTATIVA")
  {
    AbsentChar(s, "FUNDAMENTACIÓN OBLIGATORIA", 0);
    AbsentChar(s, "FUND. OBLIGATORIA", 0);
    AbsentChar(s, "FUNDAMENTACIÓN OPTATIVA", 0);
    AbsentChar(s, "FUND. OPTATIVA", 0);
  }

  lemma TrabajoGradoLaterAbsent(s: string)
    requires s == Label(TrabajoGrado)
    ensures !Contains(s, "DISCIPLINAR OBLIGATORIA") && !Contains(s, "DISCIPLINAR OPTATIVA")
    ensures !Contains(s, "LIBRE ELECCIÓN")
  {
    AbsentChar(s, "DISCIPLINAR OBLIGATORIA", 2);
    AbsentChar(s, "DISCIPLINAR OPTATIVA", 2);
    AbsentChar(s, "LIBRE ELECCIÓN", 0);
  }
}
