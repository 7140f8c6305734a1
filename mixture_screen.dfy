/** The data side of the mixture screen: `_get_inputs` reading the form, pre-filling
    the form from an availability summary row (`_fill_inputs_binary`), and the
    experimental-data overlays of `on_plot_density` and `on_plot_vp`. */
module MixtureScreen {
  import opened Wrappers
  import opened Sequences
  import opened Series
  import opened Aggregation
  import opened ExperimentalData
  import opened FormText
  import opened KijMatrix

  /** The form shows pressure in Pa; the datasets store kPa. */
  function KPaToPa(p: real): real
  {
    p * 1000.0
  }

  function PaToKPa(p: real): real
  {
    p / 1000.0
  }

  /** Over the reals the two conversions undo each other. */
  lemma PressureUnitsRoundTrip(p: real)
    ensures PaToKPa(KPaToPa(p)) == p && KPaToPa(PaToKPa(p)) == p
  {
  }

  /** What `_get_inputs` has read before it builds the kij matrix. */
  datatype FormValues = FormValues(smiles: seq<string>, fractions: seq<real>, tMin: real, tMax: real)

  /** The checks `_get_inputs` makes, in its order: every component converts to
      SMILES, every fraction token is a number, the two counts agree, and both
      temperatures are numbers. */
  function ReadForm(smilesText: string, fractionsText: string, tMinText: string, tMaxText: string,
                    toSmiles: string -> Option<string>, parse: string -> Option<real>)
    : (r: Result<FormValues, InputError>)
    ensures r.Ok? <==>
      && ConvertAll(Tokens(smilesText), toSmiles).Ok?
      && ParseAll(Tokens(fractionsText), parse).Some?
      && |Tokens(smilesText)| == |Tokens(fractionsText)|
      && parse(tMinText).Some? && parse(tMaxText).Some?
    ensures r.Ok? ==>
      && |r.value.smiles| == |r.value.fractions| == |Tokens(smilesText)|
      && r.value.smiles == ConvertAll(Tokens(smilesText), toSmiles).value
      && r.value.fractions == ParseAll(Tokens(fractionsText), parse).value
      && Some(r.value.tMin) == parse(tMinText) && Some(r.value.tMax) == parse(tMaxText)
    ensures ConvertAll(Tokens(smilesText), toSmiles).Err? ==>
      r == Err(InvalidComponent(Tokens(smilesText)[ConvertAll(Tokens(smilesText), toSmiles).error]))
    ensures ConvertAll(Tokens(smilesText), toSmiles).Ok? && ParseAll(Tokens(fractionsText), parse).None? ==>
      r == Err(NonNumericFractions)
    ensures && ConvertAll(Tokens(smilesText), toSmiles).Ok? && ParseAll(Tokens(fractionsText), parse).Some?
            && |Tokens(smilesText)| != |Tokens(fractionsText)| ==>
      r == Err(CountMismatch(|Tokens(smilesText)|, |Tokens(fractionsText)|))
    ensures && ConvertAll(Tokens(smilesText), toSmiles).Ok? && ParseAll(Tokens(fractionsText), parse).Some?
            && |Tokens(smilesText)| == |Tokens(fractionsText)|
            && (parse(tMinText).None? || parse(tMaxText).None?) ==>
      r == Err(NonNumericTemperature)
  {
    var names := Tokens(smilesText);
    match ConvertAll(names, toSmiles)
    case Err(k) => Err(InvalidComponent(names[k]))
    case Ok(smiles) =>
      match ParseAll(Tokens(fractionsText), parse)
      case None => Err(NonNumericFractions)
      case Some(fractions) =>
        if |smiles| != |fractions| then Err(CountMismatch(|smiles|, |fractions|))
        else if parse(tMinText).None? || parse(tMaxText).None? then Err(NonNumericTemperature)
        else Ok(FormValues(smiles, fractions, parse(tMinText).value, parse(tMaxText).value))
  }

  /** What `_get_inputs` returns when nothing was raised. */
  datatype Inputs = Inputs(values: FormValues, kij: array2<real>)

  /** The guard at the top of each plot handler: components, fractions, a kij matrix
      and both temperatures must be truthy, so a temperature of 0.0 counts as missing. */
  predicate ReadyToPlot(v: FormValues)
  {
    |v.smiles| > 0 && |v.fractions| > 0 && v.tMin != 0.0 && v.tMax != 0.0
  }

  /** The pressure, in kPa, that `on_plot_density` looks experimental data up at. */
  function LookupPressure(pressureText: string, parse: string -> Option<real>): (p: Option<real>)
    ensures p.Some? <==> parse(pressureText).Some?
    ensures p.Some? ==> KPaToPa(p.value) == parse(pressureText).value
  {
    match parse(pressureText)
    case None => None
    case Some(pa) => Some(PaToKPa(pa))
  }

  /** The experimental overlay of `on_plot_density`: a form that fails the guard
      returns before anything else, with no overlay and no error; otherwise a
      non-numeric pressure is an error, and a binary mixture is looked up at the pressure in kPa and the first
      fraction, and a failed or empty lookup gives no overlay. */
  function DensityOverlay(v: FormValues, pressureText: string, parse: string -> Option<real>,
                          resolve: Resolver, rows: seq<Row>)
    : (r: Result<Option<seq<Point<Number>>>, InputError>)
    ensures !ReadyToPlot(v) ==> r == Ok(None)
    ensures r.Err? <==> ReadyToPlot(v) && parse(pressureText).None?
    ensures r.Err? ==> r.error == NonNumericPressure
    ensures r.Ok? && r.value.Some? <==>
      && ReadyToPlot(v) && |v.smiles| == 2 && parse(pressureText).Some?
      && RetrieveRhoBinary(v.smiles, LookupPressure(pressureText, parse).value, v.fractions[0], resolve, rows).Ok?
      && RetrieveRhoBinary(v.smiles, LookupPressure(pressureText, parse).value, v.fractions[0], resolve, rows).value.Some?
    ensures r.Ok? && r.value.Some? ==>
      Ok(r.value) == RetrieveRhoBinary(v.smiles, LookupPressure(pressureText, parse).value, v.fractions[0], resolve, rows)
  {
    if !ReadyToPlot(v) then Ok(None)
    else match LookupPressure(pressureText, parse)
    case None => Err(NonNumericPressure)
    case Some(p) =>
      if |v.smiles| != 2 then Ok(None)
      else
        match RetrieveRhoBinary(v.smiles, p, v.fractions[0], resolve, rows)
        case Ok(Some(points)) => Ok(Some(points))
        case _ => Ok(None)
  }

  function BubblePointInPa(p: Point<real>): Point<real>
  {
    Point(p.t, KPaToPa(p.value))
  }

  /** The experimental overlay of `on_plot_vp`: after the guard, bubble pressures of
      a binary mixture at the first fraction, converted from kPa to Pa; a failed or empty lookup gives
      no overlay. */
  function BubbleOverlay(v: FormValues, resolve: Resolver, rows: seq<Row>): (r: Option<seq<Point<real>>>)
    ensures r.Some? <==>
      && ReadyToPlot(v) && |v.smiles| == 2
      && RetrieveBubble(v.smiles, v.fractions[0], resolve, rows).Ok?
      && RetrieveBubble(v.smiles, v.fractions[0], resolve, rows).value.Some?
    ensures r.Some? ==>
      var kpa := RetrieveBubble(v.smiles, v.fractions[0], resolve, rows).value.value;
      && |r.value| == |kpa| > 0
      && forall k :: 0 <= k < |kpa| ==>
           r.value[k].t == kpa[k].t && PaToKPa(r.value[k].value) == kpa[k].value
  {
    if !ReadyToPlot(v) || |v.smiles| != 2 then None
    else
      match RetrieveBubble(v.smiles, v.fractions[0], resolve, rows)
      case Ok(Some(points)) => Some(Map(points, BubblePointInPa))
      case _ => None
  }

  /** The fraction text the pre-fill writes: `f"{x1:.2f} {1.0 - x1:.2f}"`. */
  function FractionsText(x1: real, fixed2: real -> string): string
  {
    fixed2(x1) + " " + fixed2(1.0 - x1)
  }

  /** The pre-filled fraction text reads back as exactly two fractions, so it matches
      a two-component form. */
  lemma PrefilledFractionsRead(x1: real, fixed2: real -> string)
    requires IsToken(fixed2(x1)) && IsToken(fixed2(1.0 - x1))
    ensures Tokens(FractionsText(x1, fixed2)) == [fixed2(x1), fixed2(1.0 - x1)]
  {
    TokensAppend(fixed2(x1), fixed2(1.0 - x1));
    TokensOfOne(fixed2(x1));
    TokensOfOne(fixed2(1.0 - x1));
  }

  /** A pressure pre-filled from a summary row in kPa, written in Pa and read back by
      a `float` that inverts `str`, is looked up at the original kPa value. */
  lemma PrefilledPressureLookup(p: real, str: real -> string, parse: string -> Option<real>)
    requires parse(str(KPaToPa(p))) == Some(KPaToPa(p))
    ensures LookupPressure(str(KPaToPa(p)), parse) == Some(p)
  {
    PressureUnitsRoundTrip(p);
  }

  /** A bubble-point row at x_c1 = 0.204 is summarised in the isopleth 0.20, but the
      lookup at the pre-filled composition 0.20 keeps only x_c1 strictly within 0.001
      of it, so the row is not retrieved. */
  lemma IsoplethPrefillMissesRow()
    ensures var row := Row("A", "B", 0.204, 0.796, 0.0, 0.0, 300.0, 0.0, 0.0, 50.0, 0.0);
      var resolve: Resolver := s => Some(s);
      && BubbleSample(Normalized(row, XC1(row, "A"))).key == [0.2]
      && RetrieveBubble(["A", "B"], 0.2, resolve, [row]) == Ok(None)
  {
    var row := Row("A", "B", 0.204, 0.796, 0.0, 0.0, 300.0, 0.0, 0.0, 50.0, 0.0);
    var resolve: Resolver := s => Some(s);
    IsoplethExample();
    assert ResolvePair(["A", "B"], resolve) == Ok(("A", "B"));
    assert !SelectedForBubble(row, "A", "B", 0.2);
  }

  /** The zero matrix `_get_inputs` allocates, filled by `_set_kij_values`; symmetric
      with a zero diagonal. */
  method NewKijMatrix(kijText: string, n: nat, parse: string -> Option<real>)
    returns (r: Result<array2<real>, InputError>)
    ensures PlanKij(kijText, n, parse).Err? ==> r == Err(PlanKij(kijText, n, parse).error)
    ensures PlanKij(kijText, n, parse).Ok? ==>
      && r.Ok? && fresh(r.value) && r.value.Length0 == n && r.value.Length1 == n
      && forall a, b :: 0 <= a < n && 0 <= b < n ==> r.value[a, b] == Entry(PlanKij(kijText, n, parse).value, n, a, b, 0.0)
    ensures r.Ok? ==>
      && r.value.Length0 == n && r.value.Length1 == n
      && forall a, b :: 0 <= a < n && 0 <= b < n ==> r.value[a, a] == 0.0 && r.value[a, b] == r.value[b, a]
  {
    var m := new real[n, n]((i, j) => 0.0);
    var err := SetKijValues(kijText, n, m, parse);
    if err.Some? {
      return Err(err.value);
    }
    var plan := PlanKij(kijText, n, parse);
    forall a, b | 0 <= a < n && 0 <= b < n ensures m[a, a] == 0.0 && m[a, b] == m[b, a] {
      EntryShape(plan.value, n, a, b, 0.0, 0.0);
    }
    r := Ok(m);
  }

  /** The mixture form: the text fields the data logic reads and writes. */
  class MixtureLayout {
    var smilesText: string
    var fractionsText: string
    var tempMinText: string
    var tempMaxText: string
    var kijText: string
    var pressureText: string

    constructor (smiles: string, fractions: string, tMin: string, tMax: string, kij: string, pressure: string)
      ensures smilesText == smiles && fractionsText == fractions
      ensures tempMinText == tMin && tempMaxText == tMax
      ensures kijText == kij && pressureText == pressure
    {
      smilesText, fractionsText := smiles, fractions;
      tempMinText, tempMaxText := tMin, tMax;
      kijText, pressureText := kij, pressure;
    }

    /** `_get_inputs`: the form's values and a fresh n-by-n kij matrix, all zeros and
        then filled from the stripped kij text; or the first error raised. The matrix
        is symmetric with a zero diagonal. */
    method GetInputs(toSmiles: string -> Option<string>, parse: string -> Option<real>)
      returns (r: Result<Inputs, InputError>)
      ensures var read := ReadForm(smilesText, fractionsText, tempMinText, tempMaxText, toSmiles, parse);
        && (read.Err? ==> r == Err(read.error))
        && (read.Ok? ==>
              var n := |read.value.smiles|;
              var plan := PlanKij(Strip(kijText), n, parse);
              && (plan.Err? ==> r == Err(plan.error))
              && (plan.Ok? ==>
                    && r.Ok? && r.value.values == read.value
                    && fresh(r.value.kij) && r.value.kij.Length0 == n && r.value.kij.Length1 == n
                    && forall a, b :: 0 <= a < n && 0 <= b < n ==>
                         r.value.kij[a, b] == Entry(plan.value, n, a, b, 0.0)))
      ensures r.Ok? ==>
        var m := r.value.kij;
        && m.Length0 == m.Length1 == |r.value.values.smiles|
        && forall a, b :: 0 <= a < m.Length0 && 0 <= b < m.Length0 ==> m[a, a] == 0.0 && m[a, b] == m[b, a]
    {
      var read := ReadForm(smilesText, fractionsText, tempMinText, tempMaxText, toSmiles, parse);
      if read.Err? {
        return Err(read.error);
      }
      var n := |read.value.smiles|;
      var kij := NewKijMatrix(Strip(kijText), n, parse);
      if kij.Err? {
        return Err(kij.error);
      }
      r := Ok(Inputs(read.value, kij.value));
    }

    /** `_fill_inputs_binary`: every given value is written to its field; the pressure
        from kPa to Pa, the composition as both fractions with two decimals. */
    method FillInputsBinary(pressure: Option<real>, tMin: Option<real>, tMax: Option<real>, x1: Option<real>,
                            str: real -> string, fixed2: real -> string)
      modifies this
      ensures pressureText == (if pressure.Some? then str(KPaToPa(pressure.value)) else old(pressureText))
      ensures tempMinText == (if tMin.Some? then str(tMin.value) else old(tempMinText))
      ensures tempMaxText == (if tMax.Some? then str(tMax.value) else old(tempMaxText))
      ensures fractionsText == (if x1.Some? then FractionsText(x1.value, fixed2) else old(fractionsText))
      ensures smilesText == old(smilesText) && kijText == old(kijText)
    {
      if pressure.Some? {
        pressureText := str(KPaToPa(pressure.value));
      }
      if tMin.Some? {
        tempMinText := str(tMin.value);
      }
      if tMax.Some? {
        tempMaxText := str(tMax.value);
      }
      if x1.Some? {
        fractionsText := FractionsText(x1.value, fixed2);
      }
    }
  }
}
