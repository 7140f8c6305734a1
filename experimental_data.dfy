/** The experimental-data lookups of the application: selecting, for a pure
    component or a binary pair, the measured rows of a dataset, re-expressing
    compositions in the caller's component order, filtering by pressure and
    composition, converting units, and summarising what data exists. */
module ExperimentalData {
  import opened Wrappers
  import opened Sequences
  import opened Series
  import opened Aggregation

  /** A canonical component identifier (an InChI string). */
  type Inchi = string

  /** One dataset row. Pure datasets use slot 1 only. The two component slots of a
      binary row are in no particular order. */
  datatype Row = Row(
    inchi1: Inchi, inchi2: Inchi,
    moleFractionC1: real, moleFractionC2: real,
    molweight1: real, molweight2: real,
    tK: real, pKPa: real, rho: real, bubblePointKPa: real, vpKPa: real)

  /** The identifier conversion the lookups call for every component
      (`smilestoinchi`); `None` is its `ValueError`. */
  type Resolver = string -> Option<Inchi>

  datatype DataError = InvalidIdentifier(input: string)

  /** A float result: `NotFinite` stands for the infinity or NaN that a division by
      zero gives. */
  datatype Number = Finite(value: real) | NotFinite

  function Divide(n: real, d: real): (q: Number)
    ensures q.Finite? <==> d != 0.0
    ensures q.Finite? ==> q.value * d == n
  {
    if d == 0.0 then NotFinite else Finite(n / d)
  }

  /** The composition tolerance of the binary lookups. */
  const TolX: real := 0.001

  // ---------------------------------------------------------------------------
  // Units and derived quantities
  // ---------------------------------------------------------------------------

  /** Molar density of a pure row, mol/m^3 from kg/m^3 and g/mol. */
  function PureMolarDensity(r: Row): Number
  {
    Divide(r.rho * 1000.0, r.molweight1)
  }

  /** Molar density of a binary row, weighting the stored molecular weights by the
      stored slot-1 fraction (slot 2 gets its complement). */
  function BinaryMolarDensity(r: Row): Number
  {
    Divide(r.rho * 1000.0, WeightedMolWeight(r))
  }

  /** The mixture's molecular weight: the stored weights averaged by the stored
      slot-1 fraction and its complement. */
  function WeightedMolWeight(r: Row): real
  {
    r.molweight1 * r.moleFractionC1 + r.molweight2 * (1.0 - r.moleFractionC1)
  }

  /** The same measurement with its two component slots stored the other way round. */
  function SwapSlots(r: Row): Row
  {
    r.(inchi1 := r.inchi2, inchi2 := r.inchi1,
       moleFractionC1 := r.moleFractionC2, moleFractionC2 := r.moleFractionC1,
       molweight1 := r.molweight2, molweight2 := r.molweight1)
  }

  /** Stored fractions that sum to one. */
  predicate FractionsSumToOne(r: Row)
  {
    r.moleFractionC1 + r.moleFractionC2 == 1.0
  }

  /** When the stored fractions sum to one, neither the weighted molecular weight nor
      the molar density depends on the order in which the two components were stored. */
  lemma MolarDensitySlotInvariant(r: Row)
    requires FractionsSumToOne(r)
    ensures WeightedMolWeight(SwapSlots(r)) == WeightedMolWeight(r)
    ensures BinaryMolarDensity(SwapSlots(r)) == BinaryMolarDensity(r)
  {
    assert 1.0 - r.moleFractionC2 == r.moleFractionC1;
    assert 1.0 - r.moleFractionC1 == r.moleFractionC2;
  }

  /** Fractions (0.3, 0.7) with molecular weights (18, 46): the weighted molecular
      weight is 0.3 * 18 + 0.7 * 46 in either storage order. */
  lemma MolarDensityExample(rho: real)
    ensures var r := Row("A", "B", 0.3, 0.7, 18.0, 46.0, 300.0, 100.0, rho, 0.0, 0.0);
      && BinaryMolarDensity(r) == Finite(rho * 1000.0 / (0.3 * 18.0 + 0.7 * 46.0))
      && BinaryMolarDensity(SwapSlots(r)) == BinaryMolarDensity(r)
  {
  }

  // ---------------------------------------------------------------------------
  // Matching and remapping a binary pair
  // ---------------------------------------------------------------------------

  /** The row stores the pair `{i1, i2}`, in either slot order. */
  predicate MatchesPair(r: Row, i1: Inchi, i2: Inchi)
  {
    (r.inchi1 == i1 && r.inchi2 == i2) || (r.inchi1 == i2 && r.inchi2 == i1)
  }

  /** `x_c1`: the stored mole fraction of the caller's first component. */
  function XC1(r: Row, i1: Inchi): real
  {
    if r.inchi1 == i1 then r.moleFractionC1 else r.moleFractionC2
  }

  /** A matched row with its `x_c1` column. */
  datatype Normalized = Normalized(row: Row, xC1: real)

  /** The rows storing the pair `{i1, i2}`, in dataset order. */
  function MatchPair(rows: seq<Row>, i1: Inchi, i2: Inchi): (m: seq<Row>)
    ensures forall k :: 0 <= k < |m| ==> MatchesPair(m[k], i1, i2) && m[k] in rows
    ensures forall k :: 0 <= k < |rows| && MatchesPair(rows[k], i1, i2) ==> rows[k] in m
  {
    Filter(rows, PairSelector(i1, i2))
  }

  function PairSelector(i1: Inchi, i2: Inchi): Row -> bool
  {
    (row: Row) => MatchesPair(row, i1, i2)
  }

  function NormalizedBy(i1: Inchi): Row -> Normalized
  {
    (r: Row) => Normalized(r, XC1(r, i1))
  }

  /** `_filter_norm`: the matched rows, each with its `x_c1`. */
  function FilterNorm(rows: seq<Row>, i1: Inchi, i2: Inchi): (ns: seq<Normalized>)
    ensures |ns| == |MatchPair(rows, i1, i2)|
    ensures forall k :: 0 <= k < |ns| ==> ns[k].row == MatchPair(rows, i1, i2)[k]
    ensures forall k :: 0 <= k < |ns| ==>
              && MatchesPair(ns[k].row, i1, i2) && ns[k].row in rows
              && ns[k].xC1 == (if ns[k].row.inchi1 == i1 then ns[k].row.moleFractionC1
                               else ns[k].row.moleFractionC2)
  {
    Map(MatchPair(rows, i1, i2), NormalizedBy(i1))
  }

  /** Matching is symmetric in the caller's two components. */
  lemma MatchPairOrderInvariant(rows: seq<Row>, i1: Inchi, i2: Inchi)
    ensures MatchPair(rows, i1, i2) == MatchPair(rows, i2, i1)
  {
    FilterCongruent(rows, PairSelector(i1, i2), PairSelector(i2, i1));
  }

  /** With distinct components, `x_c1` is the fraction stored in the slot that holds
      the caller's first component, whichever slot that is. */
  lemma RemapFollowsCallerOrder(r: Row, i1: Inchi, i2: Inchi)
    requires i1 != i2 && MatchesPair(r, i1, i2)
    ensures r.inchi1 == i1 ==> XC1(r, i1) == r.moleFractionC1
    ensures r.inchi2 == i1 ==> XC1(r, i1) == r.moleFractionC2
    ensures XC1(SwapSlots(r), i1) == XC1(r, i1) && MatchesPair(SwapSlots(r), i1, i2)
  {
  }

  /** Querying the pair in the other order gives the complementary composition. */
  lemma RemapQuerySwap(r: Row, i1: Inchi, i2: Inchi)
    requires i1 != i2 && MatchesPair(r, i1, i2) && FractionsSumToOne(r)
    ensures XC1(r, i2) == 1.0 - XC1(r, i1)
  {
  }

  /** A row stored as (B, A, 0.6, 0.4) and queried as (A, B) has `x_c1` = 0.4. */
  lemma RemapExample()
    ensures var ns := FilterNorm([Row("B", "A", 0.6, 0.4, 0.0, 0.0, 350.0, 100.0, 800.0, 0.0, 0.0)], "A", "B");
      |ns| == 1 && ns[0].xC1 == 0.4
  {
    var r := Row("B", "A", 0.6, 0.4, 0.0, 0.0, 350.0, 100.0, 800.0, 0.0, 0.0);
    assert MatchPair([r], "A", "B") == [r];
  }

  // ---------------------------------------------------------------------------
  // Tolerance windows
  // ---------------------------------------------------------------------------

  /** The strict composition window `x1 - TolX < x < x1 + TolX`. */
  predicate InWindow(x: real, x1: real)
  {
    x1 - TolX < x < x1 + TolX
  }

  /** Both edges of the window are excluded; every point strictly inside is kept. */
  lemma WindowBoundary(x1: real, d: real)
    ensures !InWindow(x1 + TolX, x1) && !InWindow(x1 - TolX, x1)
    ensures -TolX < d < TolX <==> InWindow(x1 + d, x1)
  {
  }

  /** The window is symmetric under passing to complementary fractions. */
  lemma WindowComplement(x: real, x1: real)
    ensures InWindow(x, x1) <==> InWindow(1.0 - x, 1.0 - x1)
  {
  }

  /** `MatchPair` and `FilterNorm` unfold one row at a time. */
  lemma FilterNormCons(rows: seq<Row>, i1: Inchi, i2: Inchi)
    requires rows != []
    ensures FilterNorm(rows, i1, i2) ==
      (if MatchesPair(rows[0], i1, i2) then [Normalized(rows[0], XC1(rows[0], i1))] else [])
      + FilterNorm(rows[1..], i1, i2)
  {
    var h := if MatchesPair(rows[0], i1, i2) then [rows[0]] else [];
    assert rows == [rows[0]] + rows[1..];
    FilterCons(rows[0], rows[1..], PairSelector(i1, i2));
    MapAppend(h, MatchPair(rows[1..], i1, i2), NormalizedBy(i1));
  }

  // ---------------------------------------------------------------------------
  // Pure-component lookups
  // ---------------------------------------------------------------------------

  /** The rows of one pure component, in dataset order. */
  function PureRows(rows: seq<Row>, i: Inchi): (m: seq<Row>)
    ensures forall k :: 0 <= k < |m| ==> m[k].inchi1 == i && m[k] in rows
    ensures forall k :: 0 <= k < |rows| && rows[k].inchi1 == i ==> rows[k] in m
  {
    Filter(rows, (row: Row) => row.inchi1 == i)
  }

  function PureDensityPoint(r: Row): Point<Number>
  {
    Point(r.tK, PureMolarDensity(r))
  }

  /** `retrieve_rho_pure_data`: (T, molar density) for every row of the component
      measured at exactly `pressure`, in dataset order. */
  function RetrieveRhoPure(smiles: string, pressure: real, resolve: Resolver, rows: seq<Row>)
    : (r: Result<seq<Point<Number>>, DataError>)
    ensures resolve(smiles).None? <==> r.Err?
    ensures r.Err? ==> r.error == InvalidIdentifier(smiles)
    ensures r.Ok? ==> var i := resolve(smiles).value;
      && (forall k :: 0 <= k < |rows| && rows[k].inchi1 == i && rows[k].pKPa == pressure ==>
            PureDensityPoint(rows[k]) in r.value)
      && (forall q :: q in r.value ==>
            exists row :: row in rows && row.inchi1 == i && row.pKPa == pressure && q == PureDensityPoint(row))
  {
    match resolve(smiles)
    case None => Err(InvalidIdentifier(smiles))
    case Some(i) =>
      var kept := Filter(rows, (row: Row) => row.inchi1 == i && row.pKPa == pressure);
      var pts := Map(kept, PureDensityPoint);
      assert forall q :: q in pts ==> exists k :: 0 <= k < |kept| && q == PureDensityPoint(kept[k]);
      Ok(pts)
  }

  function VaporPressurePoint(r: Row): Point<real>
  {
    Point(r.tK, r.vpKPa)
  }

  /** `retrieve_vp_pure_data`: (T, vapour pressure) for every row of the component
      with `tMin <= T <= tMax` (both bounds included), in dataset order. */
  function RetrieveVpPure(smiles: string, tMin: real, tMax: real, resolve: Resolver, rows: seq<Row>)
    : (r: Result<seq<Point<real>>, DataError>)
    ensures resolve(smiles).None? <==> r.Err?
    ensures r.Err? ==> r.error == InvalidIdentifier(smiles)
    ensures r.Ok? ==> var i := resolve(smiles).value;
      && (forall k :: 0 <= k < |rows| && rows[k].inchi1 == i && tMin <= rows[k].tK <= tMax ==>
            VaporPressurePoint(rows[k]) in r.value)
      && (forall q :: q in r.value ==>
            && tMin <= q.t <= tMax
            && exists row :: row in rows && row.inchi1 == i && q == VaporPressurePoint(row))
  {
    match resolve(smiles)
    case None => Err(InvalidIdentifier(smiles))
    case Some(i) =>
      var kept := Filter(rows, (row: Row) => row.inchi1 == i && row.tK >= tMin && row.tK <= tMax);
      var pts := Map(kept, VaporPressurePoint);
      assert forall q :: q in pts ==> exists k :: 0 <= k < |kept| && q == VaporPressurePoint(kept[k]);
      Ok(pts)
  }

  function PureDensitySample(r: Row): Sample
  {
    Sample([r.pKPa], r.tK)
  }

  /** What `retrieve_available_data_pure` returns: the density groups per pressure,
      and the temperature range of the vapour-pressure data; `None` where the
      component has no rows (or its identifier cannot be resolved). */
  datatype PureAvailability = PureAvailability(density: Option<seq<Group>>, vpRange: Option<Range>)

  function Temperature(r: Row): real
  {
    r.tK
  }

  /** The temperatures of the component's vapour-pressure rows, in dataset order. */
  function PureTemperatures(vpRows: seq<Row>, i: Inchi): seq<real>
  {
    Map(PureRows(vpRows, i), Temperature)
  }

  /** The temperatures listed are exactly those of the component's rows. */
  lemma PureTemperaturesExact(vpRows: seq<Row>, i: Inchi)
    ensures forall k :: 0 <= k < |vpRows| && vpRows[k].inchi1 == i ==> vpRows[k].tK in PureTemperatures(vpRows, i)
    ensures forall t :: t in PureTemperatures(vpRows, i) ==>
      exists k :: 0 <= k < |vpRows| && vpRows[k].inchi1 == i && vpRows[k].tK == t
  {
    var vf := PureRows(vpRows, i);
    var ts := PureTemperatures(vpRows, i);
    forall k | 0 <= k < |vpRows| && vpRows[k].inchi1 == i ensures vpRows[k].tK in ts {
      var j :| 0 <= j < |vf| && vf[j] == vpRows[k];
      assert ts[j] == vpRows[k].tK;
    }
    forall t | t in ts ensures exists k :: 0 <= k < |vpRows| && vpRows[k].inchi1 == i && vpRows[k].tK == t {
      var j :| 0 <= j < |ts| && ts[j] == t;
      var k :| 0 <= k < |vpRows| && vpRows[k] == vf[j];
    }
  }

  /** The temperature range of the component's vapour-pressure rows: both ends are
      measured temperatures and every row lies within it. */
  function PureVpRange(vpRows: seq<Row>, i: Inchi): (r: Option<Range>)
    ensures r.Some? <==> exists k :: 0 <= k < |vpRows| && vpRows[k].inchi1 == i
    ensures r.Some? ==>
      && (forall k :: 0 <= k < |vpRows| && vpRows[k].inchi1 == i ==> r.value.lo <= vpRows[k].tK <= r.value.hi)
      && (exists k :: 0 <= k < |vpRows| && vpRows[k].inchi1 == i && vpRows[k].tK == r.value.lo)
      && (exists k :: 0 <= k < |vpRows| && vpRows[k].inchi1 == i && vpRows[k].tK == r.value.hi)
  {
    PureTemperaturesExact(vpRows, i);
    var ts := PureTemperatures(vpRows, i);
    if |ts| > 0 then Some(RangeOf(ts)) else None
  }

  /** `retrieve_available_data_pure`. */
  function RetrieveAvailablePure(smiles: string, resolve: Resolver, rhoRows: seq<Row>, vpRows: seq<Row>)
    : (r: PureAvailability)
    ensures resolve(smiles).None? ==> r == PureAvailability(None, None)
    ensures resolve(smiles).Some? ==> var i := resolve(smiles).value;
      && (r.density.Some? <==> exists k :: 0 <= k < |rhoRows| && rhoRows[k].inchi1 == i)
      && (r.density.Some? ==> Summarizes(r.density.value, Map(PureRows(rhoRows, i), PureDensitySample)))
      && r.vpRange == PureVpRange(vpRows, i)
  {
    match resolve(smiles)
    case None => PureAvailability(None, None)
    case Some(i) =>
      var rf := PureRows(rhoRows, i);
      var density := if |rf| > 0 then Some(Summarize(Map(rf, PureDensitySample))) else None;
      PureAvailability(density, PureVpRange(vpRows, i))
  }

  // ---------------------------------------------------------------------------
  // Binary lookups
  // ---------------------------------------------------------------------------

  /** The two identifiers of a binary query, resolved first to last. */
  function ResolvePair(smiles: seq<string>, resolve: Resolver): (r: Result<(Inchi, Inchi), DataError>)
    requires |smiles| == 2
    ensures r.Ok? <==> resolve(smiles[0]).Some? && resolve(smiles[1]).Some?
    ensures r.Ok? ==> r.value == (resolve(smiles[0]).value, resolve(smiles[1]).value)
    ensures r.Err? ==> r.error == InvalidIdentifier(if resolve(smiles[0]).None? then smiles[0] else smiles[1])
  {
    match resolve(smiles[0])
    case None => Err(InvalidIdentifier(smiles[0]))
    case Some(i1) =>
      match resolve(smiles[1])
      case None => Err(InvalidIdentifier(smiles[1]))
      case Some(i2) => Ok((i1, i2))
  }

  /** A row `retrieve_rho_binary_data` keeps: it stores the pair, was measured at
      exactly `pressure`, and its `x_c1` lies strictly inside the window around `x1`. */
  predicate SelectedForDensity(r: Row, i1: Inchi, i2: Inchi, pressure: real, x1: real)
  {
    MatchesPair(r, i1, i2) && r.pKPa == pressure && InWindow(XC1(r, i1), x1)
  }

  function DensitySelector(i1: Inchi, i2: Inchi, pressure: real, x1: real): Row -> bool
  {
    (row: Row) => SelectedForDensity(row, i1, i2, pressure, x1)
  }

  /** The density pipeline as the source writes it: match and remap, then filter
      by pressure and composition window. */
  function DensityRows(rows: seq<Row>, i1: Inchi, i2: Inchi, pressure: real, x1: real): seq<Row>
  {
    Map(Filter(FilterNorm(rows, i1, i2), (n: Normalized) => n.row.pKPa == pressure && InWindow(n.xC1, x1)),
        (n: Normalized) => n.row)
  }

  /** The pipeline keeps exactly the selected rows, in dataset order. */
  lemma {:induction false} DensityRowsSelect(rows: seq<Row>, i1: Inchi, i2: Inchi, pressure: real, x1: real)
    ensures DensityRows(rows, i1, i2, pressure, x1) == Filter(rows, DensitySelector(i1, i2, pressure, x1))
  {
    if rows != [] {
      DensityRowsSelect(rows[1..], i1, i2, pressure, x1);
      FilterNormCons(rows, i1, i2);
      var rest := FilterNorm(rows[1..], i1, i2);
      var keep := (n: Normalized) => n.row.pKPa == pressure && InWindow(n.xC1, x1);
      if MatchesPair(rows[0], i1, i2) {
        var n0 := Normalized(rows[0], XC1(rows[0], i1));
        assert ([n0] + rest)[1..] == rest;
        if keep(n0) {
          assert Filter([n0] + rest, keep) == [n0] + Filter(rest, keep);
          assert ([n0] + Filter(rest, keep))[1..] == Filter(rest, keep);
        }
      }
    }
  }

  function DensityPoint(r: Row): Point<Number>
  {
    Point(r.tK, BinaryMolarDensity(r))
  }

  /** `retrieve_rho_binary_data`: (T, molar density) of every selected row, sorted
      by temperature; `None` when the query is not binary or nothing is selected. */
  function RetrieveRhoBinary(smiles: seq<string>, pressure: real, x1: real, resolve: Resolver, rows: seq<Row>)
    : (r: Result<Option<seq<Point<Number>>>, DataError>)
    ensures |smiles| != 2 ==> r == Ok(None)
    ensures |smiles| == 2 ==> (r.Err? <==> ResolvePair(smiles, resolve).Err?)
    ensures r.Err? ==> r == Err(ResolvePair(smiles, resolve).error)
    ensures |smiles| == 2 && ResolvePair(smiles, resolve).Ok? ==>
      var (i1, i2) := ResolvePair(smiles, resolve).value;
      && (r == Ok(None) <==> forall k :: 0 <= k < |rows| ==> !SelectedForDensity(rows[k], i1, i2, pressure, x1))
      && (r.Ok? && r.value.Some? ==>
            && SortedByT(r.value.value)
            && multiset(r.value.value) == multiset(Map(Filter(rows, DensitySelector(i1, i2, pressure, x1)), DensityPoint)))
  {
    if |smiles| != 2 then Ok(None)
    else
      match ResolvePair(smiles, resolve)
      case Err(e) => Err(e)
      case Ok((i1, i2)) =>
        var kept := DensityRows(rows, i1, i2, pressure, x1);
        DensityRowsSelect(rows, i1, i2, pressure, x1);
        if |kept| == 0 then
          Ok(None)
        else
          assert SelectedForDensity(kept[0], i1, i2, pressure, x1) by {
            assert DensitySelector(i1, i2, pressure, x1)(kept[0]);
          }
          Ok(Some(SortByT(Map(kept, DensityPoint))))
  }

  /** A row `retrieve_bubble_pressure_data` keeps: it stores the pair and its `x_c1`
      lies strictly inside the window around `x1`. */
  predicate SelectedForBubble(r: Row, i1: Inchi, i2: Inchi, x1: real)
  {
    MatchesPair(r, i1, i2) && InWindow(XC1(r, i1), x1)
  }

  function BubbleSelector(i1: Inchi, i2: Inchi, x1: real): Row -> bool
  {
    (row: Row) => SelectedForBubble(row, i1, i2, x1)
  }

  /** The bubble pipeline as the source writes it: match and remap, then filter by
      composition window. */
  function BubbleRows(rows: seq<Row>, i1: Inchi, i2: Inchi, x1: real): seq<Row>
  {
    Map(Filter(FilterNorm(rows, i1, i2), (n: Normalized) => InWindow(n.xC1, x1)), (n: Normalized) => n.row)
  }

  lemma {:induction false} BubbleRowsSelect(rows: seq<Row>, i1: Inchi, i2: Inchi, x1: real)
    ensures BubbleRows(rows, i1, i2, x1) == Filter(rows, BubbleSelector(i1, i2, x1))
  {
    if rows != [] {
      BubbleRowsSelect(rows[1..], i1, i2, x1);
      FilterNormCons(rows, i1, i2);
      var rest := FilterNorm(rows[1..], i1, i2);
      var keep := (n: Normalized) => InWindow(n.xC1, x1);
      if MatchesPair(rows[0], i1, i2) {
        var n0 := Normalized(rows[0], XC1(rows[0], i1));
        assert ([n0] + rest)[1..] == rest;
        if keep(n0) {
          assert Filter([n0] + rest, keep) == [n0] + Filter(rest, keep);
          assert ([n0] + Filter(rest, keep))[1..] == Filter(rest, keep);
        }
      }
    }
  }

  function BubblePoint(r: Row): Point<real>
  {
    Point(r.tK, r.bubblePointKPa)
  }

  /** `retrieve_bubble_pressure_data`: (T, bubble pressure in kPa) of every selected
      row, sorted by temperature; `None` when the query is not binary or nothing is
      selected. */
  function RetrieveBubble(smiles: seq<string>, x1: real, resolve: Resolver, rows: seq<Row>)
    : (r: Result<Option<seq<Point<real>>>, DataError>)
    ensures |smiles| != 2 ==> r == Ok(None)
    ensures |smiles| == 2 ==> (r.Err? <==> ResolvePair(smiles, resolve).Err?)
    ensures r.Err? ==> r == Err(ResolvePair(smiles, resolve).error)
    ensures |smiles| == 2 && ResolvePair(smiles, resolve).Ok? ==>
      var (i1, i2) := ResolvePair(smiles, resolve).value;
      && (r == Ok(None) <==> forall k :: 0 <= k < |rows| ==> !SelectedForBubble(rows[k], i1, i2, x1))
      && (r.Ok? && r.value.Some? ==>
            && SortedByT(r.value.value)
            && multiset(r.value.value) == multiset(Map(Filter(rows, BubbleSelector(i1, i2, x1)), BubblePoint)))
  {
    if |smiles| != 2 then Ok(None)
    else
      match ResolvePair(smiles, resolve)
      case Err(e) => Err(e)
      case Ok((i1, i2)) =>
        var kept := BubbleRows(rows, i1, i2, x1);
        BubbleRowsSelect(rows, i1, i2, x1);
        if |kept| == 0 then
          Ok(None)
        else
          assert SelectedForBubble(kept[0], i1, i2, x1) by {
            assert BubbleSelector(i1, i2, x1)(kept[0]);
          }
          Ok(Some(SortByT(Map(kept, BubblePoint))))
  }

  // ---------------------------------------------------------------------------
  // Binary availability summary
  // ---------------------------------------------------------------------------

  /** Density rows are grouped by the exact pair (`P_kPa`, `x_c1`). */
  function DensitySample(n: Normalized): Sample
  {
    Sample([n.row.pKPa, n.xC1], n.row.tK)
  }

  /** Bubble-point rows are grouped by `x_c1` rounded to two places (an isopleth). */
  function BubbleSample(n: Normalized): Sample
  {
    Sample([Round2(n.xC1)], n.row.tK)
  }

  /** What `retrieve_available_data_binary` returns: density groups and bubble-point
      isopleths, each `None` when the pair has no rows in that dataset. */
  datatype BinaryAvailability = BinaryAvailability(density: Option<seq<Group>>, bubble: Option<seq<Group>>)

  /** `retrieve_available_data_binary`. */
  function RetrieveAvailableBinary(smiles: seq<string>, resolve: Resolver, rhoRows: seq<Row>, vpRows: seq<Row>)
    : (r: Result<BinaryAvailability, DataError>)
    ensures |smiles| != 2 ==> r == Ok(BinaryAvailability(None, None))
    ensures |smiles| == 2 ==> (r.Err? <==> ResolvePair(smiles, resolve).Err?)
    ensures r.Err? ==> r == Err(ResolvePair(smiles, resolve).error)
    ensures |smiles| == 2 && ResolvePair(smiles, resolve).Ok? ==>
      var (i1, i2) := ResolvePair(smiles, resolve).value;
      && r.Ok?
      && (r.value.density.Some? <==> exists k :: 0 <= k < |rhoRows| && MatchesPair(rhoRows[k], i1, i2))
      && (r.value.density.Some? ==> Summarizes(r.value.density.value, Map(FilterNorm(rhoRows, i1, i2), DensitySample)))
      && (r.value.bubble.Some? <==> exists k :: 0 <= k < |vpRows| && MatchesPair(vpRows[k], i1, i2))
      && (r.value.bubble.Some? ==> Summarizes(r.value.bubble.value, Map(FilterNorm(vpRows, i1, i2), BubbleSample)))
  {
    if |smiles| != 2 then Ok(BinaryAvailability(None, None))
    else
      match ResolvePair(smiles, resolve)
      case Err(e) => Err(e)
      case Ok((i1, i2)) =>
        var rf := FilterNorm(rhoRows, i1, i2);
        var vf := FilterNorm(vpRows, i1, i2);
        var density := if |rf| > 0 then Some(Summarize(Map(rf, DensitySample))) else None;
        var bubble := if |vf| > 0 then Some(Summarize(Map(vf, BubbleSample))) else None;
        Ok(BinaryAvailability(density, bubble))
  }

  /** Read back on the dataset rows: every matched density row lies inside the
      temperature range of the group of its (`P_kPa`, `x_c1`). */
  lemma DensitySummaryCoversRows(rows: seq<Row>, i1: Inchi, i2: Inchi, k: nat)
    requires k < |rows| && MatchesPair(rows[k], i1, i2)
    ensures exists g :: g in Summarize(Map(FilterNorm(rows, i1, i2), DensitySample))
                        && g.key == [rows[k].pKPa, XC1(rows[k], i1)] && g.tMin <= rows[k].tK <= g.tMax
  {
    var ss := Map(FilterNorm(rows, i1, i2), DensitySample);
    var m := MatchPair(rows, i1, i2);
    var j :| 0 <= j < |m| && m[j] == rows[k];
    assert ss[j] == Sample([rows[k].pKPa, XC1(rows[k], i1)], rows[k].tK);
    SummaryCovers(ss, ss[j]);
  }

  /** A density sample with key `key` and temperature `t` comes from a matched row. */
  lemma DensitySampleFromRow(rows: seq<Row>, i1: Inchi, i2: Inchi, key: Key, t: real)
    requires Sample(key, t) in Map(FilterNorm(rows, i1, i2), DensitySample)
    ensures exists k :: 0 <= k < |rows| && MatchesPair(rows[k], i1, i2)
                        && key == [rows[k].pKPa, XC1(rows[k], i1)] && rows[k].tK == t
  {
    var ns := FilterNorm(rows, i1, i2);
    var ss := Map(ns, DensitySample);
    var j :| 0 <= j < |ss| && ss[j] == Sample(key, t);
    var k :| 0 <= k < |rows| && rows[k] == ns[j].row;
  }

  /** Read back on the dataset rows: both bounds of every density group are
      temperatures of matched rows with that (`P_kPa`, `x_c1`). */
  lemma DensitySummaryFromRows(rows: seq<Row>, i1: Inchi, i2: Inchi, g: Group)
    requires g in Summarize(Map(FilterNorm(rows, i1, i2), DensitySample))
    ensures exists k :: 0 <= k < |rows| && MatchesPair(rows[k], i1, i2)
                        && g.key == [rows[k].pKPa, XC1(rows[k], i1)] && rows[k].tK == g.tMin
    ensures exists k :: 0 <= k < |rows| && MatchesPair(rows[k], i1, i2)
                        && g.key == [rows[k].pKPa, XC1(rows[k], i1)] && rows[k].tK == g.tMax
  {
    var ss := Map(FilterNorm(rows, i1, i2), DensitySample);
    assert IsGroupOf(g, ss);
    DensitySampleFromRow(rows, i1, i2, g.key, g.tMin);
    DensitySampleFromRow(rows, i1, i2, g.key, g.tMax);
  }

  /** Read back on the dataset rows: every matched bubble-point row lies inside the
      temperature range of the isopleth its `x_c1` rounds to. */
  lemma BubbleSummaryCoversRows(rows: seq<Row>, i1: Inchi, i2: Inchi, k: nat)
    requires k < |rows| && MatchesPair(rows[k], i1, i2)
    ensures exists g :: g in Summarize(Map(FilterNorm(rows, i1, i2), BubbleSample))
                        && g.key == [Round2(XC1(rows[k], i1))] && g.tMin <= rows[k].tK <= g.tMax
  {
    var ss := Map(FilterNorm(rows, i1, i2), BubbleSample);
    var m := MatchPair(rows, i1, i2);
    var j :| 0 <= j < |m| && m[j] == rows[k];
    assert ss[j] == Sample([Round2(XC1(rows[k], i1))], rows[k].tK);
    SummaryCovers(ss, ss[j]);
  }

  /** A bubble sample with key `key` and temperature `t` comes from a matched row. */
  lemma BubbleSampleFromRow(rows: seq<Row>, i1: Inchi, i2: Inchi, key: Key, t: real)
    requires Sample(key, t) in Map(FilterNorm(rows, i1, i2), BubbleSample)
    ensures exists k :: 0 <= k < |rows| && MatchesPair(rows[k], i1, i2)
                        && key == [Round2(XC1(rows[k], i1))] && rows[k].tK == t
  {
    var ns := FilterNorm(rows, i1, i2);
    var ss := Map(ns, BubbleSample);
    var j :| 0 <= j < |ss| && ss[j] == Sample(key, t);
    var k :| 0 <= k < |rows| && rows[k] == ns[j].row;
  }

  /** Read back on the dataset rows: both bounds of every isopleth are temperatures of
      matched rows whose `x_c1` rounds to its key. */
  lemma BubbleSummaryFromRows(rows: seq<Row>, i1: Inchi, i2: Inchi, g: Group)
    requires g in Summarize(Map(FilterNorm(rows, i1, i2), BubbleSample))
    ensures exists k :: 0 <= k < |rows| && MatchesPair(rows[k], i1, i2)
                        && g.key == [Round2(XC1(rows[k], i1))] && rows[k].tK == g.tMin
    ensures exists k :: 0 <= k < |rows| && MatchesPair(rows[k], i1, i2)
                        && g.key == [Round2(XC1(rows[k], i1))] && rows[k].tK == g.tMax
  {
    var ss := Map(FilterNorm(rows, i1, i2), BubbleSample);
    assert IsGroupOf(g, ss);
    BubbleSampleFromRow(rows, i1, i2, g.key, g.tMin);
    BubbleSampleFromRow(rows, i1, i2, g.key, g.tMax);
  }

  // ---------------------------------------------------------------------------
  // Invariance under storage order and query order
  // ---------------------------------------------------------------------------

  /** `rows'` holds the same measurements as `rows`, each stored in either slot order. */
  predicate SameMeasurements(rows: seq<Row>, rows': seq<Row>)
  {
    |rows| == |rows'| && forall k :: 0 <= k < |rows| ==> rows'[k] == rows[k] || rows'[k] == SwapSlots(rows[k])
  }

  /** The remapped samples do not depend on the slot order the rows were stored in. */
  lemma {:induction false} FilterNormStorageInvariant(rows: seq<Row>, rows': seq<Row>, i1: Inchi, i2: Inchi,
                                                     f: Normalized -> Sample)
    requires i1 != i2 && SameMeasurements(rows, rows')
    requires forall n: Normalized, n': Normalized :: n.xC1 == n'.xC1 && n.row.tK == n'.row.tK && n.row.pKPa == n'.row.pKPa ==> f(n) == f(n')
    ensures Map(FilterNorm(rows', i1, i2), f) == Map(FilterNorm(rows, i1, i2), f)
  {
    if rows != [] {
      FilterNormStorageInvariant(rows[1..], rows'[1..], i1, i2, f);
      FilterNormCons(rows, i1, i2);
      FilterNormCons(rows', i1, i2);
      var r, r' := rows[0], rows'[0];
      assert MatchesPair(r', i1, i2) == MatchesPair(r, i1, i2);
      if MatchesPair(r, i1, i2) {
        assert XC1(r', i1) == XC1(r, i1);
        MapCons(Normalized(r, XC1(r, i1)), FilterNorm(rows[1..], i1, i2), f);
        MapCons(Normalized(r', XC1(r', i1)), FilterNorm(rows'[1..], i1, i2), f);
      }
    }
  }

  /** The availability summary of a pair does not depend on the slot order its rows
      were stored in. */
  lemma AvailabilityStorageInvariant(smiles: seq<string>, resolve: Resolver,
                                     rhoRows: seq<Row>, rhoRows': seq<Row>, vpRows: seq<Row>, vpRows': seq<Row>)
    requires |smiles| == 2 && ResolvePair(smiles, resolve).Ok?
    requires ResolvePair(smiles, resolve).value.0 != ResolvePair(smiles, resolve).value.1
    requires SameMeasurements(rhoRows, rhoRows') && SameMeasurements(vpRows, vpRows')
    ensures RetrieveAvailableBinary(smiles, resolve, rhoRows', vpRows') == RetrieveAvailableBinary(smiles, resolve, rhoRows, vpRows)
  {
    var (i1, i2) := ResolvePair(smiles, resolve).value;
    FilterNormStorageInvariant(rhoRows, rhoRows', i1, i2, DensitySample);
    FilterNormStorageInvariant(vpRows, vpRows', i1, i2, BubbleSample);
  }

  lemma {:induction false} DensityPointsStorageInvariant(rows: seq<Row>, rows': seq<Row>, i1: Inchi, i2: Inchi,
                                                        pressure: real, x1: real)
    requires i1 != i2 && SameMeasurements(rows, rows')
    requires forall k :: 0 <= k < |rows| ==> FractionsSumToOne(rows[k])
    ensures var sel := DensitySelector(i1, i2, pressure, x1);
      Map(Filter(rows', sel), DensityPoint) == Map(Filter(rows, sel), DensityPoint)
  {
    var sel := DensitySelector(i1, i2, pressure, x1);
    if rows != [] {
      DensityPointsStorageInvariant(rows[1..], rows'[1..], i1, i2, pressure, x1);
      var r, r' := rows[0], rows'[0];
      assert sel(r') == sel(r);
      if sel(r) {
        MolarDensitySlotInvariant(r);
        assert DensityPoint(r') == DensityPoint(r);
        MapCons(r, Filter(rows[1..], sel), DensityPoint);
        MapCons(r', Filter(rows'[1..], sel), DensityPoint);
      }
    }
  }

  /** Binary density retrieval does not depend on the slot order the rows were stored
      in, as long as every row's stored fractions sum to one. */
  lemma RhoBinaryStorageInvariant(smiles: seq<string>, pressure: real, x1: real, resolve: Resolver,
                                  rows: seq<Row>, rows': seq<Row>)
    requires |smiles| == 2 && ResolvePair(smiles, resolve).Ok?
    requires ResolvePair(smiles, resolve).value.0 != ResolvePair(smiles, resolve).value.1
    requires SameMeasurements(rows, rows')
    requires forall k :: 0 <= k < |rows| ==> FractionsSumToOne(rows[k])
    ensures RetrieveRhoBinary(smiles, pressure, x1, resolve, rows') == RetrieveRhoBinary(smiles, pressure, x1, resolve, rows)
  {
    var (i1, i2) := ResolvePair(smiles, resolve).value;
    DensityRowsSelect(rows, i1, i2, pressure, x1);
    DensityRowsSelect(rows', i1, i2, pressure, x1);
    DensityPointsStorageInvariant(rows, rows', i1, i2, pressure, x1);
    var sel := DensitySelector(i1, i2, pressure, x1);
    assert |Filter(rows', sel)| == |Map(Filter(rows', sel), DensityPoint)|;
  }

  lemma {:induction false} BubblePointsStorageInvariant(rows: seq<Row>, rows': seq<Row>, i1: Inchi, i2: Inchi, x1: real)
    requires i1 != i2 && SameMeasurements(rows, rows')
    ensures var sel := BubbleSelector(i1, i2, x1);
      Map(Filter(rows', sel), BubblePoint) == Map(Filter(rows, sel), BubblePoint)
  {
    var sel := BubbleSelector(i1, i2, x1);
    if rows != [] {
      BubblePointsStorageInvariant(rows[1..], rows'[1..], i1, i2, x1);
      var r, r' := rows[0], rows'[0];
      assert sel(r') == sel(r);
      if sel(r) {
        MapCons(r, Filter(rows[1..], sel), BubblePoint);
        MapCons(r', Filter(rows'[1..], sel), BubblePoint);
      }
    }
  }

  /** Bubble-point retrieval does not depend on the slot order the rows were stored in. */
  lemma BubbleStorageInvariant(smiles: seq<string>, x1: real, resolve: Resolver, rows: seq<Row>, rows': seq<Row>)
    requires |smiles| == 2 && ResolvePair(smiles, resolve).Ok?
    requires ResolvePair(smiles, resolve).value.0 != ResolvePair(smiles, resolve).value.1
    requires SameMeasurements(rows, rows')
    ensures RetrieveBubble(smiles, x1, resolve, rows') == RetrieveBubble(smiles, x1, resolve, rows)
  {
    var (i1, i2) := ResolvePair(smiles, resolve).value;
    BubbleRowsSelect(rows, i1, i2, x1);
    BubbleRowsSelect(rows', i1, i2, x1);
    BubblePointsStorageInvariant(rows, rows', i1, i2, x1);
    var sel := BubbleSelector(i1, i2, x1);
    assert |Filter(rows', sel)| == |Map(Filter(rows', sel), BubblePoint)|;
  }

  lemma SelectedForDensityQuerySwap(r: Row, i1: Inchi, i2: Inchi, pressure: real, x1: real, x2: real)
    requires x1 + x2 == 1.0
    requires i1 != i2 && FractionsSumToOne(r)
    ensures SelectedForDensity(r, i2, i1, pressure, x2) == SelectedForDensity(r, i1, i2, pressure, x1)
  {
    if MatchesPair(r, i1, i2) {
      RemapQuerySwap(r, i1, i2);
      WindowComplement(XC1(r, i1), x1);
    }
  }

  lemma {:induction false} DensityRowsQuerySwap(rows: seq<Row>, i1: Inchi, i2: Inchi, pressure: real, x1: real, x2: real)
    requires x1 + x2 == 1.0
    requires i1 != i2
    requires forall k :: 0 <= k < |rows| ==> FractionsSumToOne(rows[k])
    ensures DensityRows(rows, i2, i1, pressure, x2) == DensityRows(rows, i1, i2, pressure, x1)
  {
    DensitySelectorQuerySwap(rows, i1, i2, pressure, x1, x2);
    DensityRowsSelect(rows, i1, i2, pressure, x1);
    DensityRowsSelect(rows, i2, i1, pressure, x2);
  }

  lemma DensitySelectorQuerySwap(rows: seq<Row>, i1: Inchi, i2: Inchi, pressure: real, x1: real, x2: real)
    requires x1 + x2 == 1.0
    requires i1 != i2
    requires forall k :: 0 <= k < |rows| ==> FractionsSumToOne(rows[k])
    ensures Filter(rows, DensitySelector(i2, i1, pressure, x2)) == Filter(rows, DensitySelector(i1, i2, pressure, x1))
  {
    var sel, sel' := DensitySelector(i1, i2, pressure, x1), DensitySelector(i2, i1, pressure, x2);
    forall k | 0 <= k < |rows| ensures sel(rows[k]) == sel'(rows[k]) {
      SelectedForDensityQuerySwap(rows[k], i1, i2, pressure, x1, x2);
    }
    FilterCongruent(rows, sel, sel');
  }

  /** Naming the pair in the other order, with the complementary composition, selects
      the same rows and gives the same series, when every row's fractions sum to one. */
  lemma RhoBinaryQuerySwap(a: string, b: string, pressure: real, x1: real, x2: real, resolve: Resolver, rows: seq<Row>)
    requires x1 + x2 == 1.0
    requires resolve(a).Some? && resolve(b).Some? && resolve(a).value != resolve(b).value
    requires forall k :: 0 <= k < |rows| ==> FractionsSumToOne(rows[k])
    ensures RetrieveRhoBinary([b, a], pressure, x2, resolve, rows) == RetrieveRhoBinary([a, b], pressure, x1, resolve, rows)
  {
    var i1, i2 := resolve(a).value, resolve(b).value;
    assert ResolvePair([a, b], resolve) == Ok((i1, i2));
    assert ResolvePair([b, a], resolve) == Ok((i2, i1));
    DensityRowsQuerySwap(rows, i1, i2, pressure, x1, x2);
  }

  lemma SelectedForBubbleQuerySwap(r: Row, i1: Inchi, i2: Inchi, x1: real, x2: real)
    requires x1 + x2 == 1.0
    requires i1 != i2 && FractionsSumToOne(r)
    ensures SelectedForBubble(r, i2, i1, x2) == SelectedForBubble(r, i1, i2, x1)
  {
    if MatchesPair(r, i1, i2) {
      RemapQuerySwap(r, i1, i2);
      WindowComplement(XC1(r, i1), x1);
    }
  }

  lemma {:induction false} BubbleRowsQuerySwap(rows: seq<Row>, i1: Inchi, i2: Inchi, x1: real, x2: real)
    requires x1 + x2 == 1.0
    requires i1 != i2
    requires forall k :: 0 <= k < |rows| ==> FractionsSumToOne(rows[k])
    ensures BubbleRows(rows, i2, i1, x2) == BubbleRows(rows, i1, i2, x1)
  {
    BubbleSelectorQuerySwap(rows, i1, i2, x1, x2);
    BubbleRowsSelect(rows, i1, i2, x1);
    BubbleRowsSelect(rows, i2, i1, x2);
  }

  lemma BubbleSelectorQuerySwap(rows: seq<Row>, i1: Inchi, i2: Inchi, x1: real, x2: real)
    requires x1 + x2 == 1.0
    requires i1 != i2
    requires forall k :: 0 <= k < |rows| ==> FractionsSumToOne(rows[k])
    ensures Filter(rows, BubbleSelector(i2, i1, x2)) == Filter(rows, BubbleSelector(i1, i2, x1))
  {
    var sel, sel' := BubbleSelector(i1, i2, x1), BubbleSelector(i2, i1, x2);
    forall k | 0 <= k < |rows| ensures sel(rows[k]) == sel'(rows[k]) {
      SelectedForBubbleQuerySwap(rows[k], i1, i2, x1, x2);
    }
    FilterCongruent(rows, sel, sel');
  }

  lemma BubbleQuerySwap(a: string, b: string, x1: real, x2: real, resolve: Resolver, rows: seq<Row>)
    requires x1 + x2 == 1.0
    requires resolve(a).Some? && resolve(b).Some? && resolve(a).value != resolve(b).value
    requires forall k :: 0 <= k < |rows| ==> FractionsSumToOne(rows[k])
    ensures RetrieveBubble([b, a], x2, resolve, rows) == RetrieveBubble([a, b], x1, resolve, rows)
  {
    var i1, i2 := resolve(a).value, resolve(b).value;
    assert ResolvePair([a, b], resolve) == Ok((i1, i2));
    assert ResolvePair([b, a], resolve) == Ok((i2, i1));
    BubbleRowsQuerySwap(rows, i1, i2, x1, x2);
  }

  /** A dataset with the single row (B, A, 0.6, 0.4) at 100 kPa and 350 K: the query
      (A, B) at 100 kPa finds it at x1 = 0.4 and not at x1 = 0.6. */
  lemma RhoBinaryScenario(mwA: real, mwB: real)
    ensures var row := Row("B", "A", 0.6, 0.4, mwB, mwA, 350.0, 100.0, 800.0, 0.0, 0.0);
      var resolve: Resolver := s => Some(s);
      && RetrieveRhoBinary(["A", "B"], 100.0, 0.4, resolve, [row]) == Ok(Some([DensityPoint(row)]))
      && RetrieveRhoBinary(["A", "B"], 100.0, 0.6, resolve, [row]) == Ok(None)
  {
    var row := Row("B", "A", 0.6, 0.4, mwB, mwA, 350.0, 100.0, 800.0, 0.0, 0.0);
    var resolve: Resolver := s => Some(s);
    assert ResolvePair(["A", "B"], resolve) == Ok(("A", "B"));
    DensityRowsSelect([row], "A", "B", 100.0, 0.4);
    DensityRowsSelect([row], "A", "B", 100.0, 0.6);
    assert SelectedForDensity(row, "A", "B", 100.0, 0.4);
    assert !SelectedForDensity(row, "A", "B", 100.0, 0.6);
    assert Filter([row], DensitySelector("A", "B", 100.0, 0.4)) == [row];
    assert Map([row], DensityPoint) == [DensityPoint(row)];
  }
}
