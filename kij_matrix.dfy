/** `MixtureLayout._set_kij_values`: the n-by-n binary-interaction matrix read from
    the kij text field. One value fills every off-diagonal entry; a list of exactly
    n(n-1)/2 values fills the upper triangle in row-major order and is mirrored into
    the lower triangle. */
module KijMatrix {
  import opened Wrappers
  import opened FormText

  /** `(n * (n - 1)) // 2`: the number of pairs i < j among n components. */
  function UpperCount(n: nat): nat
  {
    if n == 0 then 0 else n * (n - 1) / 2
  }

  /** How many upper-triangle entries the rows before row `i` hold: the value of the
      running counter when the loop reaches row `i`. */
  function RowStart(n: nat, i: nat): nat
    requires i <= n
  {
    if i == 0 then 0 else RowStart(n, i - 1) + (n - i)
  }

  /** The counter value at which the entry (i, j), i < j, is written. */
  function TriIndex(n: nat, i: nat, j: nat): nat
    requires i < j < n
  {
    RowStart(n, i) + (j - i - 1)
  }

  lemma {:induction false} RowStartClosedForm(n: nat, i: nat)
    requires i <= n
    ensures 2 * RowStart(n, i) == i * (2 * n - i - 1)
  {
    if i > 0 {
      RowStartClosedForm(n, i - 1);
      calc {
        2 * RowStart(n, i);
        2 * RowStart(n, i - 1) + 2 * (n - i);
        (i - 1) * (2 * n - i) + 2 * (n - i);
        i * (2 * n - i - 1);
      }
    }
  }

  /** After the last row the counter has written every one of the n(n-1)/2 values. */
  lemma RowStartEnd(n: nat)
    ensures RowStart(n, n) == UpperCount(n)
  {
    RowStartClosedForm(n, n);
    if n > 0 {
      assert 2 * RowStart(n, n) == n * (n - 1);
    }
  }

  lemma {:induction false} RowStartMonotone(n: nat, i: nat, i': nat)
    requires i <= i' <= n
    ensures RowStart(n, i) <= RowStart(n, i')
  {
    if i < i' {
      RowStartMonotone(n, i, i' - 1);
    }
  }

  /** Row `i` writes the counter values from `RowStart(n, i)` up to, not including,
      `RowStart(n, i + 1)`, and all of them are below n(n-1)/2. */
  lemma TriIndexInRow(n: nat, i: nat, j: nat)
    requires i < j < n
    ensures RowStart(n, i) <= TriIndex(n, i, j) < RowStart(n, i + 1)
    ensures TriIndex(n, i, j) < UpperCount(n)
  {
    RowStartMonotone(n, i + 1, n);
    RowStartEnd(n);
  }

  /** Entries are written in row-major order: a pair that comes first gets the smaller
      counter value. In particular no two pairs share a value. */
  lemma TriIndexRowMajor(n: nat, i: nat, j: nat, i': nat, j': nat)
    requires i < j < n && i' < j' < n
    requires i < i' || (i == i' && j < j')
    ensures TriIndex(n, i, j) < TriIndex(n, i', j')
  {
    TriIndexInRow(n, i, j);
    TriIndexInRow(n, i', j');
    if i < i' {
      RowStartMonotone(n, i + 1, i');
    }
  }

  /** Every counter value below n(n-1)/2 belongs to some pair: no value is skipped. */
  lemma TriIndexOnto(n: nat, k: nat) returns (i: nat, j: nat)
    requires k < UpperCount(n)
    ensures i < j < n && TriIndex(n, i, j) == k
  {
    RowStartEnd(n);
    i := 0;
    while RowStart(n, i + 1) <= k
      invariant i < n && RowStart(n, i) <= k
      decreases n - i
    {
      i := i + 1;
    }
    j := k - RowStart(n, i) + i + 1;
  }

  /** How the text field fills the matrix, or why it is rejected. */
  datatype KijFill = NoFill | Uniform(value: real) | Triangle(values: seq<real>)

  /** The checks `_set_kij_values` makes before it writes anything: empty text leaves
      the matrix alone, a non-numeric token or a list of the wrong length is an error,
      one token is a uniform value whatever n is. */
  function PlanKij(kijText: string, n: nat, parse: string -> Option<real>): (r: Result<KijFill, InputError>)
    ensures r == Ok(NoFill) <==> kijText == ""
    ensures r == Err(NonNumericKij) <==> kijText != "" && ParseAll(Tokens(kijText), parse).None?
    ensures r.Ok? && r.value.Uniform? <==>
      kijText != "" && |Tokens(kijText)| == 1 && ParseAll(Tokens(kijText), parse).Some?
    ensures r.Ok? && r.value.Uniform? ==> r.value.value == ParseAll(Tokens(kijText), parse).value[0]
    ensures r.Err? && r != Err(NonNumericKij) ==>
      && ParseAll(Tokens(kijText), parse).Some?
      && |Tokens(kijText)| != 1 && |Tokens(kijText)| != UpperCount(n)
      && r == Err(KijCountMismatch(UpperCount(n), |Tokens(kijText)|))
    ensures r.Ok? && r.value.Triangle? ==>
      && |Tokens(kijText)| != 1
      && r.value.values == ParseAll(Tokens(kijText), parse).value
      && |r.value.values| == UpperCount(n)
  {
    if kijText == "" then Ok(NoFill)
    else
      var parts := Tokens(kijText);
      match ParseAll(parts, parse)
      case None => Err(NonNumericKij)
      case Some(vals) =>
        if |parts| == 1 then Ok(Uniform(vals[0]))
        else if |parts| != UpperCount(n) then Err(KijCountMismatch(UpperCount(n), |parts|))
        else Ok(Triangle(vals))
  }

  predicate FitsSize(fill: KijFill, n: nat)
  {
    fill.Triangle? ==> |fill.values| == UpperCount(n)
  }

  /** The value the entry (i, j) holds after the fill, given the value it held before. */
  function Entry(fill: KijFill, n: nat, i: nat, j: nat, prior: real): real
    requires i < n && j < n && FitsSize(fill, n)
  {
    match fill
    case NoFill => prior
    case Uniform(v) => if i != j then v else prior
    case Triangle(vs) =>
      if i < j then TriIndexInRow(n, i, j); vs[TriIndex(n, i, j)]
      else if j < i then TriIndexInRow(n, j, i); vs[TriIndex(n, j, i)]
      else prior
  }

  /** The fill never touches the diagonal, and it is symmetric off the diagonal
      whatever the matrix held before. */
  lemma EntryShape(fill: KijFill, n: nat, i: nat, j: nat, p: real, q: real)
    requires i < n && j < n && FitsSize(fill, n)
    ensures Entry(fill, n, i, i, p) == p
    ensures i != j && !fill.NoFill? ==> Entry(fill, n, i, j, p) == Entry(fill, n, j, i, q)
  {
  }

  /** In a triangle fill the k-th value lands on exactly one pair i < j and its mirror,
      and nowhere else. */
  lemma TriangleValuePlacement(n: nat, vs: seq<real>, k: nat) returns (i: nat, j: nat)
    requires |vs| == UpperCount(n) && k < |vs|
    ensures i < j < n && TriIndex(n, i, j) == k
    ensures Entry(Triangle(vs), n, i, j, 0.0) == vs[k] == Entry(Triangle(vs), n, j, i, 0.0)
    ensures forall i': nat, j': nat :: i' < j' < n && (i', j') != (i, j) ==> TriIndex(n, i', j') != k
  {
    i, j := TriIndexOnto(n, k);
    forall i': nat, j': nat | i' < j' < n && (i', j') != (i, j) ensures TriIndex(n, i', j') != k {
      if i' < i || (i' == i && j' < j) {
        TriIndexRowMajor(n, i', j', i, j);
      } else {
        TriIndexRowMajor(n, i, j, i', j');
      }
    }
  }

  /** With three components the list k12 k13 k23 fills (0,1), (0,2), (1,2). */
  lemma ThreeComponentOrder()
    ensures UpperCount(3) == 3
    ensures TriIndex(3, 0, 1) == 0 && TriIndex(3, 0, 2) == 1 && TriIndex(3, 1, 2) == 2
  {
    assert RowStart(3, 1) == 2;
    assert UpperCount(3) == 3 * 2 / 2 == 3;
  }

  /** Whether the loops over rows `< i`, and over row `i` up to column `j`, have
      already visited the entry (a, b). */
  predicate Visited(a: nat, b: nat, i: nat, j: nat)
  {
    a < i || (a == i && b < j)
  }

  /** The single-token branch: every off-diagonal entry becomes `v`. */
  method FillUniform(m: array2<real>, n: nat, v: real)
    requires m.Length0 == n && m.Length1 == n
    modifies m
    ensures forall a, b :: 0 <= a < n && 0 <= b < n ==> m[a, b] == Entry(Uniform(v), n, a, b, old(m[a, b]))
  {
    for i := 0 to n
      invariant forall a, b :: 0 <= a < n && 0 <= b < n ==>
        m[a, b] == (if a < i then Entry(Uniform(v), n, a, b, old(m[a, b])) else old(m[a, b]))
    {
      for j := 0 to n
        invariant forall a, b :: 0 <= a < n && 0 <= b < n ==>
          m[a, b] == (if Visited(a, b, i, j) then Entry(Uniform(v), n, a, b, old(m[a, b])) else old(m[a, b]))
      {
        if i != j {
          m[i, j] := v;
        }
      }
    }
  }

  /** Whether the triangle loops have already written the entry (a, b). */
  predicate TriangleVisited(a: nat, b: nat, i: nat, j: nat)
  {
    (a < b && Visited(a, b, i, j)) || (b < a && Visited(b, a, i, j))
  }

  /** The list branch: the values in row-major upper-triangle order, each written to
      (i, j) and (j, i), with a running counter that ends at n(n-1)/2; the counter's
      final value is returned. */
  method FillTriangle(m: array2<real>, n: nat, vs: seq<real>) returns (k: nat)
    requires m.Length0 == n && m.Length1 == n && |vs| == UpperCount(n)
    modifies m
    ensures k == UpperCount(n) == |vs|
    ensures forall a, b :: 0 <= a < n && 0 <= b < n ==> m[a, b] == Entry(Triangle(vs), n, a, b, old(m[a, b]))
  {
    k := 0;
    for i := 0 to n
      invariant k == RowStart(n, i)
      invariant forall a, b :: 0 <= a < n && 0 <= b < n ==>
        m[a, b] == (if TriangleVisited(a, b, i, 0) then Entry(Triangle(vs), n, a, b, old(m[a, b])) else old(m[a, b]))
    {
      for j := i + 1 to n
        invariant k == RowStart(n, i) + (j - i - 1)
        invariant forall a, b :: 0 <= a < n && 0 <= b < n ==>
          m[a, b] == (if TriangleVisited(a, b, i, j) then Entry(Triangle(vs), n, a, b, old(m[a, b])) else old(m[a, b]))
      {
        TriIndexInRow(n, i, j);
        m[i, j] := vs[k];
        m[j, i] := vs[k];
        k := k + 1;
      }
    }
    RowStartEnd(n);
  }

  /** `_set_kij_values(kij_txt, n, kij_matrix)`: the error it raises, or the matrix
      filled as `PlanKij` decides. On an error nothing has been written. */
  method SetKijValues(kijText: string, n: nat, m: array2<real>, parse: string -> Option<real>)
    returns (err: Option<InputError>)
    requires m.Length0 == n && m.Length1 == n
    modifies m
    ensures PlanKij(kijText, n, parse).Err? ==> err == Some(PlanKij(kijText, n, parse).error)
    ensures PlanKij(kijText, n, parse).Ok? ==> err == None
    ensures forall a, b :: 0 <= a < n && 0 <= b < n ==>
      m[a, b] == (match PlanKij(kijText, n, parse)
                  case Ok(fill) => Entry(fill, n, a, b, old(m[a, b]))
                  case Err(_) => old(m[a, b]))
  {
    err := None;
    if kijText != "" {
      var parts := Tokens(kijText);
      var vals := ParseAll(parts, parse);
      if vals.None? {
        return Some(NonNumericKij);
      }
      if |parts| == 1 {
        FillUniform(m, n, vals.value[0]);
      } else {
        var expected := UpperCount(n);
        if |parts| != expected {
          return Some(KijCountMismatch(expected, |parts|));
        }
        var written := FillTriangle(m, n, vals.value);
        assert written == |vals.value|;
      }
    }
  }
}
