/** Plotted series: (temperature, value) pairs, and the `sort("T_K")` that
    orders them by temperature. */
module Series {

  /** One output row of a retrieval: `T_K` and the quantity plotted against it. */
  datatype Point<V> = Point(t: real, value: V)

  predicate SortedByT<V>(ps: seq<Point<V>>)
  {
    forall j, k :: 0 <= j < k < |ps| ==> ps[j].t <= ps[k].t
  }

  /** A point no later than the first of a sorted series keeps it sorted when put in
      front. */
  lemma SortedCons<V>(p: Point<V>, ps: seq<Point<V>>)
    requires SortedByT(ps) && (ps != [] ==> p.t <= ps[0].t)
    ensures SortedByT([p] + ps)
  {
    var r := [p] + ps;
    forall j, k | 0 <= j < k < |r| ensures r[j].t <= r[k].t {
      if j == 0 && k > 1 {
        assert r[k] == ps[k - 1];
      }
    }
  }

  lemma SortedTail<V>(ps: seq<Point<V>>)
    requires SortedByT(ps) && ps != []
    ensures SortedByT(ps[1..])
    ensures |ps| > 1 ==> ps[0].t <= ps[1].t
  {
  }

  /** The step of `InsertByT` that keeps the head and inserts into the tail. */
  lemma InsertBehindHead<V>(ps: seq<Point<V>>, p: Point<V>, rest: seq<Point<V>>)
    requires ps != [] && SortedByT(ps) && ps[0].t < p.t
    requires SortedByT(rest) && rest != [] && (rest[0] == p || (|ps| > 1 && rest[0] == ps[1]))
    requires multiset(rest) == multiset(ps[1..]) + multiset{p}
    ensures SortedByT([ps[0]] + rest)
    ensures multiset([ps[0]] + rest) == multiset(ps) + multiset{p}
  {
    SortedCons(ps[0], rest);
    assert ps == [ps[0]] + ps[1..];
  }

  /** `p` placed into the sorted `ps` before the first point with a higher temperature. */
  function InsertByT<V(==)>(ps: seq<Point<V>>, p: Point<V>): (r: seq<Point<V>>)
    requires SortedByT(ps)
    ensures SortedByT(r)
    ensures multiset(r) == multiset(ps) + multiset{p}
    ensures |r| == |ps| + 1
    ensures r[0] == p || (ps != [] && r[0] == ps[0])
  {
    if ps == [] then [p]
    else if p.t <= ps[0].t then
      SortedCons(p, ps);
      [p] + ps
    else
      SortedTail(ps);
      var rest := InsertByT(ps[1..], p);
      InsertBehindHead(ps, p, rest);
      [ps[0]] + rest
  }

  /** The points of `ps` in ascending temperature order; ties keep no particular order
      that callers may rely on. */
  function SortByT<V(==)>(ps: seq<Point<V>>): (r: seq<Point<V>>)
    ensures SortedByT(r)
    ensures multiset(r) == multiset(ps)
    ensures |r| == |ps|
  {
    if ps == [] then []
    else
      assert ps == [ps[0]] + ps[1..];
      InsertByT(SortByT(ps[1..]), ps[0])
  }
}
