/** Order-preserving filter and map over sequences: the shape of a dataframe
    `filter` and of a column-wise `select`. */
module Sequences {

  /** The elements of `s` that satisfy `keep`, in their original order. */
  function Filter<T(==)>(s: seq<T>, keep: T -> bool): (r: seq<T>)
    ensures |r| <= |s|
    ensures forall i :: 0 <= i < |r| ==> keep(r[i]) && r[i] in s
    ensures forall i :: 0 <= i < |s| && keep(s[i]) ==> s[i] in r
    ensures multiset(r) <= multiset(s)
  {
    if s == [] then []
    else
      assert s == [s[0]] + s[1..];
      if keep(s[0]) then [s[0]] + Filter(s[1..], keep)
      else Filter(s[1..], keep)
  }

  /** `Filter` unfolds one element at a time. */
  lemma FilterCons<T>(x: T, s: seq<T>, keep: T -> bool)
    ensures Filter([x] + s, keep) == (if keep(x) then [x] else []) + Filter(s, keep)
  {
    assert ([x] + s)[0] == x && ([x] + s)[1..] == s;
  }

  /** `Filter` keeps every copy of a satisfying element and drops every copy of the
      others. */
  lemma {:induction false} FilterMultiplicity<T>(s: seq<T>, keep: T -> bool)
    ensures forall x :: multiset(Filter(s, keep))[x] == if keep(x) then multiset(s)[x] else 0
  {
    if s != [] {
      FilterMultiplicity(s[1..], keep);
      FilterCons(s[0], s[1..], keep);
      assert s == [s[0]] + s[1..];
      assert multiset(s) == multiset([s[0]]) + multiset(s[1..]);
    }
  }

  /** `Filter` keeps order: its elements sit at strictly increasing positions of `s`,
      and every position whose element satisfies `keep` is one of them. */
  lemma {:induction false} FilterPositions<T>(s: seq<T>, keep: T -> bool) returns (idx: seq<nat>)
    ensures |idx| == |Filter(s, keep)|
    ensures forall k :: 0 <= k < |idx| ==> idx[k] < |s| && Filter(s, keep)[k] == s[idx[k]]
    ensures forall k, l :: 0 <= k < l < |idx| ==> idx[k] < idx[l]
    ensures forall i :: 0 <= i < |s| && keep(s[i]) ==> i in idx
  {
    if s == [] {
      idx := [];
    } else {
      var rest := FilterPositions(s[1..], keep);
      FilterCons(s[0], s[1..], keep);
      assert s == [s[0]] + s[1..];
      ShiftPicks(s[0], s[1..], keep, Filter(s[1..], keep), rest);
      ShiftCovers(s[0], s[1..], keep, rest);
      idx := Shifted(if keep(s[0]) then 1 else 0, rest);
    }
  }

  /** The positions `rest` of a tail moved one along, behind position 0 when `d` is 1. */
  function Shifted(d: nat, rest: seq<nat>): (idx: seq<nat>)
    requires d <= 1
    ensures |idx| == |rest| + d
    ensures forall k :: 0 <= k < d ==> idx[k] == 0
    ensures forall k :: d <= k < |idx| ==> idx[k] == rest[k - d] + 1
  {
    seq(|rest| + d, k requires 0 <= k < |rest| + d => if k < d then 0 else rest[k - d] + 1)
  }

  /** The step of `FilterPositions`: moved-along positions still pick the kept
      elements, in increasing order. */
  lemma ShiftPicks<T>(x: T, t: seq<T>, keep: T -> bool, ft: seq<T>, rest: seq<nat>)
    requires |rest| == |ft|
    requires forall k :: 0 <= k < |rest| ==> rest[k] < |t| && ft[k] == t[rest[k]]
    requires forall k, l :: 0 <= k < l < |rest| ==> rest[k] < rest[l]
    ensures var idx, f := Shifted(if keep(x) then 1 else 0, rest), (if keep(x) then [x] else []) + ft;
      && |idx| == |f|
      && (forall k :: 0 <= k < |idx| ==> idx[k] < |[x] + t| && f[k] == ([x] + t)[idx[k]])
      && (forall k, l :: 0 <= k < l < |idx| ==> idx[k] < idx[l])
  {
    var d := if keep(x) then 1 else 0;
    var idx, f, s := Shifted(d, rest), (if keep(x) then [x] else []) + ft, [x] + t;
    forall k | 0 <= k < |idx| ensures idx[k] < |s| && f[k] == s[idx[k]] {
      if k >= d {
        assert f[k] == ft[k - d];
      }
    }
  }

  /** The step of `FilterPositions`: every kept position of `[x] + t` is among the
      moved-along positions. */
  lemma ShiftCovers<T>(x: T, t: seq<T>, keep: T -> bool, rest: seq<nat>)
    requires forall i :: 0 <= i < |t| && keep(t[i]) ==> i in rest
    ensures forall i :: 0 <= i < |[x] + t| && keep(([x] + t)[i]) ==> i in Shifted(if keep(x) then 1 else 0, rest)
  {
    var d := if keep(x) then 1 else 0;
    var idx, s := Shifted(d, rest), [x] + t;
    forall i | 0 <= i < |s| && keep(s[i]) ensures i in idx {
      if i == 0 {
        assert idx[0] == 0;
      } else {
        assert t[i - 1] == s[i];
        var k :| 0 <= k < |rest| && rest[k] == i - 1;
        assert idx[k + d] == i;
      }
    }
  }

  /** `f` applied to every element of `s`, in order. */
  function Map<T, U>(s: seq<T>, f: T -> U): (r: seq<U>)
    ensures |r| == |s|
    ensures forall i :: 0 <= i < |s| ==> r[i] == f(s[i])
  {
    if s == [] then [] else [f(s[0])] + Map(s[1..], f)
  }

  /** Two predicates that agree on every element of `s` select the same subsequence. */
  lemma {:induction false} FilterCongruent<T>(s: seq<T>, p: T -> bool, q: T -> bool)
    requires forall i :: 0 <= i < |s| ==> p(s[i]) == q(s[i])
    ensures Filter(s, p) == Filter(s, q)
  {
    if s != [] {
      FilterCongruent(s[1..], p, q);
    }
  }

  lemma MapCons<T, U>(x: T, s: seq<T>, f: T -> U)
    ensures Map([x] + s, f) == [f(x)] + Map(s, f)
  {
    assert ([x] + s)[1..] == s;
  }

  /** Mapping distributes over concatenation. */
  lemma MapAppend<T, U>(s: seq<T>, t: seq<T>, f: T -> U)
    ensures Map(s + t, f) == Map(s, f) + Map(t, f)
  {
    assert forall i :: 0 <= i < |s + t| ==> Map(s + t, f)[i] == (Map(s, f) + Map(t, f))[i];
  }
}
