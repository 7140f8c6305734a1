/** The `group_by(key).agg(T_K.min(), T_K.max()).sort(key)` step of the
    availability summaries, and the `round(2)` that forms bubble-point isopleths. */
module Aggregation {

  /** A group key: the values of the grouping columns, compared column by column
      as a multi-column `sort` does. `[P]`, `[P, x]` and `[round(x, 2)]` are the
      three keys the summaries use. */
  type Key = seq<real>

  /** Strict lexicographic order on keys. */
  predicate LexLess(a: Key, b: Key)
  {
    |b| > 0 && (|a| == 0 || a[0] < b[0] || (a[0] == b[0] && LexLess(a[1..], b[1..])))
  }

  lemma {:induction false} LexIrreflexive(a: Key)
    ensures !LexLess(a, a)
  {
    if |a| > 0 {
      LexIrreflexive(a[1..]);
    }
  }

  lemma {:induction false} LexTransitive(a: Key, b: Key, c: Key)
    requires LexLess(a, b) && LexLess(b, c)
    ensures LexLess(a, c)
  {
    if |a| > 0 && a[0] == b[0] && b[0] == c[0] {
      LexTransitive(a[1..], b[1..], c[1..]);
    }
  }

  lemma {:induction false} LexTotal(a: Key, b: Key)
    requires a != b
    ensures LexLess(a, b) || LexLess(b, a)
  {
    if |a| > 0 && |b| > 0 && a[0] == b[0] {
      assert a == [a[0]] + a[1..] && b == [b[0]] + b[1..];
      LexTotal(a[1..], b[1..]);
    }
  }

  /** One row as the aggregation sees it: its group key and its `T_K`. */
  datatype Sample = Sample(key: Key, t: real)

  /** One summary row: a key with the least and greatest `T_K` of its group. */
  datatype Group = Group(key: Key, tMin: real, tMax: real)

  /** Keys strictly increase: sorted, and no key appears twice. */
  predicate StrictlyAscending(gs: seq<Group>)
  {
    forall j, k :: 0 <= j < k < |gs| ==> LexLess(gs[j].key, gs[k].key)
  }

  /** The `T_K` values of the samples whose key is `k`, in sample order. */
  function TemperaturesAt(ss: seq<Sample>, k: Key): (ts: seq<real>)
    ensures |ts| <= |ss|
    ensures forall t :: t in ts ==> Sample(k, t) in ss
    ensures forall s :: s in ss && s.key == k ==> s.t in ts
  {
    if ss == [] then []
    else if ss[0].key == k then [ss[0].t] + TemperaturesAt(ss[1..], k)
    else TemperaturesAt(ss[1..], k)
  }

  /** `g` is exactly the aggregate of the samples whose key is `g.key`: its bounds
      are temperatures of that group, and no temperature of the group lies outside them. */
  predicate IsGroupOf(g: Group, ss: seq<Sample>)
  {
    var ts := TemperaturesAt(ss, g.key);
    && g.tMin in ts
    && g.tMax in ts
    && (forall t :: t in ts ==> g.tMin <= t <= g.tMax)
  }

  /** `gs` is the summary of `ss`: one sorted group per distinct key, each the true
      minimum and maximum of its group, and every sample's key represented. */
  predicate Summarizes(gs: seq<Group>, ss: seq<Sample>)
  {
    && StrictlyAscending(gs)
    && (forall g :: g in gs ==> IsGroupOf(g, ss))
    && (forall s :: s in ss ==> exists g :: g in gs && g.key == s.key)
  }

  /** `g` widened so that its range also covers temperature `t`. */
  function Widen(g: Group, t: real): (r: Group)
    ensures r.key == g.key
    ensures r.tMin <= t <= r.tMax && r.tMin <= g.tMin && g.tMax <= r.tMax
    ensures (r.tMin == t || r.tMin == g.tMin) && (r.tMax == t || r.tMax == g.tMax)
  {
    Group(g.key, if t < g.tMin then t else g.tMin, if t > g.tMax then t else g.tMax)
  }

  /** No group of `gs` has key `k`. */
  predicate Absent(gs: seq<Group>, k: Key)
  {
    forall h :: h in gs ==> h.key != k
  }

  /** Folds one sample into a sorted summary: the group with the sample's key is
      widened, or a new single-sample group is inserted at its place in key order;
      every other group is kept. */
  function AddSample(gs: seq<Group>, x: Sample): (r: seq<Group>)
    requires StrictlyAscending(gs)
    ensures StrictlyAscending(r)
    ensures forall g :: g in r && g.key != x.key ==> g in gs
    ensures forall h :: h in gs && h.key != x.key ==> h in r
    ensures |r| > 0
  {
    if gs == [] then
      [Group(x.key, x.t, x.t)]
    else if x.key == gs[0].key then
      assert forall k :: 1 <= k < |gs| ==> gs[k].key != x.key by {
        LexIrreflexive(x.key);
      }
      [Widen(gs[0], x.t)] + gs[1..]
    else if LexLess(x.key, gs[0].key) then
      assert forall k :: 0 <= k < |gs| ==> LexLess(x.key, gs[k].key) by {
        forall k | 0 < k < |gs| ensures LexLess(x.key, gs[k].key) {
          LexTransitive(x.key, gs[0].key, gs[k].key);
        }
      }
      [Group(x.key, x.t, x.t)] + gs
    else
      LexTotal(x.key, gs[0].key);
      var rest := AddSample(gs[1..], x);
      assert forall k :: 0 <= k < |rest| ==> LexLess(gs[0].key, rest[k].key) by {
        forall k | 0 <= k < |rest| ensures LexLess(gs[0].key, rest[k].key) {
          if rest[k].key != x.key {
            assert rest[k] in gs[1..];
          }
        }
      }
      [gs[0]] + rest
  }

  /** What folding `x` into `gs` to give `r` keeps, widens and inserts: every group
      of another key stays, the group of `x`'s key is widened, or a single-sample
      group is new when there was none; nothing else has `x`'s key. */
  predicate AddedContents(gs: seq<Group>, x: Sample, r: seq<Group>)
  {
    && (forall h :: h in gs && h.key != x.key ==> h in r)
    && (forall h :: h in gs && h.key == x.key ==> Widen(h, x.t) in r)
    && (Absent(gs, x.key) ==> Group(x.key, x.t, x.t) in r)
    && (forall g :: g in r && g.key == x.key ==>
          (exists h :: h in gs && h.key == x.key && g == Widen(h, x.t))
          || (Absent(gs, x.key) && g == Group(x.key, x.t, x.t)))
  }

  /** The case where the head group has `x`'s key and is widened. */
  lemma WidenHeadContents(gs: seq<Group>, x: Sample)
    requires gs != [] && x.key == gs[0].key
    requires forall k :: 1 <= k < |gs| ==> gs[k].key != x.key
    ensures AddedContents(gs, x, [Widen(gs[0], x.t)] + gs[1..])
  {
    var r := [Widen(gs[0], x.t)] + gs[1..];
    forall k | 1 <= k < |r| ensures r[k].key != x.key {
      assert r[k] == gs[k];
    }
  }

  /** The case where `x`'s key is new and comes first. */
  lemma InsertFrontContents(gs: seq<Group>, x: Sample)
    requires forall k :: 0 <= k < |gs| ==> gs[k].key != x.key
    ensures AddedContents(gs, x, [Group(x.key, x.t, x.t)] + gs)
  {
    var r := [Group(x.key, x.t, x.t)] + gs;
    forall k | 1 <= k < |r| ensures r[k].key != x.key {
      assert r[k] == gs[k - 1];
    }
  }

  /** The case where the head group precedes `x`'s key and is kept in front. */
  lemma BehindHeadContents(gs: seq<Group>, x: Sample, rest: seq<Group>)
    requires gs != [] && gs[0].key != x.key
    requires AddedContents(gs[1..], x, rest)
    ensures AddedContents(gs, x, [gs[0]] + rest)
  {
    assert gs == [gs[0]] + gs[1..];
    assert Absent(gs, x.key) == Absent(gs[1..], x.key);
  }

  /** What `AddSample` keeps, widens and inserts. */
  lemma {:induction false} AddSampleContents(gs: seq<Group>, x: Sample)
    requires StrictlyAscending(gs)
    ensures AddedContents(gs, x, AddSample(gs, x))
  {
    if gs == [] {
    } else if x.key == gs[0].key {
      assert forall k :: 1 <= k < |gs| ==> gs[k].key != x.key by {
        LexIrreflexive(x.key);
      }
      WidenHeadContents(gs, x);
    } else if LexLess(x.key, gs[0].key) {
      assert forall k :: 0 <= k < |gs| ==> LexLess(x.key, gs[k].key) by {
        forall k | 0 < k < |gs| ensures LexLess(x.key, gs[k].key) {
          LexTransitive(x.key, gs[0].key, gs[k].key);
        }
      }
      LexIrreflexive(x.key);
      InsertFrontContents(gs, x);
    } else {
      AddSampleContents(gs[1..], x);
      BehindHeadContents(gs, x, AddSample(gs[1..], x));
    }
  }

  lemma KeptGroup(g: Group, x: Sample, ss: seq<Sample>)
    requires IsGroupOf(g, ss) && g.key != x.key
    ensures IsGroupOf(g, [x] + ss)
  {
    assert ([x] + ss)[1..] == ss;
  }

  lemma WidenedGroup(h: Group, x: Sample, ss: seq<Sample>)
    requires IsGroupOf(h, ss) && h.key == x.key
    ensures IsGroupOf(Widen(h, x.t), [x] + ss)
  {
    assert ([x] + ss)[1..] == ss;
  }

  /** The temperatures of a key no sample has are empty. */
  lemma {:induction false} TemperaturesAtAbsent(ss: seq<Sample>, k: Key)
    requires forall s :: s in ss ==> s.key != k
    ensures TemperaturesAt(ss, k) == []
  {
    if ss != [] {
      TemperaturesAtAbsent(ss[1..], k);
    }
  }

  lemma NewGroup(x: Sample, ss: seq<Sample>)
    requires forall s :: s in ss ==> s.key != x.key
    ensures IsGroupOf(Group(x.key, x.t, x.t), [x] + ss)
  {
    assert ([x] + ss)[1..] == ss;
    TemperaturesAtAbsent(ss, x.key);
  }

  /** Every group of the widened summary aggregates `[x] + ss` exactly. */
  lemma AddSampleGroups(gs: seq<Group>, x: Sample, ss: seq<Sample>)
    requires StrictlyAscending(gs)
    requires forall g :: g in gs ==> IsGroupOf(g, ss)
    requires forall s :: s in ss ==> exists g :: g in gs && g.key == s.key
    ensures forall g :: g in AddSample(gs, x) ==> IsGroupOf(g, [x] + ss)
  {
    var r := AddSample(gs, x);
    AddSampleContents(gs, x);
    forall g | g in r ensures IsGroupOf(g, [x] + ss) {
      if g.key != x.key {
        KeptGroup(g, x, ss);
      } else if Absent(gs, x.key) {
        forall s | s in ss ensures s.key != x.key {
          var h :| h in gs && h.key == s.key;
        }
        NewGroup(x, ss);
        assert g == Group(x.key, x.t, x.t) by {
          if h :| h in gs && h.key == x.key {
          }
        }
      } else {
        var h :| h in gs && h.key == x.key && g == Widen(h, x.t);
        WidenedGroup(h, x, ss);
      }
    }
  }

  /** Every key of `[x] + ss` has a group in the widened summary. */
  lemma AddSampleCovers(gs: seq<Group>, x: Sample, ss: seq<Sample>)
    requires StrictlyAscending(gs)
    requires forall s :: s in ss ==> exists g :: g in gs && g.key == s.key
    ensures forall s :: s in [x] + ss ==> exists g :: g in AddSample(gs, x) && g.key == s.key
  {
    var r := AddSample(gs, x);
    AddSampleContents(gs, x);
    forall s | s in [x] + ss ensures exists g :: g in r && g.key == s.key {
      if s != x {
        var h :| h in gs && h.key == s.key;
        if h.key == x.key {
          assert Widen(h, x.t) in r;
        }
      } else if h :| h in gs && h.key == x.key {
        assert Widen(h, x.t) in r;
      } else {
        assert Group(x.key, x.t, x.t) in r;
      }
    }
  }

  /** The aggregation of all samples. */
  function Summarize(ss: seq<Sample>): (r: seq<Group>)
    ensures Summarizes(r, ss)
    ensures |r| == 0 <==> |ss| == 0
  {
    if ss == [] then []
    else
      assert ss == [ss[0]] + ss[1..];
      var rest := Summarize(ss[1..]);
      AddSampleGroups(rest, ss[0], ss[1..]);
      AddSampleCovers(rest, ss[0], ss[1..]);
      AddSample(rest, ss[0])
  }

  /** The summary bounds of every group are ordered. */
  lemma SummaryBoundsOrdered(ss: seq<Sample>)
    ensures forall g :: g in Summarize(ss) ==> g.tMin <= g.tMax
  {
    forall g | g in Summarize(ss) ensures g.tMin <= g.tMax {
      assert IsGroupOf(g, ss);
    }
  }

  /** Every sample lies within the range of the group of its key. */
  lemma SummaryCovers(ss: seq<Sample>, s: Sample)
    requires s in ss
    ensures exists g :: g in Summarize(ss) && g.key == s.key && g.tMin <= s.t <= g.tMax
  {
    var gs := Summarize(ss);
    assert Summarizes(gs, ss);
    assert exists g :: g in gs && g.key == s.key;
    var g :| g in gs && g.key == s.key;
    assert IsGroupOf(g, ss);
  }

  /** A closed temperature range `(lo, hi)`. */
  datatype Range = Range(lo: real, hi: real)

  /** The least and the greatest of a non-empty list of temperatures. */
  function RangeOf(ts: seq<real>): (r: Range)
    requires |ts| > 0
    ensures r.lo in ts && r.hi in ts
    ensures forall t :: t in ts ==> r.lo <= t <= r.hi
  {
    if |ts| == 1 then Range(ts[0], ts[0])
    else
      var rest := RangeOf(ts[1..]);
      assert ts == [ts[0]] + ts[1..];
      Range(if ts[0] < rest.lo then ts[0] else rest.lo, if ts[0] > rest.hi then ts[0] else rest.hi)
  }

  /** `round(x, 2)`: the nearest multiple of 0.01, halves rounded away from zero. */
  function Round2(x: real): (r: real)
    ensures -0.005 <= r - x <= 0.005
  {
    if x >= 0.0 then (x * 100.0 + 0.5).Floor as real / 100.0
    else -((-x * 100.0 + 0.5).Floor as real / 100.0)
  }

  /** Two compositions in one rounded isopleth differ by at most 0.01. */
  lemma SameIsoplethClose(a: real, b: real)
    requires Round2(a) == Round2(b)
    ensures -0.01 <= a - b <= 0.01
  {
  }

  /** Nominal compositions 0.201 and 0.204 share the isopleth 0.20; 0.215 falls in another. */
  lemma IsoplethExample()
    ensures Round2(0.201) == Round2(0.204) == 0.2
    ensures Round2(0.215) == 0.22 && Round2(0.215) != Round2(0.204)
  {
  }
}
