/** Any run of the range-set engine against plain set algebra (src/ipset.h and the ipset_*.c operations). */
module IpSetRuns {
  import opened Collections
  import opened Ranges
  import opened RangeAlgebra
  import opened IpSets
  import opened IpSetOps

  /** One call; sets are named by the order of their creation. */
  datatype Call =
    | Create
    | Add(i: nat, lo: nat, hi: nat)
    | Merge(i: nat, j: nat)
    | Combine(i: nat, j: nat)
    | Optimize(i: nat)
    | Common(i: nat, j: nat)
    | Exclude(i: nat, j: nat)
    | Diff(i: nat, j: nat)

  predicate CallOk(c: Call, n: nat, max: nat) {
    match c
    case Create => true
    case Add(i, lo, hi) => i < n && lo <= hi <= max
    case Optimize(i) => i < n
    case _ => c.i < n && c.j < n
  }

  ghost function Interval(lo: nat, hi: nat): set<nat> {
    Denoted([Range(lo, hi)], hi)
  }

  /** The same call on sets of addresses. */
  ghost function OnSets(c: Call, sets: seq<set<nat>>, max: nat): (r: seq<set<nat>>)
    requires CallOk(c, |sets|, max)
  {
    match c
    case Create => sets + [{}]
    case Add(i, lo, hi) => sets[i := sets[i] + Interval(lo, hi)]
    case Merge(i, j) => sets[i := sets[i] + sets[j]]
    case Combine(i, j) => sets + [sets[i] + sets[j]]
    case Optimize(i) => sets
    case Common(i, j) => sets + [sets[i] * sets[j]]
    case Exclude(i, j) => sets + [sets[i] - sets[j]]
    case Diff(i, j) => sets + [(sets[i] - sets[j]) + (sets[j] - sets[i])]
  }

  ghost predicate Holds(ips: IpSet, x: set<nat>, max: nat, counter: Counter)
    reads ips
  {
    ips.Valid() && ips.max == max && ips.counter == counter && Denoted(ips.entries, max) == x
  }

  ghost predicate Pool(pool: seq<IpSet>, sets: seq<set<nat>>, max: nat, counter: Counter)
    reads pool
  {
    && |pool| == |sets|
    && (forall i, j {:trigger pool[i], pool[j]} :: 0 <= i < j < |pool| ==> pool[i] != pool[j])
    && (forall i {:trigger pool[i]} :: 0 <= i < |pool| ==> Holds(pool[i], sets[i], max, counter))
  }

  /** Every address there is. */
  ghost function Whole(max: nat): set<nat> {
    Interval(0, max)
  }

  /**
   Whenever the flag is set the entries are sorted, and the count is the size of the set,
   except that a saturating count is one short for the whole address space, and only there.
   */
  lemma FlagMeans(ips: IpSet, x: set<nat>, max: nat, counter: Counter)
    requires Holds(ips, x, max, counter) && ips.optimized
    ensures Sorted(ips.entries) && ips.unique == Shown(counter, |x|)
    ensures ips.unique == |x| <==> !(counter.Saturating? && x == Whole(max))
    ensures ips.unique != |x| ==> ips.unique == |x| - 1
  {
    TotalIsSize(ips.entries, max);
    AllOrFewer(x, max);
  }

  lemma AllOrFewer(x: set<nat>, max: nat)
    requires forall a :: a in x ==> a <= max
    ensures |x| <= max + 1 && (|x| == max + 1 <==> x == Whole(max))
  {
    var all := IntervalSize(0, max);
    assert all == Whole(max) by { forall a: nat ensures Has([Range(0, max)], a) <==> 0 <= a <= max { OneRange(0, max, a); } }
    SubsetSize(x, all);
    if |x| == max + 1 {
      assert all == x + (all - x);
      assert |all - x| == 0;
    }
  }

  lemma Same(s: seq<Range>, t: seq<Range>, max: nat)
    requires forall a: nat :: Has(s, a) <==> Has(t, a)
    ensures Denoted(s, max) == Denoted(t, max)
  {
  }

  lemma Algebra(s: seq<Range>, t: seq<Range>, max: nat)
    requires Good(s, max) && Good(t, max)
    ensures Denoted(CommonOf(s, t), max) == Denoted(s, max) * Denoted(t, max)
    ensures Denoted(ExcludeOf(s, t), max) == Denoted(s, max) - Denoted(t, max)
    ensures Denoted(DiffOf(s, t), max) == (Denoted(s, max) - Denoted(t, max)) + (Denoted(t, max) - Denoted(s, max))
  {
    hide CommonOf, ExcludeOf, DiffOf, Has;
    forall a: nat
      ensures Has(CommonOf(s, t), a) <==> Has(s, a) && Has(t, a)
      ensures Has(ExcludeOf(s, t), a) <==> Has(s, a) && !Has(t, a)
      ensures Has(DiffOf(s, t), a) <==> (Has(s, a) <==> !Has(t, a))
    {
      CommonMeans(s, t, a, max);
      ExcludeMeans(s, t, a, max);
      DiffMeans(s, t, a, max);
    }
  }

  /** Optimizing an input of an operation does not change what it holds. */
  lemma StillHolds(ips: IpSet, before: seq<Range>, flagged: bool, x: set<nat>, max: nat, counter: Counter)
    requires RangesOk(before, max) && Denoted(before, max) == x && ips.max == max && ips.counter == counter
    requires Ready(ips) && ips.entries == if flagged then before else Normal(before, max)
    ensures Holds(ips, x, max, counter) && Good(ips.entries, max)
  {
    NormalMeans(before, max);
    hide Normal;
    Same(ips.entries, before, max);
  }

  method ApplyCommon(i: nat, j: nat, pool: seq<IpSet>, ghost sets: seq<set<nat>>, max: nat, counter: Counter) returns (next: seq<IpSet>)
    requires i < |pool| && j < |pool| && Pool(pool, sets, max, counter)
    modifies pool
    ensures Pool(next, sets + [sets[i] * sets[j]], max, counter) && forall i {:trigger next[i]} :: 0 <= i < |next| ==> next[i] in pool || fresh(next[i])
  {
    hide Denoted, CommonOf, ExcludeOf, DiffOf, Good, Normal, RangesOk, Sorted, Total;
    var left, right := pool[i], pool[j];
    assert Holds(left, sets[i], max, counter) && Holds(right, sets[j], max, counter);
    ghost var e1, o1, e2, o2 := left.entries, left.optimized, right.entries, right.optimized;
    var ips := IpSetOps.Common(left, right);
    StillHolds(left, e1, o1, sets[i], max, counter);
    StillHolds(right, e2, o2, sets[j], max, counter);
    Algebra(pool[i].entries, pool[j].entries, max);
    next := pool + [ips];
  }

  method ApplyExclude(i: nat, j: nat, pool: seq<IpSet>, ghost sets: seq<set<nat>>, max: nat, counter: Counter) returns (next: seq<IpSet>)
    requires i < |pool| && j < |pool| && Pool(pool, sets, max, counter)
    modifies pool
    ensures Pool(next, sets + [sets[i] - sets[j]], max, counter) && forall i {:trigger next[i]} :: 0 <= i < |next| ==> next[i] in pool || fresh(next[i])
  {
    hide Denoted, CommonOf, ExcludeOf, DiffOf, Good, Normal, RangesOk, Sorted, Total;
    var left, right := pool[i], pool[j];
    assert Holds(left, sets[i], max, counter) && Holds(right, sets[j], max, counter);
    ghost var e1, o1, e2, o2 := left.entries, left.optimized, right.entries, right.optimized;
    var ips := IpSetOps.Exclude(left, right);
    StillHolds(left, e1, o1, sets[i], max, counter);
    StillHolds(right, e2, o2, sets[j], max, counter);
    Algebra(pool[i].entries, pool[j].entries, max);
    next := pool + [ips];
  }

  method ApplyDiff(i: nat, j: nat, pool: seq<IpSet>, ghost sets: seq<set<nat>>, max: nat, counter: Counter) returns (next: seq<IpSet>)
    requires i < |pool| && j < |pool| && Pool(pool, sets, max, counter)
    modifies pool
    ensures Pool(next, sets + [(sets[i] - sets[j]) + (sets[j] - sets[i])], max, counter) && forall i {:trigger next[i]} :: 0 <= i < |next| ==> next[i] in pool || fresh(next[i])
  {
    hide Denoted, CommonOf, ExcludeOf, DiffOf, Good, Normal, RangesOk, Sorted, Total;
    var left, right := pool[i], pool[j];
    assert Holds(left, sets[i], max, counter) && Holds(right, sets[j], max, counter);
    ghost var e1, o1, e2, o2 := left.entries, left.optimized, right.entries, right.optimized;
    var ips := IpSetOps.Diff(left, right);
    StillHolds(left, e1, o1, sets[i], max, counter);
    StillHolds(right, e2, o2, sets[j], max, counter);
    Algebra(pool[i].entries, pool[j].entries, max);
    next := pool + [ips];
  }

  /** One call keeps every set of the pool in step with set algebra. */
  method Apply(c: Call, pool: seq<IpSet>, ghost sets: seq<set<nat>>, max: nat, counter: Counter) returns (next: seq<IpSet>)
    requires CallOk(c, |pool|, max) && Pool(pool, sets, max, counter) && CounterOk(counter, max)
    modifies pool
    ensures Pool(next, OnSets(c, sets, max), max, counter) && forall i {:trigger next[i]} :: 0 <= i < |next| ==> next[i] in pool || fresh(next[i])
  {
    hide Denoted, Normal, CommonOf, ExcludeOf, DiffOf, Has, Sorted, RangesOk, Total;
    next := pool;
    match c {
      case Create =>
        var ips := new IpSet(max, counter);
        Nowhere(max);
        next := pool + [ips];
      case Add(i, lo, hi) =>
        ghost var before := pool[i].entries;
        pool[i].AddRange(lo, hi);
        AddedSet(before, pool[i].entries, lo, hi, max);
      case Merge(i, j) =>
        ghost var before, added := pool[i].entries, pool[j].entries;
        pool[i].Merge(pool[j]);
        MergedSet(before, added, pool[i].entries, max);
      case Combine(i, j) =>
        var ips := IpSetOps.Combine(pool[i], pool[j]);
        MergedSet(pool[i].entries, pool[j].entries, ips.entries, max);
        next := pool + [ips];
      case Optimize(i) =>
        ghost var before := pool[i].entries;
        pool[i].Optimize();
        Same(pool[i].entries, before, max);
      case Common(i, j) =>
        next := ApplyCommon(i, j, pool, sets, max, counter);
      case Exclude(i, j) =>
        next := ApplyExclude(i, j, pool, sets, max, counter);
      case Diff(i, j) =>
        next := ApplyDiff(i, j, pool, sets, max, counter);
    }
  }

  lemma Nowhere(max: nat)
    ensures Denoted([], max) == {}
  {
  }

  lemma AddedSet(s: seq<Range>, t: seq<Range>, lo: nat, hi: nat, max: nat)
    requires lo <= hi <= max && forall a: nat :: Has(t, a) <==> Has(s, a) || lo <= a <= hi
    ensures Denoted(t, max) == Denoted(s, max) + Interval(lo, hi)
  {
    forall a: nat ensures Has([Range(lo, hi)], a) <==> lo <= a <= hi { OneRange(lo, hi, a); }
  }

  lemma OneRange(lo: nat, hi: nat, a: nat)
    ensures Has([Range(lo, hi)], a) <==> lo <= a <= hi
  {
    HasAppend([], Range(lo, hi), a);
    assert [] + [Range(lo, hi)] == [Range(lo, hi)];
    NoneHeld(a);
  }

  lemma MergedSet(s: seq<Range>, t: seq<Range>, r: seq<Range>, max: nat)
    requires forall a: nat :: Has(r, a) <==> Has(s, a) || Has(t, a)
    ensures Denoted(r, max) == Denoted(s, max) + Denoted(t, max)
  {
  }

  ghost predicate CallsOk(calls: seq<Call>, n: nat, max: nat)
    decreases |calls|
  {
    calls != [] ==> CallOk(calls[0], n, max) && CallsOk(calls[1..], n + Created(calls[0]), max)
  }

  function Created(c: Call): nat {
    if c.Create? || c.Combine? || c.Common? || c.Exclude? || c.Diff? then 1 else 0
  }

  ghost function Sets(calls: seq<Call>, sets: seq<set<nat>>, max: nat): seq<set<nat>>
    requires CallsOk(calls, |sets|, max)
    decreases |calls|
  {
    if calls == [] then sets else Sets(calls[1..], OnSets(calls[0], sets, max), max)
  }

  /**
   After any run of calls every set holds exactly what set algebra says, and every flagged
   set is sorted and counted right, except for a saturating count of the whole space.
   */
  method Run(calls: seq<Call>, max: nat, counter: Counter) returns (pool: seq<IpSet>)
    requires CallsOk(calls, 0, max) && CounterOk(counter, max)
    ensures Pool(pool, Sets(calls, [], max), max, counter)
    ensures forall i {:trigger pool[i]} :: 0 <= i < |pool| && pool[i].optimized ==>
      && Sorted(pool[i].entries) && pool[i].unique == Shown(counter, |Sets(calls, [], max)[i]|)
      && (pool[i].unique == |Sets(calls, [], max)[i]| <==> !(counter.Saturating? && Sets(calls, [], max)[i] == Whole(max)))
  {
    hide Holds, OnSets, CallOk;
    pool := [];
    ghost var sets := [];
    assert calls[0..] == calls;
    for k := 0 to |calls|
      invariant (forall i {:trigger pool[i]} :: 0 <= i < |pool| ==> fresh(pool[i])) && Pool(pool, sets, max, counter)
      invariant CallsOk(calls[k..], |sets|, max) && Sets(calls[k..], sets, max) == Sets(calls, [], max)
    {
      assert calls[k..][1..] == calls[k + 1..];
      ghost var before := sets;
      OneMore(calls[k], sets, max);
      sets := OnSets(calls[k], sets, max);
      pool := Apply(calls[k], pool, before, max, counter);
    }
    assert calls[|calls|..] == [];
    forall i | 0 <= i < |pool| && pool[i].optimized
      ensures Sorted(pool[i].entries) && pool[i].unique == Shown(counter, |sets[i]|)
      ensures pool[i].unique == |sets[i]| <==> !(counter.Saturating? && sets[i] == Whole(max))
    {
      FlagMeans(pool[i], sets[i], max, counter);
    }
  }

  lemma OneMore(c: Call, sets: seq<set<nat>>, max: nat)
    requires CallOk(c, |sets|, max)
    ensures |OnSets(c, sets, max)| == |sets| + Created(c)
  {
  }
}
