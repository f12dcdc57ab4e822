/**
 The range set of the C engine: adding, sorting and merging, and the optimized flag
 (src/ipset.h, src/ipset_optimize.c, src/ipset_merge.c and their IPv6 twins).
 */
module IpSets {
  import opened Ranges
  import opened RangeAlgebra

  // ----- sorting

  /** The comparison handed to qsort: by start, then the longer range first. */
  predicate Precedes(r: Range, q: Range) {
    r.lo < q.lo || (r.lo == q.lo && r.hi > q.hi)
  }

  predicate Ordered(s: seq<Range>) {
    forall i, j {:trigger s[i], s[j]} :: 0 <= i < j < |s| ==> !Precedes(s[j], s[i])
  }

  function Insert(r: Range, s: seq<Range>): (t: seq<Range>)
    ensures multiset(t) == multiset(s) + multiset{r} && |t| == |s| + 1
  {
    if s == [] || !Precedes(s[0], r) then [r] + s
    else
      assert s == [s[0]] + s[1..];
      [s[0]] + Insert(r, s[1..])
  }

  lemma Inserted(r: Range, s: seq<Range>, x: Range)
    ensures x in Insert(r, s) <==> x == r || x in s
  {
    assert x in multiset(Insert(r, s)) <==> x in multiset(s) + multiset{r};
  }

  lemma {:induction false} InsertOrdered(r: Range, s: seq<Range>)
    requires Ordered(s)
    ensures Ordered(Insert(r, s)) && (s != [] ==> Insert(r, s)[0] == r || Insert(r, s)[0] == s[0])
  {
    if s != [] && Precedes(s[0], r) {
      InsertOrdered(r, s[1..]);
      var t := Insert(r, s[1..]);
      forall j | 0 <= j < |t|
        ensures !Precedes(t[j], s[0])
      {
        Inserted(r, s[1..], t[j]);
      }
      hide Insert;
    }
  }

  /** What qsort returns: the same ranges in ascending order. */
  function SortRanges(s: seq<Range>): (t: seq<Range>)
    ensures multiset(t) == multiset(s)
  {
    if s == [] then []
    else
      assert s == [s[0]] + s[1..];
      Insert(s[0], SortRanges(s[1..]))
  }

  lemma {:induction false} SortOrders(s: seq<Range>)
    ensures Ordered(SortRanges(s))
  {
    if s != [] {
      SortOrders(s[1..]);
      InsertOrdered(s[0], SortRanges(s[1..]));
    }
  }

  lemma SortMeans(s: seq<Range>, max: nat)
    ensures RangesOk(s, max) ==> RangesOk(SortRanges(s), max)
    ensures forall a: nat :: Has(SortRanges(s), a) <==> Has(s, a)
  {
    var t := SortRanges(s);
    SameRanges(s, t, max);
    SameRanges(t, s, max);
  }

  lemma SameRanges(s: seq<Range>, t: seq<Range>, max: nat)
    requires multiset(s) == multiset(t)
    ensures RangesOk(s, max) ==> RangesOk(t, max)
    ensures forall a: nat :: Has(s, a) ==> Has(t, a)
  {
    forall i | 0 <= i < |t|
      ensures t[i] in s
    {
      assert t[i] in multiset(t);
    }
    forall a: nat | Has(s, a)
      ensures Has(t, a)
    {
      var i: nat :| At(s, i, a);
      assert s[i] in multiset(s);
      assert s[i] in t;
      var j :| 0 <= j < |t| && t[j] == s[i];
      assert At(t, j, a);
    }
  }

  // ----- merging

  predicate Joins(r: Range, q: Range, max: nat) {
    q.lo <= r.hi || (r.hi != max && q.lo == r.hi + 1)
  }

  /** The merge loop over a sorted list, `r` being the range under construction. */
  function Merged(r: Range, s: seq<Range>, max: nat): seq<Range>
    decreases |s|
  {
    if s == [] then [r]
    else if s[0].hi <= r.hi then Merged(r, s[1..], max)
    else if Joins(r, s[0], max) then Merged(Range(r.lo, s[0].hi), s[1..], max)
    else Cons(r, Merged(s[0], s[1..], max))
  }

  lemma {:induction false} MergedShape(r: Range, s: seq<Range>, max: nat)
    requires RangeOk(r, max) && RangesOk(s, max) && Ordered(s) && From(s, r.lo)
    ensures RangesOk(Merged(r, s, max), max) && Apart(Merged(r, s, max)) && From(Merged(r, s, max), r.lo)
    decreases |s|
  {
    hide Sorted;
    if s != [] {
      if s[0].hi <= r.hi {
        MergedShape(r, s[1..], max);
      } else if Joins(r, s[0], max) {
        MergedShape(Range(r.lo, s[0].hi), s[1..], max);
      } else {
        OrderedTail(s);
        MergedShape(s[0], s[1..], max);
        ApartCons(r, Merged(s[0], s[1..], max), s[0].lo, max);
      }
    }
  }

  lemma OrderedTail(s: seq<Range>)
    requires Ordered(s) && s != []
    ensures From(s[1..], s[0].lo) && Ordered(s[1..])
  {
  }

  lemma ApartCons(r: Range, s: seq<Range>, x: nat, max: nat)
    requires RangeOk(r, max) && RangesOk(s, max) && Apart(s) && From(s, x) && r.hi + 1 < x
    ensures RangesOk(Cons(r, s), max) && Apart(Cons(r, s)) && From(Cons(r, s), r.lo)
  {
  }

  lemma {:induction false} MergedMeans(r: Range, s: seq<Range>, a: nat, max: nat)
    requires RangeOk(r, max) && RangesOk(s, max) && Ordered(s) && From(s, r.lo)
    ensures Has(Merged(r, s, max), a) <==> r.lo <= a <= r.hi || Has(s, a)
    decreases |s|
  {
    hide Has;
    NoneHeld(a);
    if s == [] {
      HasCons(r, [], a);
      assert Cons(r, []) == [r];
    } else {
      HasTail(s, a);
      OrderedTail(s);
      if s[0].hi <= r.hi {
        MergedMeans(r, s[1..], a, max);
      } else if Joins(r, s[0], max) {
        MergedMeans(Range(r.lo, s[0].hi), s[1..], a, max);
      } else {
        MergedMeans(s[0], s[1..], a, max);
        HasCons(r, Merged(s[0], s[1..], max), a);
      }
    }
  }

  /** The sorted and merged form of any list. */
  function Normal(s: seq<Range>, max: nat): seq<Range> {
    var t := SortRanges(s);
    if t == [] then [] else Merged(t[0], t[1..], max)
  }

  lemma NormalMeans(s: seq<Range>, max: nat)
    requires RangesOk(s, max)
    ensures RangesOk(Normal(s, max), max) && Apart(Normal(s, max)) && Sorted(Normal(s, max))
    ensures forall a: nat :: Has(Normal(s, max), a) <==> Has(s, a)
  {
    SortOrders(s);
    SortMeans(s, max);
    var t := SortRanges(s);
    if t != [] {
      OrderedTail(t);
      MergedShape(t[0], t[1..], max);
      forall a: nat
        ensures Has(Normal(s, max), a) <==> Has(s, a)
      {
        MergedMeans(t[0], t[1..], a, max);
        HasTail(t, a);
      }
    }
  }

  /** Any two lists for one set, in any order and with any overlaps, have one normal form. */
  lemma NormalIsCanonical(s: seq<Range>, t: seq<Range>, max: nat)
    requires RangesOk(s, max) && RangesOk(t, max)
    ensures Denoted(s, max) == Denoted(t, max) <==> Normal(s, max) == Normal(t, max)
  {
    NormalMeans(s, max);
    NormalMeans(t, max);
    if Denoted(s, max) == Denoted(t, max) {
      forall a: nat
        ensures Has(Normal(s, max), a) <==> Has(Normal(t, max), a)
      {
        Bounded(s, a, max);
        Bounded(t, a, max);
        assert a in Denoted(s, max) <==> a in Denoted(t, max);
      }
      Canonical(Normal(s, max), Normal(t, max), max);
    }
    if Normal(s, max) == Normal(t, max) {
      assert forall a: nat :: Has(s, a) <==> Has(t, a);
    }
  }

  lemma Bounded(s: seq<Range>, a: nat, max: nat)
    requires RangesOk(s, max)
    ensures Has(s, a) ==> a <= max
  {
  }

  // ----- the range set

  /**
   How addresses are counted; `modulus` is one past the largest count. The IPv4 engine lets
   a 64-bit count wrap. The IPv6 engine has one count too few for its whole address space
   and stops at the largest.
   */
  datatype Counter = Wrapping(modulus: nat) | Saturating(modulus: nat)

  predicate CounterOk(c: Counter, max: nat) {
    if c.Wrapping? then max + 1 < c.modulus else max + 1 == c.modulus
  }

  /** The count after one more range. */
  function Plus(c: Counter, n: nat, r: Range, max: nat): nat
    requires n < c.modulus && CounterOk(c, max) && RangeOk(r, max)
  {
    if c.Wrapping? then
      if n + Size(r) < c.modulus then n + Size(r) else n + Size(r) - c.modulus
    else if r == Range(0, max) || n > c.modulus - 1 - Size(r) then c.modulus - 1
    else n + Size(r)
  }

  /** A wrapping count is the sum modulo 2^64 (in general the modulus); a saturating one the sum, at most the largest count. */
  lemma PlusIs(c: Counter, n: nat, r: Range, max: nat)
    requires n < c.modulus && CounterOk(c, max) && RangeOk(r, max)
    ensures c.Wrapping? ==> Plus(c, n, r, max) == (n + (r.hi - r.lo + 1)) % c.modulus
    ensures c.Saturating? ==> Plus(c, n, r, max) == if n + (r.hi - r.lo + 1) < c.modulus then n + (r.hi - r.lo + 1) else c.modulus - 1
  {
    if c.Wrapping? { Remainder(n + Size(r), c.modulus); }
  }

  lemma Remainder(x: nat, m: nat)
    requires m > 0 && x < 2 * m
    ensures x % m == if x < m then x else x - m
  {
    if x >= m { assert (x - m) % m == x - m; }
  }

  /** What the counter shows for `n` addresses counted once each. */
  function Shown(c: Counter, n: nat): nat
    requires c.modulus > 0
  {
    if n < c.modulus then n else c.modulus - 1
  }

  lemma PlusShown(c: Counter, n: nat, r: Range, max: nat)
    requires CounterOk(c, max) && RangeOk(r, max) && n + Size(r) <= max + 1
    ensures Plus(c, Shown(c, n), r, max) == Shown(c, n + Size(r)) < c.modulus
  {
  }

  class IpSet {
    const max: nat
    const counter: Counter
    var entries: seq<Range>
    var unique: nat
    var optimized: bool

    /** The flag promises sorted disjoint entries and the count of their addresses. */
    ghost predicate Valid()
      reads this
    {
      && RangesOk(entries, max) && CounterOk(counter, max) && unique < counter.modulus
      && (optimized ==> Sorted(entries) && unique == Shown(counter, Total(entries, max)))
    }

    constructor (max: nat, counter: Counter)
      requires CounterOk(counter, max)
      ensures Valid() && entries == [] && unique == 0 && !optimized && this.max == max && this.counter == counter
    {
      this.max, this.counter := max, counter;
      entries, unique, optimized := [], 0, false;
    }

    /** Append one range; on a flagged set extend the last one, or drop the flag. */
    method AddRange(lo: nat, hi: nat)
      requires Valid() && lo <= hi <= max
      modifies this
      ensures Valid() && forall a: nat :: Has(entries, a) <==> Has(old(entries), a) || lo <= a <= hi
      ensures optimized <==> old(optimized) && (old(entries) == [] || old(entries)[|old(entries)| - 1].hi < lo)
      ensures old(Apart(entries)) && optimized ==> Apart(entries)
      ensures !old(optimized) ==>
        entries == old(entries) + [Range(lo, hi)] && unique == Plus(counter, old(unique), Range(lo, hi), max)
    {
      hide Has, Sorted, Apart, Total, RangesOk;
      var r := Range(lo, hi);
      Appended(entries, r, max);
      if optimized && (entries == [] || entries[|entries| - 1].hi < lo) { PlusShown(counter, Total(entries, max), r, max); }
      unique := Plus(counter, unique, r, max);
      if optimized && entries != [] {
        var last := entries[|entries| - 1];
        if last.hi != max && lo == last.hi + 1 {
          Extended(entries, hi, max);
          entries := entries[..|entries| - 1] + [Range(last.lo, hi)];
          return;
        }
        if lo > last.hi {
          entries := entries + [r];
          return;
        }
        optimized := false;
      }
      entries := entries + [r];
    }

    /** Sort, then merge what overlaps or touches; a flagged set is left alone. */
    method Optimize()
      requires Valid()
      modifies this
      ensures Valid() && optimized && forall a: nat :: Has(entries, a) <==> Has(old(entries), a)
      ensures entries == if old(optimized) then old(entries) else Normal(old(entries), max)
    {
      hide Has, Sorted, Apart, Ordered, RangesOk, Total, SortRanges, Merged, Precedes, Cons;
      if optimized {
        return;
      }
      NormalMeans(entries, max);
      TotalNone(max);
      if entries == [] {
        optimized, unique := true, 0;
        return;
      }
      var sorted := SortRanges(entries);
      SortMeans(entries, max);
      NonemptySort(entries);
      ghost var normal := Normal(entries, max);
      entries, unique := [], 0;
      var lo: nat, hi: nat := sorted[0].lo, sorted[0].hi;
      InBounds(sorted, 0, max);
      for i := 1 to |sorted|
        invariant Valid() && !optimized && lo <= hi <= max
        invariant entries + Merged(Range(lo, hi), sorted[i..], max) == normal
        invariant unique == Shown(counter, Total(entries, max))
      {
        InBounds(sorted, i, max);
        MergeTurn(Range(lo, hi), sorted, i, max);
        if sorted[i].hi <= hi {
          continue;
        }
        if sorted[i].lo <= hi || (hi != max && sorted[i].lo == hi + 1) {
          hi := sorted[i].hi;
          continue;
        }
        EmitMerged(entries, Range(lo, hi), sorted, i, normal, max);
        PlusShown(counter, Total(entries, max), Range(lo, hi), max);
        AddRange(lo, hi);
        lo, hi := sorted[i].lo, sorted[i].hi;
      }
      EmitLast(entries, Range(lo, hi), sorted, normal, max);
      PlusShown(counter, Total(entries, max), Range(lo, hi), max);
      AddRange(lo, hi);
      optimized := true;
    }

    /** Append the entries of another set; the count is left stale and the flag dropped. */
    method Merge(add: IpSet)
      requires Valid() && add.Valid() && add.max == max
      modifies this
      ensures Valid() && !optimized && entries == old(entries) + old(add.entries) && unique == old(unique)
      ensures forall a: nat :: Has(entries, a) <==> Has(old(entries), a) || Has(old(add.entries), a)
    {
      forall a: nat ensures Has(entries + add.entries, a) <==> Has(entries, a) || Has(add.entries, a) { HasConcat(entries, add.entries, a); }
      entries := entries + add.entries;
      optimized := false;
    }
  }

  /** One turn of the merge loop. */
  lemma MergeTurn(r: Range, s: seq<Range>, i: nat, max: nat)
    requires i < |s|
    ensures Merged(r, s[i..], max) ==
      if s[i].hi <= r.hi then Merged(r, s[i + 1..], max)
      else if Joins(r, s[i], max) then Merged(Range(r.lo, s[i].hi), s[i + 1..], max)
      else Cons(r, Merged(s[i], s[i + 1..], max))
  {
    assert s[i..][1..] == s[i + 1..];
  }

  lemma MergeDone(r: Range, s: seq<Range>, max: nat)
    ensures Merged(r, s[|s|..], max) == [r]
  {
  }

  /** The finished range is the next one of the normal form, and its size still fits. */
  lemma EmitMerged(built: seq<Range>, r: Range, s: seq<Range>, i: nat, normal: seq<Range>, max: nat)
    requires RangesOk(built, max) && RangeOk(r, max) && RangesOk(normal, max) && Sorted(normal)
    requires i < |s| && built + Merged(r, s[i..], max) == normal && s[i].hi > r.hi && !Joins(r, s[i], max)
    ensures RangesOk(built + [r], max) && built + [r] + Merged(s[i], s[i + 1..], max) == normal
    ensures Total(built + [r], max) == Total(built, max) + Size(r) <= max + 1
  {
    hide Merged, Sorted;
    MergeTurn(r, s, i, max);
    TotalAppend(built, r, max);
    assert built + Cons(r, Merged(s[i], s[i + 1..], max)) == built + [r] + Merged(s[i], s[i + 1..], max);
    PrefixFits(built + [r], normal, max);
  }

  lemma EmitLast(built: seq<Range>, r: Range, s: seq<Range>, normal: seq<Range>, max: nat)
    requires RangesOk(built, max) && RangeOk(r, max) && RangesOk(normal, max) && Sorted(normal)
    requires built + Merged(r, s[|s|..], max) == normal
    ensures built + [r] == normal && Total(normal, max) == Total(built, max) + Size(r) <= max + 1
  {
    MergeDone(r, s, max);
    TotalAppend(built, r, max);
    PrefixFits(normal, normal, max);
  }

  lemma NonemptySort(s: seq<Range>)
    requires s != []
    ensures SortRanges(s) != []
  {
    assert |multiset(SortRanges(s))| == |multiset(s)|;
  }

  lemma InBounds(s: seq<Range>, i: nat, max: nat)
    requires RangesOk(s, max) && i < |s|
    ensures s[i].lo <= s[i].hi <= max
  {
  }

  lemma TotalNone(max: nat)
    ensures RangesOk([], max) && Total([], max) == 0 && Normal([], max) == []
  {
  }

  /** A prefix of a sorted list counts no more addresses than there are. */
  lemma PrefixFits(s: seq<Range>, t: seq<Range>, max: nat)
    requires RangesOk(t, max) && Sorted(t) && s <= t
    ensures RangesOk(s, max) && Total(s, max) <= max + 1
  {
    TotalFits(s, max);
  }

  lemma Appended(s: seq<Range>, r: Range, max: nat)
    requires RangesOk(s, max) && RangeOk(r, max)
    ensures RangesOk(s + [r], max) && forall a: nat :: Has(s + [r], a) <==> Has(s, a) || r.lo <= a <= r.hi
    ensures Total(s + [r], max) == Total(s, max) + Size(r)
    ensures Sorted(s) && (s != [] ==> s[|s| - 1].hi < r.lo) ==> Sorted(s + [r]) && Total(s + [r], max) <= max + 1
    ensures Apart(s) && (s != [] ==> s[|s| - 1].hi + 1 < r.lo) ==> Apart(s + [r])
  {
    hide Has, Total, Sorted, Apart;
    TotalAppend(s, r, max);
    forall a: nat ensures Has(s + [r], a) <==> Has(s, a) || r.lo <= a <= r.hi { HasAppend(s, r, a); }
    if Sorted(s) && (s != [] ==> s[|s| - 1].hi < r.lo) {
      SortedAppend(s, r, max);
      TotalFits(s + [r], max);
    }
    if Apart(s) && (s != [] ==> s[|s| - 1].hi + 1 < r.lo) {
      ApartAppend(s, r, max);
    }
  }

  lemma SortedAppend(s: seq<Range>, r: Range, max: nat)
    requires RangesOk(s, max) && Sorted(s) && (s != [] ==> s[|s| - 1].hi < r.lo)
    ensures Sorted(s + [r])
  {
    forall i | 0 <= i < |s|
      ensures s[i].hi < r.lo
    {
      assert i < |s| - 1 ==> s[i].hi < s[|s| - 1].lo;
    }
  }

  lemma ApartAppend(s: seq<Range>, r: Range, max: nat)
    requires RangesOk(s, max) && Apart(s) && (s != [] ==> s[|s| - 1].hi + 1 < r.lo)
    ensures Apart(s + [r])
  {
    forall i | 0 <= i < |s|
      ensures s[i].hi + 1 < r.lo
    {
      assert i < |s| - 1 ==> s[i].hi + 1 < s[|s| - 1].lo;
    }
  }

  /** Extending the last range by one that touches it. */
  lemma Extended(s: seq<Range>, hi: nat, max: nat)
    requires RangesOk(s, max) && Sorted(s) && s != [] && s[|s| - 1].hi < hi <= max
    ensures
      var t := s[..|s| - 1] + [Range(s[|s| - 1].lo, hi)];
      && RangesOk(t, max) && Sorted(t) && (Apart(s) ==> Apart(t))
      && Total(t, max) == Total(s, max) + (hi - s[|s| - 1].hi) && Total(t, max) <= max + 1
      && forall a: nat :: Has(t, a) <==> Has(s, a) || s[|s| - 1].hi < a <= hi
  {
    var n := |s| - 1;
    var t := s[..n] + [Range(s[n].lo, hi)];
    assert s == s[..n] + [s[n]];
    TotalAppend(s[..n], s[n], max);
    TotalAppend(s[..n], Range(s[n].lo, hi), max);
    TotalFits(t, max);
    forall a: nat
      ensures Has(t, a) <==> Has(s, a) || s[n].hi < a <= hi
    {
      HasAppend(s[..n], s[n], a);
      HasAppend(s[..n], Range(s[n].lo, hi), a);
    }
  }
}
