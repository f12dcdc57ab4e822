/**
 Three separately written counts of the same addresses: the merge of the optimizer, the
 recount of the binary loader, and the two build variants of the compare report
 (src/ipset_optimize.c, src/ipset_binary.c, src/iprange.c).
 */
module IpSetCounts {
  import opened Ranges
  import opened RangeAlgebra
  import opened IpSets
  import opened IpSetOps

  /** The largest value a 64-bit counter holds. */
  const U64_MAX: nat := 0xFFFF_FFFF_FFFF_FFFF

  lemma NormalTotal(s: seq<Range>, max: nat)
    requires RangesOk(s, max)
    ensures RangesOk(Normal(s, max), max) && Total(Normal(s, max), max) == |Denoted(s, max)| <= max + 1
  {
    NormalMeans(s, max);
    TotalIsSize(Normal(s, max), max);
    TotalFits(Normal(s, max), max);
    assert Denoted(Normal(s, max), max) == Denoted(s, max);
  }

  lemma ApartIsSorted(s: seq<Range>)
    requires Apart(s)
    ensures Sorted(s)
  {
  }

  /** A list that is already apart is its own normal form. */
  lemma ApartIsNormal(s: seq<Range>, max: nat)
    requires RangesOk(s, max) && Apart(s)
    ensures Normal(s, max) == s
  {
    NormalMeans(s, max);
    Canonical(Normal(s, max), s, max);
  }

  method AllForward(s: seq<Range>, max: nat) returns (ok: bool)
    requires forall i :: 0 <= i < |s| ==> s[i].hi <= max
    ensures ok <==> RangesOk(s, max)
  {
    for i := 0 to |s|
      invariant forall j {:trigger s[j]} :: 0 <= j < i ==> RangeOk(s[j], max)
    {
      if s[i].lo > s[i].hi {
        assert !RangeOk(s[i], max);
        return false;
      }
    }
    return true;
  }

  method IsOptimized(s: seq<Range>, max: nat) returns (ok: bool)
    requires RangesOk(s, max) && s != []
    ensures ok <==> Apart(s)
  {
    for i := 1 to |s|
      invariant forall j, k {:trigger s[j], s[k]} :: 0 <= j < k < i ==> s[j].hi + 1 < s[k].lo
    {
      var prev, curr := s[i - 1], s[i];
      if curr.lo < prev.lo || curr.lo <= prev.hi || (prev.hi != max && curr.lo == prev.hi + 1) {
        return false;
      }
      assert forall j {:trigger s[j]} :: 0 <= j < i - 1 ==> s[j].hi + 1 < s[i - 1].lo;
    }
    return true;
  }

  /** Checked addition of the loader. */
  predicate Fits(total: nat, size: nat) {
    size <= U64_MAX && total <= U64_MAX - size
  }

  method SumSizes(s: seq<Range>, max: nat) returns (total: nat)
    requires RangesOk(s, max) && Sorted(s) && max < U64_MAX
    ensures total == Total(s, max)
  {
    hide Sorted;
    total := 0;
    for i := 0 to |s|
      invariant total == Total(s[..i], max)
    {
      assert s[..i + 1] == s[..i] + [s[i]];
      TotalAppend(s[..i], s[i], max);
      PrefixFits(s[..i + 1], s, max);
      var size := s[i].hi - s[i].lo + 1;
      assert Fits(total, size);
      total := total + size;
    }
    assert s[..|s|] == s;
  }

  /** The loader's own sort and merge, which only counts. */
  method MergeCount(s: seq<Range>, max: nat) returns (total: nat)
    requires RangesOk(s, max) && s != [] && max < U64_MAX
    ensures RangesOk(Normal(s, max), max) && total == Total(Normal(s, max), max)
  {
    hide Sorted, Apart, RangesOk, Merged, Total, Has, SortRanges, Cons;
    var sorted := SortRanges(s);
    SortMeans(s, max);
    NonemptySort(s);
    NormalMeans(s, max);
    TotalNone(max);
    InBounds(sorted, 0, max);
    ghost var normal, built := Normal(s, max), [];
    var lo: nat, hi: nat := sorted[0].lo, sorted[0].hi;
    total := 0;
    for i := 1 to |sorted|
      invariant lo <= hi <= max && RangesOk(built, max) && total == Total(built, max)
      invariant built + Merged(Range(lo, hi), sorted[i..], max) == normal
    {
      InBounds(sorted, i, max);
      MergeTurn(Range(lo, hi), sorted, i, max);
      if sorted[i].hi <= hi {
        continue;
      }
      if sorted[i].lo <= hi || (hi != max && sorted[i].lo == hi + 1) {
        hi := sorted[i].hi;
        continue;
      }
      EmitMerged(built, Range(lo, hi), sorted, i, normal, max);
      assert Fits(total, hi - lo + 1);
      total := total + (hi - lo + 1);
      built := built + [Range(lo, hi)];
      lo, hi := sorted[i].lo, sorted[i].hi;
    }
    EmitLast(built, Range(lo, hi), sorted, normal, max);
    assert Fits(total, hi - lo + 1);
    total := total + (hi - lo + 1);
  }

  /**
   The loader accepts a payload exactly when its records run forward, the header's count is
   the number of distinct addresses, and a header that claims optimized records is right.
   */
  method ValidatePayload(s: seq<Range>, headerOptimized: bool, expected: nat, max: nat) returns (ok: bool, optimized: bool)
    requires max < U64_MAX && forall i :: 0 <= i < |s| ==> s[i].hi <= max
    ensures ok <==> RangesOk(s, max) && expected == |Denoted(s, max)| && (headerOptimized ==> Apart(s))
    ensures ok ==> (optimized <==> Apart(s)) && RangesOk(Normal(s, max), max) && expected == Total(Normal(s, max), max)
  {
    optimized := true;
    if s == [] {
      assert Denoted(s, max) == {} && Normal(s, max) == [];
      return expected == 0, optimized;
    }
    var forward := AllForward(s, max);
    if !forward {
      return false, optimized;
    }
    NormalTotal(s, max);
    hide Sorted, Denoted, Normal;
    optimized := IsOptimized(s, max);
    var actual;
    if optimized {
      ApartIsSorted(s);
      ApartIsNormal(s, max);
      actual := SumSizes(s, max);
    } else {
      actual := MergeCount(s, max);
    }
    if expected != actual {
      return false, optimized;
    }
    if headerOptimized && !optimized {
      return false, optimized;
    }
    return true, optimized;
  }

  /** The compare report: intersecting, or combining and subtracting, gives one row. */
  lemma CompareVariants(s: seq<Range>, t: seq<Range>, max: nat)
    requires Good(s, max) && Good(t, max)
    ensures RangesOk(s + t, max) && RangesOk(CommonOf(s, t), max) && RangesOk(Normal(s + t, max), max)
    ensures Total(s, max) + Total(t, max) - Total(Normal(s + t, max), max) == Total(CommonOf(s, t), max)
  {
    hide CommonOf, Normal, Sorted, Total, Has;
    NormalTotal(s + t, max);
    TotalIsSize(s, max);
    TotalIsSize(t, max);
    CommonShape(s, t, max);
    TotalIsSize(CommonOf(s, t), max);
    var a, b := Denoted(s, max), Denoted(t, max);
    forall x: nat
      ensures x in Denoted(CommonOf(s, t), max) <==> x in a * b
      ensures x in Denoted(s + t, max) <==> x in a + b
    {
      CommonMeans(s, t, x, max);
      HasConcat(s, t, x);
    }
    assert Denoted(CommonOf(s, t), max) == a * b && Denoted(s + t, max) == a + b;
    assert |a + b| + |a * b| == |a| + |b|;
  }
}
