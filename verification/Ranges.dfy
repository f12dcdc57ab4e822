/**
 Lists of address ranges and the address sets they denote
 (src/ipset.h; the address width is a parameter, `max` being the last address).
 */
module Ranges {
  import opened Collections

  /** `addr` and `broadcast` of network_addr_t. */
  datatype Range = Range(lo: nat, hi: nat)

  predicate RangeOk(r: Range, max: nat) {
    r.lo <= r.hi <= max
  }

  predicate RangesOk(s: seq<Range>, max: nat) {
    forall i {:trigger s[i]} :: 0 <= i < |s| ==> RangeOk(s[i], max)
  }

  predicate At(s: seq<Range>, i: nat, a: nat) {
    i < |s| && s[i].lo <= a <= s[i].hi
  }

  ghost predicate Has(s: seq<Range>, a: nat) {
    exists i: nat :: At(s, i, a)
  }

  /** The addresses a list of ranges stands for. */
  ghost function Denoted(s: seq<Range>, max: nat): set<nat> {
    set a: nat | a <= max && Has(s, a)
  }

  /** Ascending and disjoint. */
  predicate Sorted(s: seq<Range>) {
    forall i, j {:trigger s[i], s[j]} :: 0 <= i < j < |s| ==> s[i].hi < s[j].lo
  }

  /** Ascending, disjoint and never touching. */
  predicate Apart(s: seq<Range>) {
    forall i, j {:trigger s[i], s[j]} :: 0 <= i < j < |s| ==> s[i].hi + 1 < s[j].lo
  }

  function Size(r: Range): nat
    requires r.lo <= r.hi
  {
    r.hi - r.lo + 1
  }

  function Total(s: seq<Range>, max: nat): nat
    requires RangesOk(s, max)
  {
    if s == [] then 0 else Total(s[..|s| - 1], max) + Size(s[|s| - 1])
  }

  // ----- one more range at the end

  lemma HasAppend(s: seq<Range>, r: Range, a: nat)
    ensures Has(s + [r], a) <==> Has(s, a) || r.lo <= a <= r.hi
  {
    if Has(s + [r], a) {
      var i: nat :| At(s + [r], i, a);
      assert i < |s| ==> At(s, i, a);
    }
    if Has(s, a) {
      var i: nat :| At(s, i, a);
      assert At(s + [r], i, a);
    }
    assert r.lo <= a <= r.hi ==> At(s + [r], |s|, a);
  }

  lemma {:induction false} HasConcat(s: seq<Range>, t: seq<Range>, a: nat)
    ensures Has(s + t, a) <==> Has(s, a) || Has(t, a)
  {
    if t == [] {
      assert s + t == s;
    } else {
      var n := |t| - 1;
      HasConcat(s, t[..n], a);
      HasAppend(s + t[..n], t[n], a);
      HasAppend(t[..n], t[n], a);
      assert s + t == s + t[..n] + [t[n]] && t == t[..n] + [t[n]];
    }
  }

  lemma TotalAppend(s: seq<Range>, r: Range, max: nat)
    requires RangesOk(s, max) && RangeOk(r, max)
    ensures RangesOk(s + [r], max) && Total(s + [r], max) == Total(s, max) + Size(r)
  {
    assert (s + [r])[..|s|] == s;
  }

  // ----- a sorted list counts its addresses once

  lemma {:induction false} IntervalSize(lo: nat, hi: nat) returns (t: set<nat>)
    requires lo <= hi
    ensures |t| == hi - lo + 1 && forall a :: a in t <==> lo <= a <= hi
  {
    if lo == hi {
      t := {lo};
    } else {
      t := IntervalSize(lo, hi - 1);
      t := t + {hi};
    }
  }

  /** The total of a sorted list is the number of addresses it denotes. */
  lemma {:induction false} TotalIsSize(s: seq<Range>, max: nat)
    requires RangesOk(s, max) && Sorted(s)
    ensures Total(s, max) == |Denoted(s, max)|
  {
    if s == [] {
      assert Denoted(s, max) == {};
    } else {
      var n := |s| - 1;
      var head, r := s[..n], s[n];
      TotalIsSize(head, max);
      var t := IntervalSize(r.lo, r.hi);
      assert s == head + [r];
      LastCounted(head, r, t, max);
    }
  }

  lemma LastCounted(s: seq<Range>, r: Range, t: set<nat>, max: nat)
    requires RangeOk(r, max) && Sorted(s + [r]) && forall a :: a in t <==> r.lo <= a <= r.hi
    ensures |Denoted(s + [r], max)| == |Denoted(s, max)| + |t|
  {
    hide Has, Sorted;
    forall a: nat
      ensures a in Denoted(s + [r], max) <==> a in Denoted(s, max) || a in t
      ensures !(a in Denoted(s, max) && a in t)
    {
      HasAppend(s, r, a);
      BelowLast(s, r, a);
    }
    assert Denoted(s + [r], max) == Denoted(s, max) + t && Denoted(s, max) !! t;
  }

  lemma BelowLast(s: seq<Range>, r: Range, a: nat)
    requires Sorted(s + [r])
    ensures r.lo <= a ==> !Has(s, a)
  {
    forall i: nat
      ensures r.lo <= a ==> !At(s, i, a)
    {
      assert i < |s| ==> (s + [r])[i].hi < (s + [r])[|s|].lo;
    }
  }

  lemma TotalFits(s: seq<Range>, max: nat)
    requires RangesOk(s, max) && Sorted(s)
    ensures Total(s, max) <= max + 1
  {
    TotalIsSize(s, max);
    var all := IntervalSize(0, max);
    assert Denoted(s, max) <= all;
    SubsetSize(Denoted(s, max), all);
  }

  // ----- canonical form

  /** Two lists of ranges that never touch and hold the same addresses are the same list. */
  lemma {:induction false} Canonical(s: seq<Range>, t: seq<Range>, max: nat)
    requires RangesOk(s, max) && RangesOk(t, max) && Apart(s) && Apart(t)
    requires forall a: nat :: Has(s, a) <==> Has(t, a)
    ensures s == t
    decreases |s|
  {
    if s == [] || t == [] {
      BothEmpty(s, t, max);
    } else {
      var m, n := |s| - 1, |t| - 1;
      LastSame(s, t, max);
      LastSame(t, s, max);
      forall a: nat
        ensures Has(s[..m], a) <==> Has(t[..n], a)
      {
        Shortened(s, a, max);
        Shortened(t, a, max);
      }
      Canonical(s[..m], t[..n], max);
    }
  }

  lemma BothEmpty(s: seq<Range>, t: seq<Range>, max: nat)
    requires RangesOk(s, max) && RangesOk(t, max) && (s == [] || t == [])
    requires forall a: nat :: Has(s, a) <==> Has(t, a)
    ensures s == t
  {
    FirstHeld(s, max);
    FirstHeld(t, max);
  }

  lemma FirstHeld(s: seq<Range>, max: nat)
    requires RangesOk(s, max)
    ensures s != [] ==> Has(s, s[0].lo)
  {
    if s != [] {
      assert At(s, 0, s[0].lo);
    }
  }

  lemma Shortened(s: seq<Range>, a: nat, max: nat)
    requires RangesOk(s, max) && Apart(s) && s != []
    ensures Has(s[..|s| - 1], a) <==> Has(s, a) && a < s[|s| - 1].lo
  {
    var n := |s| - 1;
    assert s == s[..n] + [s[n]];
    HasAppend(s[..n], s[n], a);
    if Has(s[..n], a) {
      var i: nat :| At(s[..n], i, a);
      assert s[i].hi + 1 < s[n].lo;
    }
  }

  /** The last range of one list reaches as far, and starts no earlier, than the other's. */
  lemma LastSame(s: seq<Range>, t: seq<Range>, max: nat)
    requires RangesOk(s, max) && RangesOk(t, max) && Apart(s) && Apart(t) && s != [] && t != []
    requires forall a: nat :: Has(s, a) <==> Has(t, a)
    ensures s[|s| - 1].hi <= t[|t| - 1].hi && s[|s| - 1].lo >= t[|t| - 1].lo
  {
    var x, y := s[|s| - 1], t[|t| - 1];
    assert At(s, |s| - 1, x.hi);
    Top(t, x.hi, max);
    if x.lo < y.lo {
      assert At(t, |t| - 1, y.lo);
      Top(s, y.lo, max);
      assert At(s, |s| - 1, y.lo - 1);
      Gap(t, max);
    }
  }

  lemma Top(s: seq<Range>, a: nat, max: nat)
    requires RangesOk(s, max) && Apart(s) && s != [] && Has(s, a)
    ensures a <= s[|s| - 1].hi
  {
    var i: nat :| At(s, i, a);
    assert i < |s| - 1 ==> s[i].hi + 1 < s[|s| - 1].lo;
  }

  /** The address just under the last range is not held. */
  lemma Gap(s: seq<Range>, max: nat)
    requires RangesOk(s, max) && Apart(s) && s != [] && s[|s| - 1].lo > 0
    ensures !Has(s, s[|s| - 1].lo - 1)
  {
    var a := s[|s| - 1].lo - 1;
    forall i: nat
      ensures !At(s, i, a)
    {
      assert i < |s| - 1 ==> s[i].hi + 1 < s[|s| - 1].lo;
    }
  }
}
