/**
 The one-pass analyses over the sweep (v4/go/internal/reader/algebra.go): the union count
 of a feed selection and the comparison of two.
 */
module SweepAnalysis {
  import opened Presence
  import opened SweepModel
  import opened Sweep
  import opened AddressCount

  /** All feeds, or named ones as ascending positions with a flag for each feed. */
  datatype Selection = All | Named(positions: seq<nat>, flags: seq<bool>)

  predicate SelectionOk(s: Selection, feeds: nat) {
    s.Named? ==>
      && |s.flags| == feeds
      && (forall i, j :: 0 <= i < j < |s.positions| ==> s.positions[i] < s.positions[j])
      && (forall i :: 0 <= i < |s.positions| ==> s.positions[i] < feeds && s.flags[s.positions[i]])
      && (forall g :: 0 <= g < feeds && s.flags[g] ==> g in s.positions)
  }

  predicate Selects(s: Selection, g: nat) {
    s.All? || g in s.positions
  }

  /** Some selected feed has a source at address `a`. */
  ghost predicate Covers(sources: seq<Source>, s: Selection, feeds: nat, a: nat) {
    exists g: nat :: g < feeds && Selects(s, g) && CountAt(sources, |sources|, g, a) > 0
  }

  /** The addresses a selection covers. */
  ghost function Covered(sources: seq<Source>, s: Selection, feeds: nat, max: nat): set<nat> {
    set a: nat | a <= max && Covers(sources, s, feeds, a)
  }

  /** The addresses of one global feed, over all sources. */
  ghost function FeedAddresses(sources: seq<Source>, g: nat, max: nat): set<nat> {
    set a: nat | a <= max && CountAt(sources, |sources|, g, a) > 0
  }

  /** A named selection covers an address exactly when one of its feeds does; all feeds, when any does. */
  lemma CoveredMeans(sources: seq<Source>, s: Selection, feeds: nat, max: nat, a: nat)
    ensures a in Covered(sources, s, feeds, max) <==>
      exists g: nat :: g < feeds && (s.Named? ==> g in s.positions) && a in FeedAddresses(sources, g, max)
  {
    if a in Covered(sources, s, feeds, max) {
      var g: nat :| g < feeds && Selects(s, g) && CountAt(sources, |sources|, g, a) > 0;
      assert a in FeedAddresses(sources, g, max);
    }
    if g: nat :| g < feeds && (s.Named? ==> g in s.positions) && a in FeedAddresses(sources, g, max) {
      assert Selects(s, g) && CountAt(sources, |sources|, g, a) > 0;
    }
  }

  ghost predicate Listed(present: seq<nat>, counts: seq<nat>) {
    forall g {:trigger g in present} :: g in present <==> 0 <= g < |counts| && counts[g] > 0
  }

  /** Iterates the smaller side. */
  method Any(s: Selection, present: seq<nat>, counts: seq<nat>) returns (found: bool)
    requires SelectionOk(s, |counts|) && Listed(present, counts)
    ensures found <==> exists g: nat :: g < |counts| && Selects(s, g) && counts[g] > 0
  {
    if s.All? {
      if present != [] {
        assert present[0] in present;
      }
      forall g: nat | g < |counts| && counts[g] > 0 ensures g in present {}
      return present != [];
    }
    if |s.positions| < |present| {
      for i := 0 to |s.positions|
        invariant forall j :: 0 <= j < i ==> counts[s.positions[j]] == 0
      {
        if counts[s.positions[i]] != 0 {
          return true;
        }
      }
      return false;
    }
    forall j | 0 <= j < |present| ensures present[j] < |counts| { assert present[j] in present; }
    for i := 0 to |present|
      invariant forall j :: 0 <= j < i ==> !s.flags[present[j]]
    {
      if s.flags[present[i]] {
        assert present[i] in present;
        return true;
      }
    }
    forall g: nat | g < |counts| && Selects(s, g)
      ensures counts[g] == 0
    {
      assert s.flags[g];
      assert g !in present;
    }
    return false;
  }

  /** A selection covers all of a segment or none of it. */
  lemma Uniform(seg: Segment, sources: seq<Source>, s: Selection, feeds: nat, max: nat, inside: bool)
    requires Exact(seg, sources, feeds, max)
    requires inside <==> exists g: nat :: g < |seg.counts| && Selects(s, g) && seg.counts[g] > 0
    ensures forall a :: seg.from <= a < seg.to + 1 ==> (a in Covered(sources, s, feeds, max) <==> inside)
  {
    forall a: nat | seg.from <= a <= seg.to
      ensures Covers(sources, s, feeds, a) <==> inside
    {
      if inside {
        var g: nat :| g < feeds && Selects(s, g) && seg.counts[g] > 0;
        assert CountAt(sources, |sources|, g, a) > 0;
      }
      if Covers(sources, s, feeds, a) {
        var g: nat :| g < feeds && Selects(s, g) && CountAt(sources, |sources|, g, a) > 0;
        assert seg.counts[g] == CountAt(sources, |sources|, g, a);
      }
    }
  }

  function EndOf(segments: seq<Segment>, n: nat): nat
    requires n <= |segments|
  {
    if n == 0 then 0 else segments[n - 1].to + 1
  }

  function StartOf(segments: seq<Segment>, n: nat, max: nat): nat
    requires n <= |segments|
  {
    if n == |segments| then max + 1 else segments[n].from
  }

  /** Nothing is chosen between two segments, before the first or after the last. */
  lemma Gap(segments: seq<Segment>, n: nat, sources: seq<Source>, s: Selection, feeds: nat, max: nat)
    requires Emitted(segments, sources, feeds, max + 1, max) && n <= |segments|
    ensures EndOf(segments, n) <= StartOf(segments, n, max)
    ensures forall a :: EndOf(segments, n) <= a < StartOf(segments, n, max) ==> a !in Covered(sources, s, feeds, max)
  {
    forall a | EndOf(segments, n) <= a < StartOf(segments, n, max)
      ensures a !in Covered(sources, s, feeds, max)
    {
      if Covers(sources, s, feeds, a) {
        var g: nat :| g < feeds && Selects(s, g) && CountAt(sources, |sources|, g, a) > 0;
        var k: nat :| Inside(segments, k, a);
        NotInside(segments, n, k, a, max);
      }
    }
  }

  lemma NotInside(segments: seq<Segment>, n: nat, k: nat, a: nat, max: nat)
    requires n <= |segments| && forall i, j {:trigger segments[i], segments[j]} :: 0 <= i < j < |segments| ==> segments[i].to < segments[j].from
    requires forall i {:trigger segments[i]} :: 0 <= i < |segments| ==> segments[i].from <= segments[i].to
    requires EndOf(segments, n) <= a < StartOf(segments, n, max)
    ensures !Inside(segments, k, a)
  {
  }

  /** The size of the union of the selected feeds. */
  method Count(sources: seq<Source>, s: Selection, feeds: nat, max: nat) returns (addresses: nat)
    requires SourcesOk(sources, feeds, max) && SelectionOk(s, feeds)
    ensures addresses == |Covered(sources, s, feeds, max)|
  {
    hide SourcesOk, SelectionOk, Covered, Cut;
    var segments := Segments(sources, feeds, max);
    addresses := 0;
    ghost var all := Covered(sources, s, feeds, max);
    CutNone(all);
    for i := 0 to |segments|
      invariant addresses == |Cut(all, EndOf(segments, i))|
    {
      var seg := segments[i];
      Gap(segments, i, sources, s, feeds, max);
      CutGap(all, EndOf(segments, i), seg.from);
      var selected := Any(s, seg.present, seg.counts);
      Uniform(seg, sources, s, feeds, max, selected);
      CutStretch(all, seg.from, seg.to + 1, selected);
      if selected {
        addresses := addresses + (seg.to - seg.from + 1);
      }
    }
    Gap(segments, |segments|, sources, s, feeds, max);
    CutGap(all, EndOf(segments, |segments|), max + 1);
    CutAll(sources, s, feeds, max);
  }

  lemma CutNone(s: set<nat>)
    ensures |Cut(s, 0)| == 0
  {
    assert Cut(s, 0) == {};
  }

  lemma CutAll(sources: seq<Source>, s: Selection, feeds: nat, max: nat)
    ensures Cut(Covered(sources, s, feeds, max), max + 1) == Covered(sources, s, feeds, max)
  {
  }

  datatype Comparison = Comparison(left: nat, right: nat, overlap: nat, leftOnly: nat, rightOnly: nat, union: nat)

  /** The totals of the two sets below `n`. */
  ghost predicate Totals(c: Comparison, left: set<nat>, right: set<nat>, n: nat) {
    && c.left == |Cut(left, n)| && c.right == |Cut(right, n)|
    && c.overlap == |Cut(left * right, n)| && c.union == |Cut(left + right, n)|
    && c.leftOnly == |Cut(left - right, n)| && c.rightOnly == |Cut(right - left, n)|
  }

  function Tallied(c: Comparison, inLeft: bool, inRight: bool, count: nat): Comparison {
    if inLeft && inRight then
      c.(left := c.left + count, right := c.right + count, overlap := c.overlap + count, union := c.union + count)
    else if inLeft then c.(left := c.left + count, leftOnly := c.leftOnly + count, union := c.union + count)
    else if inRight then c.(right := c.right + count, rightOnly := c.rightOnly + count, union := c.union + count)
    else c
  }

  lemma TotalsStretch(c: Comparison, left: set<nat>, right: set<nat>, lo: nat, hi: nat, inLeft: bool, inRight: bool)
    requires lo <= hi && Totals(c, left, right, lo)
    requires forall a :: lo <= a < hi ==> (a in left <==> inLeft)
    requires forall a :: lo <= a < hi ==> (a in right <==> inRight)
    ensures Totals(Tallied(c, inLeft, inRight, hi - lo), left, right, hi)
  {
    hide Cut;
    CutStretch(left, lo, hi, inLeft);
    CutStretch(right, lo, hi, inRight);
    CutStretch(left * right, lo, hi, inLeft && inRight);
    CutStretch(left + right, lo, hi, inLeft || inRight);
    CutStretch(left - right, lo, hi, inLeft && !inRight);
    CutStretch(right - left, lo, hi, inRight && !inLeft);
  }

  /** The four cases of a segment, added up into exact totals. */
  method Compare(sources: seq<Source>, left: Selection, right: Selection, feeds: nat, max: nat)
    returns (c: Comparison, equal: bool)
    requires SourcesOk(sources, feeds, max) && SelectionOk(left, feeds) && SelectionOk(right, feeds)
    ensures
      var l, r := Covered(sources, left, feeds, max), Covered(sources, right, feeds, max);
      && c == Comparison(|l|, |r|, |l * r|, |l - r|, |r - l|, |l + r|)
      && (equal <==> l == r)
  {
    hide SourcesOk, SelectionOk, Covered, Cut, Totals;
    var segments := Segments(sources, feeds, max);
    ghost var l, r := Covered(sources, left, feeds, max), Covered(sources, right, feeds, max);
    c := Comparison(0, 0, 0, 0, 0, 0);
    TotalsNone(l, r);
    for i := 0 to |segments|
      invariant Totals(c, l, r, EndOf(segments, i))
    {
      var seg := segments[i];
      Gap(segments, i, sources, left, feeds, max);
      Gap(segments, i, sources, right, feeds, max);
      TotalsStretch(c, l, r, EndOf(segments, i), seg.from, false, false);
      var inLeft := Any(left, seg.present, seg.counts);
      var inRight := Any(right, seg.present, seg.counts);
      Uniform(seg, sources, left, feeds, max, inLeft);
      Uniform(seg, sources, right, feeds, max, inRight);
      TotalsStretch(c, l, r, seg.from, seg.to + 1, inLeft, inRight);
      c := Tallied(c, inLeft, inRight, seg.to - seg.from + 1);
    }
    Gap(segments, |segments|, sources, left, feeds, max);
    Gap(segments, |segments|, sources, right, feeds, max);
    TotalsStretch(c, l, r, EndOf(segments, |segments|), max + 1, false, false);
    TotalsAll(c, sources, left, right, feeds, max);
    equal := c.leftOnly == 0 && c.rightOnly == 0;
    EqualMeaning(l, r);
  }

  lemma EqualMeaning(l: set<nat>, r: set<nat>)
    ensures l == r <==> |l - r| == 0 && |r - l| == 0
  {
    if |l - r| == 0 && |r - l| == 0 {
      assert l - r == {} && r - l == {};
      assert forall a :: a in l && a !in r ==> a in l - r;
      assert forall a :: a in r && a !in l ==> a in r - l;
    }
  }

  lemma TotalsNone(l: set<nat>, r: set<nat>)
    ensures Totals(Comparison(0, 0, 0, 0, 0, 0), l, r, 0)
  {
    CutNone(l);
    CutNone(r);
    CutNone(l * r);
    CutNone(l + r);
    CutNone(l - r);
    CutNone(r - l);
  }

  lemma TotalsAll(c: Comparison, sources: seq<Source>, left: Selection, right: Selection, feeds: nat, max: nat)
    requires Totals(c, Covered(sources, left, feeds, max), Covered(sources, right, feeds, max), max + 1)
    ensures
      var l, r := Covered(sources, left, feeds, max), Covered(sources, right, feeds, max);
      c == Comparison(|l|, |r|, |l * r|, |l - r|, |r - l|, |l + r|)
  {
    var l, r := Covered(sources, left, feeds, max), Covered(sources, right, feeds, max);
    assert Cut(l, max + 1) == l && Cut(r, max + 1) == r;
    assert Cut(l * r, max + 1) == l * r && Cut(l + r, max + 1) == l + r;
    assert Cut(l - r, max + 1) == l - r && Cut(r - l, max + 1) == r - l;
  }
}
