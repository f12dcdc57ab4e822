/**
 The two-stream membership join (v4/go/internal/reader/join_membership.go): two selected
 streams are cut at each other's boundaries, and every piece is added to the cross cells,
 the uncovered totals and the side totals it belongs to.
 */
module MembershipJoin {
  import opened Collections
  import opened Presence
  import opened SweepModel
  import opened AddressCount

  /** Both streams; a run lists the feeds of its own side. */
  datatype Sides = Sides(left: seq<Run>, right: seq<Run>, leftWidth: nat, rightWidth: nat, max: nat)

  predicate RunsOk(runs: seq<Run>, width: nat, max: nat) {
    && (forall i {:trigger runs[i]} :: 0 <= i < |runs| ==>
          runs[i].from <= runs[i].to <= max && runs[i].present != [] && Distinct(runs[i].present)
          && forall f :: f in runs[i].present ==> f < width)
    && (forall i, j {:trigger runs[i], runs[j]} :: 0 <= i < j < |runs| ==> runs[i].to < runs[j].from)
  }

  predicate SidesOk(s: Sides) {
    RunsOk(s.left, s.leftWidth, s.max) && RunsOk(s.right, s.rightWidth, s.max)
  }

  ghost predicate Covering(runs: seq<Run>, k: nat, a: nat) {
    k < |runs| && runs[k].from <= a <= runs[k].to
  }

  ghost predicate OnFeed(runs: seq<Run>, f: nat, a: nat) {
    exists k: nat :: Covering(runs, k, a) && f in runs[k].present
  }

  ghost predicate OnSide(runs: seq<Run>, a: nat) {
    exists k: nat :: Covering(runs, k, a)
  }

  /** The addresses of one feed. */
  ghost function FeedSet(runs: seq<Run>, f: nat, max: nat): set<nat> {
    set a: nat | a <= max && OnFeed(runs, f, a)
  }

  /** The addresses of a side: the union of its feeds. */
  ghost function SideSet(runs: seq<Run>, max: nat): set<nat> {
    set a: nat | a <= max && OnSide(runs, a)
  }

  lemma SideIsUnion(runs: seq<Run>, width: nat, max: nat, a: nat)
    requires RunsOk(runs, width, max)
    ensures a in SideSet(runs, max) <==> exists f: nat :: f < width && a in FeedSet(runs, f, max)
  {
    if a in SideSet(runs, max) {
      var k: nat :| Covering(runs, k, a);
      var f := runs[k].present[0];
      assert f in runs[k].present;
      assert a in FeedSet(runs, f, max);
    }
  }

  /** Inside a run the feeds present are the run's. */
  lemma InRun(runs: seq<Run>, width: nat, max: nat, k: nat, a: nat, f: nat)
    requires RunsOk(runs, width, max) && Covering(runs, k, a)
    ensures a in SideSet(runs, max) && (a in FeedSet(runs, f, max) <==> f in runs[k].present)
  {
  }

  // ----- a position in one stream

  /** Where the next address of a stream lies: the rest of run `i` starts at `from`. */
  function Ahead(runs: seq<Run>, i: nat, from: nat, max: nat): nat {
    if i < |runs| then from else max + 1
  }

  ghost predicate Resting(runs: seq<Run>, i: nat, from: nat, done: nat, max: nat) {
    && i <= |runs| && (i < |runs| ==> runs[i].from <= from <= runs[i].to) && done <= Ahead(runs, i, from, max)
    && forall a {:trigger a in SideSet(runs, max)} :: done <= a < Ahead(runs, i, from, max) ==> a !in SideSet(runs, max)
  }

  function NextIndex(runs: seq<Run>, i: nat, to: nat): nat
    requires i < |runs|
  {
    if runs[i].to == to then i + 1 else i
  }

  function NextFrom(runs: seq<Run>, i: nat, to: nat): nat
    requires i < |runs|
  {
    if runs[i].to != to then to + 1 else if i + 1 < |runs| then runs[i + 1].from else 0
  }

  /** The stream's position once everything up to `to` is consumed. */
  lemma Consumed(runs: seq<Run>, width: nat, i: nat, from: nat, done: nat, to: nat, max: nat)
    requires RunsOk(runs, width, max) && Resting(runs, i, from, done, max) && i < |runs| && from <= to <= runs[i].to
    ensures Resting(runs, NextIndex(runs, i, to), NextFrom(runs, i, to), to + 1, max)
  {
    var index, next := NextIndex(runs, i, to), NextFrom(runs, i, to);
    forall a | to + 1 <= a < Ahead(runs, index, next, max)
      ensures a !in SideSet(runs, max)
    {
      forall k: nat ensures !Covering(runs, k, a) { BetweenRuns(runs, width, i, k, a, max); }
    }
  }

  lemma BetweenRuns(runs: seq<Run>, width: nat, i: nat, k: nat, a: nat, max: nat)
    requires RunsOk(runs, width, max) && i < |runs| && runs[i].to < a
    requires i + 1 < |runs| ==> a < runs[i + 1].from
    ensures !Covering(runs, k, a)
  {
    assert k < i && k < |runs| ==> runs[k].to < runs[i].from;
    assert i + 1 < k < |runs| ==> runs[i + 1].to < runs[k].from;
  }

  /** A stream that starts at `hi` or later covers nothing before, and waits. */
  lemma Absent(runs: seq<Run>, i: nat, from: nat, done: nat, hi: nat, max: nat)
    requires Resting(runs, i, from, done, max) && done <= hi <= Ahead(runs, i, from, max)
    ensures SideStretch(runs, max, done, hi, false) && Stretch(runs, max, done, hi, []) && Resting(runs, i, from, hi, max)
  {
    EmptyStretch(runs, max, done, hi);
  }

  lemma RunFacts(runs: seq<Run>, width: nat, i: nat, max: nat)
    requires RunsOk(runs, width, max) && i < |runs|
    ensures runs[i].to <= max && runs[i].present != [] && Distinct(runs[i].present) && forall f :: f in runs[i].present ==> f < width
  {
  }

  // ----- totals

  datatype Stats = Stats(left: nat, right: nat, overlap: nat, leftUncovered: nat, rightUncovered: nat)

  /** One cell of the flat cross matrix. */
  function Cell(l: nat, r: nat, rightWidth: nat): nat {
    l * rightWidth + r
  }

  lemma CellInside(l: nat, r: nat, leftWidth: nat, rightWidth: nat)
    requires l < leftWidth && r < rightWidth
    ensures Cell(l, r, rightWidth) < leftWidth * rightWidth
  {
    assert (l + 1) * rightWidth <= leftWidth * rightWidth;
  }

  lemma RowStep(l: nat, m: nat, rightWidth: nat)
    ensures l < m ==> l * rightWidth + rightWidth <= m * rightWidth
  {
    if l < m {
      assert (l + 1) * rightWidth <= m * rightWidth;
    }
  }

  lemma CellUnique(l: nat, r: nat, m: nat, q: nat, rightWidth: nat)
    requires r < rightWidth && q < rightWidth && Cell(l, r, rightWidth) == Cell(m, q, rightWidth)
    ensures l == m && r == q
  {
    RowStep(l, m, rightWidth);
    RowStep(m, l, rightWidth);
  }

  ghost predicate StatsUpTo(t: Stats, s: Sides, done: nat) {
    var l, r := SideSet(s.left, s.max), SideSet(s.right, s.max);
    && t.left == |Cut(l, done)| && t.right == |Cut(r, done)| && t.overlap == |Cut(l * r, done)|
    && t.leftUncovered == |Cut(l - r, done)| && t.rightUncovered == |Cut(r - l, done)|
  }

  ghost predicate CrossUpTo(cross: seq<nat>, s: Sides, done: nat) {
    && |cross| == s.leftWidth * s.rightWidth
    && forall l: nat, r: nat {:trigger Cell(l, r, s.rightWidth)} :: l < s.leftWidth && r < s.rightWidth ==>
         Cell(l, r, s.rightWidth) < |cross| &&
         cross[Cell(l, r, s.rightWidth)] == |Cut(FeedSet(s.left, l, s.max) * FeedSet(s.right, r, s.max), done)|
  }

  /** The feeds of one side that the other side does not cover. */
  ghost predicate UncoveredUpTo(totals: seq<nat>, runs: seq<Run>, others: seq<Run>, width: nat, max: nat, done: nat) {
    && |totals| == width
    && forall f {:trigger totals[f]} :: 0 <= f < width ==>
         totals[f] == |Cut(FeedSet(runs, f, max) - SideSet(others, max), done)|
  }

  /** What a stretch of addresses holds on one side. */
  ghost predicate Stretch(runs: seq<Run>, max: nat, lo: nat, hi: nat, present: seq<nat>) {
    forall a: nat, f: nat {:trigger a in FeedSet(runs, f, max)} :: lo <= a < hi ==> (a in FeedSet(runs, f, max) <==> f in present)
  }

  ghost predicate SideStretch(runs: seq<Run>, max: nat, lo: nat, hi: nat, inside: bool) {
    forall a: nat {:trigger a in SideSet(runs, max)} :: lo <= a < hi ==> (a in SideSet(runs, max) <==> inside)
  }

  lemma RunStretch(runs: seq<Run>, width: nat, max: nat, k: nat, lo: nat, hi: nat)
    requires RunsOk(runs, width, max) && k < |runs| && runs[k].from <= lo <= hi <= runs[k].to + 1
    ensures Stretch(runs, max, lo, hi, runs[k].present) && SideStretch(runs, max, lo, hi, true)
  {
    forall a: nat, f: nat | lo <= a < hi
      ensures a in SideSet(runs, max) && (a in FeedSet(runs, f, max) <==> f in runs[k].present)
    {
      InRun(runs, width, max, k, a, f);
    }
    forall a: nat | lo <= a < hi ensures a in SideSet(runs, max) { InRun(runs, width, max, k, a, 0); }
  }

  lemma EmptyStretch(runs: seq<Run>, max: nat, lo: nat, hi: nat)
    requires SideStretch(runs, max, lo, hi, false)
    ensures Stretch(runs, max, lo, hi, [])
  {
    forall a: nat, f: nat | lo <= a < hi
      ensures a !in FeedSet(runs, f, max)
    {
      assert a !in SideSet(runs, max);
      assert OnFeed(runs, f, a) ==> OnSide(runs, a);
    }
  }

  function Credit(b: bool, count: nat): nat {
    if b then count else 0
  }

  lemma CrossStretch(before: seq<nat>, after: seq<nat>, s: Sides, lo: nat, hi: nat, left: seq<nat>, right: seq<nat>)
    requires CrossUpTo(before, s, lo) && |after| == |before| && lo <= hi
    requires Stretch(s.left, s.max, lo, hi, left) && Stretch(s.right, s.max, lo, hi, right)
    requires forall l: nat, r: nat {:trigger Cell(l, r, s.rightWidth)} :: l < s.leftWidth && r < s.rightWidth ==>
      Cell(l, r, s.rightWidth) < |before| &&
      after[Cell(l, r, s.rightWidth)] == before[Cell(l, r, s.rightWidth)] + Credit(l in left && r in right, hi - lo)
    ensures CrossUpTo(after, s, hi)
  {
    forall l: nat, r: nat | l < s.leftWidth && r < s.rightWidth
      ensures Cell(l, r, s.rightWidth) < |after|
      ensures after[Cell(l, r, s.rightWidth)] == |Cut(FeedSet(s.left, l, s.max) * FeedSet(s.right, r, s.max), hi)|
    {
      CutStretch(FeedSet(s.left, l, s.max) * FeedSet(s.right, r, s.max), lo, hi, l in left && r in right);
    }
  }

  lemma UncoveredStretch(before: seq<nat>, after: seq<nat>, runs: seq<Run>, others: seq<Run>, width: nat, max: nat, lo: nat, hi: nat, present: seq<nat>, covered: bool)
    requires UncoveredUpTo(before, runs, others, width, max, lo) && |after| == width && lo <= hi
    requires Stretch(runs, max, lo, hi, present) && SideStretch(others, max, lo, hi, covered)
    requires forall f {:trigger after[f]} :: 0 <= f < width ==> after[f] == before[f] + Credit(f in present && !covered, hi - lo)
    ensures UncoveredUpTo(after, runs, others, width, max, hi)
  {
    forall f | 0 <= f < width
      ensures after[f] == |Cut(FeedSet(runs, f, max) - SideSet(others, max), hi)|
    {
      CutStretch(FeedSet(runs, f, max) - SideSet(others, max), lo, hi, f in present && !covered);
    }
  }

  function Added(t: Stats, inLeft: bool, inRight: bool, count: nat): Stats {
    Stats(t.left + Credit(inLeft, count), t.right + Credit(inRight, count), t.overlap + Credit(inLeft && inRight, count),
          t.leftUncovered + Credit(inLeft && !inRight, count), t.rightUncovered + Credit(inRight && !inLeft, count))
  }

  lemma StatsStretch(t: Stats, s: Sides, lo: nat, hi: nat, inLeft: bool, inRight: bool)
    requires StatsUpTo(t, s, lo) && lo <= hi
    requires SideStretch(s.left, s.max, lo, hi, inLeft) && SideStretch(s.right, s.max, lo, hi, inRight)
    ensures StatsUpTo(Added(t, inLeft, inRight, hi - lo), s, hi)
  {
    hide Cut, SideSet;
    var l, r := SideSet(s.left, s.max), SideSet(s.right, s.max);
    CutStretch(l, lo, hi, inLeft);
    CutStretch(r, lo, hi, inRight);
    CutStretch(l * r, lo, hi, inLeft && inRight);
    CutStretch(l - r, lo, hi, inLeft && !inRight);
    CutStretch(r - l, lo, hi, inRight && !inLeft);
  }

  class Join {
    const s: Sides
    var leftIndex: nat
    var leftFrom: nat
    var rightIndex: nat
    var rightFrom: nat
    var stats: Stats
    var cross: seq<nat>
    var leftUncovered: seq<nat>
    var rightUncovered: seq<nat>
    ghost var done: nat

    /** Every total is exact for the addresses below `done`. */
    ghost predicate Exact()
      reads this`stats, this`cross, this`leftUncovered, this`rightUncovered, this`done
    {
      && StatsUpTo(stats, s, done) && CrossUpTo(cross, s, done)
      && UncoveredUpTo(leftUncovered, s.left, s.right, s.leftWidth, s.max, done)
      && UncoveredUpTo(rightUncovered, s.right, s.left, s.rightWidth, s.max, done)
    }

    ghost predicate Valid()
      reads this
    {
      && SidesOk(s) && Exact()
      && Resting(s.left, leftIndex, leftFrom, done, s.max) && Resting(s.right, rightIndex, rightFrom, done, s.max)
    }

    constructor (s: Sides)
      requires SidesOk(s)
      ensures Valid() && this.s == s
    {
      this.s := s;
      leftIndex, leftFrom := 0, if s.left == [] then 0 else s.left[0].from;
      rightIndex, rightFrom := 0, if s.right == [] then 0 else s.right[0].from;
      stats := Stats(0, 0, 0, 0, 0);
      cross := seq(s.leftWidth * s.rightWidth, _ => 0);
      leftUncovered, rightUncovered := seq(s.leftWidth, _ => 0), seq(s.rightWidth, _ => 0);
      done := 0;
      new;
      Nothing(s);
      AtStart(s.left, s.leftWidth, s.max);
      AtStart(s.right, s.rightWidth, s.max);
    }

    /** Nothing lies between the last consumed address and the next one. */
    ghost method SkipTo(from: nat)
      requires Valid() && done <= from <= Ahead(s.left, leftIndex, leftFrom, s.max) && from <= Ahead(s.right, rightIndex, rightFrom, s.max)
      modifies this`done
      ensures Valid() && done == from
    {
      hide Cut, SideSet, FeedSet, StatsUpTo, CrossUpTo, UncoveredUpTo, RunsOk;
      Lengths();
      EmptyStretch(s.left, s.max, done, from);
      EmptyStretch(s.right, s.max, done, from);
      StatsStretch(stats, s, done, from, false, false);
      CrossBound(s);
      CrossStretch(cross, cross, s, done, from, [], []);
      UncoveredStretch(leftUncovered, leftUncovered, s.left, s.right, s.leftWidth, s.max, done, from, [], false);
      UncoveredStretch(rightUncovered, rightUncovered, s.right, s.left, s.rightWidth, s.max, done, from, [], false);
      done := from;
    }

    /** Fold one piece into the totals; a side that does not cover it lists nothing. */
    method Accumulate(left: seq<nat>, right: seq<nat>, from: nat, to: nat)
      requires SidesOk(s) && Exact() && done == from <= to
      requires Stretch(s.left, s.max, done, to + 1, left) && SideStretch(s.left, s.max, done, to + 1, left != [])
      requires Stretch(s.right, s.max, done, to + 1, right) && SideStretch(s.right, s.max, done, to + 1, right != [])
      requires Distinct(left) && Distinct(right) && (forall l :: l in left ==> l < s.leftWidth) && (forall r :: r in right ==> r < s.rightWidth)
      modifies this`stats, this`cross, this`leftUncovered, this`rightUncovered, this`done
      ensures Exact() && done == to + 1
    {
      hide Cut, SideSet, FeedSet, StatsUpTo, CrossUpTo, UncoveredUpTo, RunsOk, Stretch, SideStretch, Distinct;
      var count := to - from + 1;
      CrossBound(s);
      Lengths();
      StatsStretch(stats, s, done, to + 1, left != [], right != []);
      stats := Added(stats, left != [], right != [], count);
      ghost var x, l, r := cross, leftUncovered, rightUncovered;
      if left != [] && right != [] {
        cross := AddCross(cross, left, right, s.leftWidth, s.rightWidth, count);
      } else if left != [] {
        leftUncovered := AddUncovered(leftUncovered, left, count);
      } else if right != [] {
        rightUncovered := AddUncovered(rightUncovered, right, count);
      }
      CrossStretch(x, cross, s, done, to + 1, left, right);
      UncoveredStretch(l, leftUncovered, s.left, s.right, s.leftWidth, s.max, done, to + 1, left, right != []);
      UncoveredStretch(r, rightUncovered, s.right, s.left, s.rightWidth, s.max, done, to + 1, right, left != []);
      done := to + 1;
    }

    /** The left range alone, up to `to`; the right stream starts later. */
    method ConsumeLeft(to: nat)
      requires Valid() && leftIndex < |s.left| && leftFrom <= to <= s.left[leftIndex].to
      requires to < Ahead(s.right, rightIndex, rightFrom, s.max)
      modifies this
      ensures Valid() && old(done) < done <= s.max + 1
    {
      hide Exact, RunsOk, Stretch, SideStretch, SideSet;
      SkipTo(leftFrom);
      RunFacts(s.left, s.leftWidth, leftIndex, s.max);
      RunStretch(s.left, s.leftWidth, s.max, leftIndex, leftFrom, to + 1);
      Absent(s.right, rightIndex, rightFrom, done, to + 1, s.max);
      Consumed(s.left, s.leftWidth, leftIndex, leftFrom, done, to, s.max);
      Accumulate(s.left[leftIndex].present, [], leftFrom, to);
      leftIndex, leftFrom := NextIndex(s.left, leftIndex, to), NextFrom(s.left, leftIndex, to);
    }

    method ConsumeRight(to: nat)
      requires Valid() && rightIndex < |s.right| && rightFrom <= to <= s.right[rightIndex].to
      requires to < Ahead(s.left, leftIndex, leftFrom, s.max)
      modifies this
      ensures Valid() && old(done) < done <= s.max + 1
    {
      hide Exact, RunsOk, Stretch, SideStretch, SideSet;
      SkipTo(rightFrom);
      RunFacts(s.right, s.rightWidth, rightIndex, s.max);
      RunStretch(s.right, s.rightWidth, s.max, rightIndex, rightFrom, to + 1);
      Absent(s.left, leftIndex, leftFrom, done, to + 1, s.max);
      Consumed(s.right, s.rightWidth, rightIndex, rightFrom, done, to, s.max);
      Accumulate([], s.right[rightIndex].present, rightFrom, to);
      rightIndex, rightFrom := NextIndex(s.right, rightIndex, to), NextFrom(s.right, rightIndex, to);
    }

    method ConsumeOverlap()
      requires Valid() && leftIndex < |s.left| && rightIndex < |s.right| && leftFrom == rightFrom
      modifies this
      ensures Valid() && old(done) < done <= s.max + 1
    {
      hide Exact, RunsOk, Stretch, SideStretch, SideSet;
      var to := s.left[leftIndex].to;
      if s.right[rightIndex].to < to {
        to := s.right[rightIndex].to;
      }
      SkipTo(leftFrom);
      RunFacts(s.left, s.leftWidth, leftIndex, s.max);
      RunFacts(s.right, s.rightWidth, rightIndex, s.max);
      RunStretch(s.left, s.leftWidth, s.max, leftIndex, leftFrom, to + 1);
      RunStretch(s.right, s.rightWidth, s.max, rightIndex, rightFrom, to + 1);
      Consumed(s.left, s.leftWidth, leftIndex, leftFrom, done, to, s.max);
      Consumed(s.right, s.rightWidth, rightIndex, rightFrom, done, to, s.max);
      Accumulate(s.left[leftIndex].present, s.right[rightIndex].present, leftFrom, to);
      leftIndex, leftFrom := NextIndex(s.left, leftIndex, to), NextFrom(s.left, leftIndex, to);
      rightIndex, rightFrom := NextIndex(s.right, rightIndex, to), NextFrom(s.right, rightIndex, to);
    }

    /** One step: cut both streams at the nearer boundary. */
    method Step()
      requires Valid() && (leftIndex < |s.left| || rightIndex < |s.right|)
      modifies this
      ensures Valid() && old(done) < done <= s.max + 1
    {
      hide Exact, RunsOk;
      Bounds();
      if rightIndex >= |s.right| {
        ConsumeLeft(s.left[leftIndex].to);
      } else if leftIndex >= |s.left| {
        ConsumeRight(s.right[rightIndex].to);
      } else if s.left[leftIndex].to < rightFrom {
        ConsumeLeft(s.left[leftIndex].to);
      } else if s.right[rightIndex].to < leftFrom {
        ConsumeRight(s.right[rightIndex].to);
      } else if leftFrom < rightFrom {
        ConsumeLeft(rightFrom - 1);
      } else if rightFrom < leftFrom {
        ConsumeRight(leftFrom - 1);
      } else {
        ConsumeOverlap();
      }
    }

    lemma Bounds()
      requires SidesOk(s)
      ensures leftIndex < |s.left| ==> s.left[leftIndex].to <= s.max
      ensures rightIndex < |s.right| ==> s.right[rightIndex].to <= s.max
    {
    }

    method Finish()
      requires Valid()
      modifies this
      ensures Valid() && leftIndex >= |s.left| && rightIndex >= |s.right|
    {
      hide Exact, RunsOk;
      while leftIndex < |s.left| || rightIndex < |s.right|
        invariant Valid()
        decreases s.max + 1 - done
      {
        Step();
      }
    }

    lemma Lengths()
      requires Exact()
      ensures |cross| == s.leftWidth * s.rightWidth && |leftUncovered| == s.leftWidth && |rightUncovered| == s.rightWidth
    {
    }
  }

  lemma Nothing(s: Sides)
    ensures StatsUpTo(Stats(0, 0, 0, 0, 0), s, 0)
    ensures CrossUpTo(seq(s.leftWidth * s.rightWidth, _ => 0), s, 0)
    ensures UncoveredUpTo(seq(s.leftWidth, _ => 0), s.left, s.right, s.leftWidth, s.max, 0)
    ensures UncoveredUpTo(seq(s.rightWidth, _ => 0), s.right, s.left, s.rightWidth, s.max, 0)
  {
    CrossBound(s);
    assert forall t: set<nat> {:trigger Cut(t, 0)} :: Cut(t, 0) == {};
  }

  lemma AtStart(runs: seq<Run>, width: nat, max: nat)
    requires RunsOk(runs, width, max)
    ensures Resting(runs, 0, if runs == [] then 0 else runs[0].from, 0, max)
  {
    var from := if runs == [] then 0 else runs[0].from;
    forall a: nat | a < Ahead(runs, 0, from, max)
      ensures a !in SideSet(runs, max)
    {
      forall k: nat ensures !Covering(runs, k, a) {
        assert 0 < k < |runs| ==> runs[0].to < runs[k].from;
      }
    }
  }

  lemma CrossBound(s: Sides)
    ensures forall l: nat, r: nat {:trigger Cell(l, r, s.rightWidth)} :: l < s.leftWidth && r < s.rightWidth ==>
      Cell(l, r, s.rightWidth) < s.leftWidth * s.rightWidth
  {
    forall l: nat, r: nat | l < s.leftWidth && r < s.rightWidth
      ensures Cell(l, r, s.rightWidth) < s.leftWidth * s.rightWidth
    {
      CellInside(l, r, s.leftWidth, s.rightWidth);
    }
  }

  method AddUncovered(totals: seq<nat>, present: seq<nat>, count: nat) returns (r: seq<nat>)
    requires Distinct(present) && forall f :: f in present ==> f < |totals|
    ensures |r| == |totals| && forall f {:trigger r[f]} :: 0 <= f < |r| ==> r[f] == totals[f] + Credit(f in present, count)
  {
    r := totals;
    forall f | 0 <= f < |r|
      ensures r[f] == totals[f] + Credit(f in present[..0], count)
    {
      assert f !in present[..0];
    }
    for i := 0 to |present|
      invariant |r| == |totals| && forall f {:trigger r[f]} :: 0 <= f < |r| ==> r[f] == totals[f] + Credit(f in present[..i], count)
    {
      assert present[i] in present && present[i] !in present[..i];
      r := r[present[i] := r[present[i]] + count];
      assert present[..i + 1] == present[..i] + [present[i]];
    }
    assert present[..|present|] == present;
  }

  ghost predicate Credited(before: seq<nat>, after: seq<nat>, left: seq<nat>, right: seq<nat>, leftWidth: nat, rightWidth: nat, count: nat) {
    && |after| == |before|
    && forall l: nat, r: nat {:trigger Cell(l, r, rightWidth)} :: l < leftWidth && r < rightWidth ==>
         Cell(l, r, rightWidth) < |before| &&
         after[Cell(l, r, rightWidth)] == before[Cell(l, r, rightWidth)] + Credit(l in left && r in right, count)
  }

  method AddCross(cross: seq<nat>, left: seq<nat>, right: seq<nat>, leftWidth: nat, rightWidth: nat, count: nat) returns (result: seq<nat>)
    requires |cross| == leftWidth * rightWidth && Distinct(left) && Distinct(right)
    requires (forall l :: l in left ==> l < leftWidth) && (forall r :: r in right ==> r < rightWidth)
    ensures Credited(cross, result, left, right, leftWidth, rightWidth, count)
    ensures Adds(cross, result, left, right, rightWidth, count)
  {
    hide Adds;
    result := cross;
    CrossBound(Sides([], [], leftWidth, rightWidth, 0));
    for i := 0 to |left|
      invariant Credited(cross, result, left[..i], right, leftWidth, rightWidth, count)
    {
      ghost var before := result;
      assert left[i] in left;
      result := AddRow(result, left[i], right, leftWidth, rightWidth, count);
      CreditedRow(cross, before, result, left, i, right, leftWidth, rightWidth, count);
    }
    assert left[..|left|] == left;
    CreditedAdds(cross, result, left, right, leftWidth, rightWidth, count);
  }

  /** Left-major: exactly the cells of a present left and a present right feed gained the count. */
  ghost predicate Adds(before: seq<nat>, after: seq<nat>, left: seq<nat>, right: seq<nat>, rightWidth: nat, count: nat) {
    |after| == |before| && forall k {:trigger after[k]} :: 0 <= k < |after| ==>
      rightWidth > 0 && after[k] == before[k] + if k / rightWidth in left && k % rightWidth in right then count else 0
  }

  lemma CreditedAdds(before: seq<nat>, after: seq<nat>, left: seq<nat>, right: seq<nat>, leftWidth: nat, rightWidth: nat, count: nat)
    requires Credited(before, after, left, right, leftWidth, rightWidth, count) && |before| == leftWidth * rightWidth
    ensures Adds(before, after, left, right, rightWidth, count)
  {
    hide Cell;
    forall k | 0 <= k < |after|
      ensures rightWidth > 0 && after[k] == before[k] + if k / rightWidth in left && k % rightWidth in right then count else 0
    {
      CellOf(k, leftWidth, rightWidth);
    }
  }

  /** Every index of the table is the cell of one pair. */
  lemma CellOf(k: nat, leftWidth: nat, rightWidth: nat)
    requires k < leftWidth * rightWidth
    ensures rightWidth > 0 && k / rightWidth < leftWidth && k % rightWidth < rightWidth && Cell(k / rightWidth, k % rightWidth, rightWidth) == k
  {
    assert rightWidth > 0;
    assert k == rightWidth * (k / rightWidth) + k % rightWidth;
    RowStep(leftWidth, k / rightWidth, rightWidth);
  }

  lemma CreditedRow(cross: seq<nat>, before: seq<nat>, after: seq<nat>, left: seq<nat>, i: nat, right: seq<nat>, leftWidth: nat, rightWidth: nat, count: nat)
    requires i < |left| && Distinct(left) && Credited(cross, before, left[..i], right, leftWidth, rightWidth, count)
    requires Credited(before, after, [left[i]], right, leftWidth, rightWidth, count)
    ensures Credited(cross, after, left[..i + 1], right, leftWidth, rightWidth, count)
  {
    assert left[i] !in left[..i];
    assert left[..i + 1] == left[..i] + [left[i]];
  }

  method AddRow(cross: seq<nat>, l: nat, right: seq<nat>, leftWidth: nat, rightWidth: nat, count: nat) returns (result: seq<nat>)
    requires |cross| == leftWidth * rightWidth && l < leftWidth && Distinct(right) && forall r :: r in right ==> r < rightWidth
    ensures Credited(cross, result, [l], right, leftWidth, rightWidth, count)
  {
    result := cross;
    CrossBound(Sides([], [], leftWidth, rightWidth, 0));
    for i := 0 to |right|
      invariant Credited(cross, result, [l], right[..i], leftWidth, rightWidth, count)
    {
      assert right[i] in right;
      var index := Cell(l, right[i], rightWidth);
      CreditedCell(cross, result, l, right, i, leftWidth, rightWidth, count);
      result := result[index := result[index] + count];
    }
    assert right[..|right|] == right;
  }

  lemma CreditedCell(cross: seq<nat>, before: seq<nat>, l: nat, right: seq<nat>, i: nat, leftWidth: nat, rightWidth: nat, count: nat)
    requires i < |right| && Distinct(right) && Credited(cross, before, [l], right[..i], leftWidth, rightWidth, count)
    requires l < leftWidth && right[i] < rightWidth
    ensures
      var index := Cell(l, right[i], rightWidth);
      index < |before| && Credited(cross, before[index := before[index] + count], [l], right[..i + 1], leftWidth, rightWidth, count)
  {
    hide Cell;
    assert right[i] !in right[..i];
    assert right[..i + 1] == right[..i] + [right[i]];
    var index := Cell(l, right[i], rightWidth);
    var after := before[index := before[index] + count];
    forall m: nat, q: nat | m < leftWidth && q < rightWidth
      ensures after[Cell(m, q, rightWidth)] == cross[Cell(m, q, rightWidth)] + Credit(m in [l] && q in right[..i + 1], count)
    {
      if Cell(m, q, rightWidth) == index {
        CellUnique(m, q, l, right[i], rightWidth);
      }
    }
  }

  /** The table is left-major: cell k holds the number of addresses left feed k / rightWidth and right feed k % rightWidth share. */
  ghost predicate Crossed(s: Sides, cross: seq<nat>) {
    forall k {:trigger cross[k]} :: 0 <= k < |cross| ==>
      && s.rightWidth > 0 && k / s.rightWidth < s.leftWidth
      && cross[k] == |FeedSet(s.left, k / s.rightWidth, s.max) * FeedSet(s.right, k % s.rightWidth, s.max)|
  }

  /** Totals over all addresses. */
  ghost predicate Tabulated(s: Sides, stats: Stats, cross: seq<nat>, leftUncovered: seq<nat>, rightUncovered: seq<nat>) {
    var l, r := SideSet(s.left, s.max), SideSet(s.right, s.max);
    && stats == Stats(|l|, |r|, |l * r|, |l - r|, |r - l|)
    && |cross| == s.leftWidth * s.rightWidth && |leftUncovered| == s.leftWidth && |rightUncovered| == s.rightWidth
    && Crossed(s, cross)
    && (forall f {:trigger leftUncovered[f]} :: 0 <= f < s.leftWidth ==> leftUncovered[f] == |FeedSet(s.left, f, s.max) - r|)
    && (forall g {:trigger rightUncovered[g]} :: 0 <= g < s.rightWidth ==> rightUncovered[g] == |FeedSet(s.right, g, s.max) - l|)
  }

  /** The join of two streams is exact, cell by cell, and its side totals add up. */
  method Tabulate(s: Sides) returns (stats: Stats, cross: seq<nat>, leftUncovered: seq<nat>, rightUncovered: seq<nat>)
    requires SidesOk(s)
    ensures Tabulated(s, stats, cross, leftUncovered, rightUncovered)
    ensures stats.left == stats.overlap + stats.leftUncovered && stats.right == stats.overlap + stats.rightUncovered
  {
    hide RunsOk, Join.Exact, Tabulated;
    var join := new Join(s);
    join.Finish();
    join.SkipTo(s.max + 1);
    WholeSpace(s, join);
    Conserved(SideSet(s.left, s.max), SideSet(s.right, s.max));
    TabulatedStats(s, join.stats, join.cross, join.leftUncovered, join.rightUncovered);
    stats, cross, leftUncovered, rightUncovered := join.stats, join.cross, join.leftUncovered, join.rightUncovered;
  }

  lemma TabulatedStats(s: Sides, stats: Stats, cross: seq<nat>, leftUncovered: seq<nat>, rightUncovered: seq<nat>)
    requires Tabulated(s, stats, cross, leftUncovered, rightUncovered)
    ensures
      var l, r := SideSet(s.left, s.max), SideSet(s.right, s.max);
      stats == Stats(|l|, |r|, |l * r|, |l - r|, |r - l|)
  {
  }

  lemma Conserved(l: set<nat>, r: set<nat>)
    ensures |l| == |l * r| + |l - r| && |r| == |l * r| + |r - l|
  {
    assert l == l * r + (l - r) && r == l * r + (r - l);
  }

  lemma CutWhole(t: set<nat>, max: nat)
    requires forall a :: a in t ==> a <= max
    ensures Cut(t, max + 1) == t
  {
  }

  lemma WholeCross(s: Sides, cross: seq<nat>)
    requires CrossUpTo(cross, s, s.max + 1)
    ensures |cross| == s.leftWidth * s.rightWidth && Crossed(s, cross)
  {
    hide Cell, OnFeed;
    forall k | 0 <= k < |cross|
      ensures s.rightWidth > 0 && k / s.rightWidth < s.leftWidth
      ensures cross[k] == |FeedSet(s.left, k / s.rightWidth, s.max) * FeedSet(s.right, k % s.rightWidth, s.max)|
    {
      CellOf(k, s.leftWidth, s.rightWidth);
      CutWhole(FeedSet(s.left, k / s.rightWidth, s.max) * FeedSet(s.right, k % s.rightWidth, s.max), s.max);
    }
  }

  lemma WholeStats(s: Sides, t: Stats)
    requires StatsUpTo(t, s, s.max + 1)
    ensures
      var l, r := SideSet(s.left, s.max), SideSet(s.right, s.max);
      t == Stats(|l|, |r|, |l * r|, |l - r|, |r - l|)
  {
    hide OnSide;
    var l, r := SideSet(s.left, s.max), SideSet(s.right, s.max);
    CutWhole(l, s.max);
    CutWhole(r, s.max);
    CutWhole(l * r, s.max);
    CutWhole(l - r, s.max);
    CutWhole(r - l, s.max);
  }

  lemma WholeUncovered(totals: seq<nat>, runs: seq<Run>, others: seq<Run>, width: nat, max: nat)
    requires UncoveredUpTo(totals, runs, others, width, max, max + 1)
    ensures |totals| == width
    ensures forall f {:trigger totals[f]} :: 0 <= f < width ==> totals[f] == |FeedSet(runs, f, max) - SideSet(others, max)|
  {
    hide OnFeed, OnSide;
    forall f | 0 <= f < width
      ensures totals[f] == |FeedSet(runs, f, max) - SideSet(others, max)|
    {
      CutWhole(FeedSet(runs, f, max) - SideSet(others, max), max);
    }
  }

  lemma WholeSpace(s: Sides, join: Join)
    requires join.s == s && join.Exact() && join.done == s.max + 1
    ensures Tabulated(s, join.stats, join.cross, join.leftUncovered, join.rightUncovered)
  {
    hide FeedSet, SideSet, CrossUpTo, Crossed, StatsUpTo, UncoveredUpTo;
    WholeStats(s, join.stats);
    WholeCross(s, join.cross);
    WholeUncovered(join.leftUncovered, s.left, s.right, s.leftWidth, s.max);
    WholeUncovered(join.rightUncovered, s.right, s.left, s.rightWidth, s.max);
  }
}
