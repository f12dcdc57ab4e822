/**
 The report of the membership join (v4/go/internal/reader/join_membership.go): the cross cells
 in left-major order and the uncovered feeds, left side first, in batches of 32.
 */
module JoinOutput {
  import opened MembershipJoin
  import opened SweepModel

  const BATCH := 32

  /** Addresses that a left and a right feed share; feeds are named by their place in the scope. */
  datatype CrossCell = CrossCell(left: nat, right: nat, addresses: nat)

  datatype Side = OnLeft | OnRight

  datatype UncoveredFeed = UncoveredFeed(side: Side, feed: nat, addresses: nat)

  function Flat<T>(batches: seq<seq<T>>): seq<T> {
    if batches == [] then [] else Flat(batches[..|batches| - 1]) + batches[|batches| - 1]
  }

  lemma FlatAppend<T>(batches: seq<seq<T>>, batch: seq<T>)
    ensures Flat(batches + [batch]) == Flat(batches) + batch
  {
    assert (batches + [batch])[..|batches|] == batches;
  }

  /** Batches are full, except that the last may be short; none is empty. */
  ghost predicate Batched<T>(batches: seq<seq<T>>) {
    && (forall i {:trigger batches[i]} :: 0 <= i < |batches| ==> 0 < |batches[i]| <= 32)
    && (forall i {:trigger batches[i]} :: 0 <= i < |batches| - 1 ==> |batches[i]| == 32)
  }

  /** Every batch so far is full. */
  ghost predicate AllFull<T>(batches: seq<seq<T>>) {
    forall i {:trigger batches[i]} :: 0 <= i < |batches| ==> |batches[i]| == 32
  }

  /** Append to the batch under construction and hand it over when it is full. */
  method Push<T>(batches0: seq<seq<T>>, batch0: seq<T>, item: T) returns (batches: seq<seq<T>>, batch: seq<T>)
    requires AllFull(batches0) && |batch0| < 32
    ensures AllFull(batches) && |batch| < 32
    ensures Flat(batches) + batch == Flat(batches0) + batch0 + [item]
  {
    batches, batch := batches0, batch0 + [item];
    if |batch| == BATCH {
      FlatAppend(batches, batch);
      batches, batch := batches + [batch], [];
      assert Flat(batches) + [] == Flat(batches0) + (batch0 + [item]);
    }
  }

  method Finish<T>(batches0: seq<seq<T>>, batch: seq<T>) returns (batches: seq<seq<T>>)
    requires AllFull(batches0) && |batch| < 32
    ensures Batched(batches) && Flat(batches) == Flat(batches0) + batch
  {
    batches := batches0;
    if |batch| != 0 {
      FlatAppend(batches, batch);
      batches := batches + [batch];
    }
  }

  lemma RowMajor(l: nat, r: nat, width: nat)
    requires r < width
    ensures (l * width + r) / width == l && (l * width + r) % width == r
  {
    var k := l * width + r;
    assert k == width * (k / width) + k % width;
    RowStep(l, k / width, width);
    RowStep(k / width, l, width);
  }

  ghost predicate Cells(cells: seq<CrossCell>, rightWidth: nat, totals: seq<nat>) {
    |cells| <= |totals| && forall k {:trigger cells[k]} :: 0 <= k < |cells| ==>
      rightWidth > 0 && cells[k] == CrossCell(k / rightWidth, k % rightWidth, totals[k])
  }

  lemma OneCell(cells: seq<CrossCell>, rightWidth: nat, totals: seq<nat>, l: nat, r: nat)
    requires Cells(cells, rightWidth, totals) && r < rightWidth && |cells| == l * rightWidth + r < |totals|
    ensures Cells(cells + [CrossCell(l, r, totals[|cells|])], rightWidth, totals)
  {
    RowMajor(l, r, rightWidth);
  }

  /** The inner loop of emitCrossCells. */
  method EmitRow(l: nat, leftWidth: nat, rightWidth: nat, totals: seq<nat>, batches0: seq<seq<CrossCell>>, batch0: seq<CrossCell>)
    returns (batches: seq<seq<CrossCell>>, batch: seq<CrossCell>)
    requires l < leftWidth && |totals| == leftWidth * rightWidth && AllFull(batches0) && |batch0| < 32
    requires |Flat(batches0) + batch0| == l * rightWidth && Cells(Flat(batches0) + batch0, rightWidth, totals)
    ensures AllFull(batches) && |batch| < 32
    ensures |Flat(batches) + batch| == (l + 1) * rightWidth && Cells(Flat(batches) + batch, rightWidth, totals)
  {
    hide Flat, AllFull, Cells;
    batches, batch := batches0, batch0;
    RowStep(l, leftWidth, rightWidth);
    var index := l * rightWidth;
    for r := 0 to rightWidth
      invariant index == l * rightWidth + r && AllFull(batches) && |batch| < 32 && |Flat(batches) + batch| == index
      invariant Cells(Flat(batches) + batch, rightWidth, totals)
    {
      OneCell(Flat(batches) + batch, rightWidth, totals, l, r);
      batches, batch := Push(batches, batch, CrossCell(l, r, totals[index]));
      index := index + 1;
    }
    NextRow(l, rightWidth);
  }

  lemma NextRow(l: nat, rightWidth: nat)
    ensures (l + 1) * rightWidth == l * rightWidth + rightWidth
  {
  }

  /** emitCrossCells: the running index follows the table row by row. */
  method EmitCross(leftWidth: nat, rightWidth: nat, totals: seq<nat>) returns (batches: seq<seq<CrossCell>>)
    requires |totals| == leftWidth * rightWidth
    ensures Batched(batches) && |Flat(batches)| == |totals|
    ensures forall k {:trigger Flat(batches)[k]} :: 0 <= k < |totals| ==>
      rightWidth > 0 && Flat(batches)[k] == CrossCell(k / rightWidth, k % rightWidth, totals[k])
  {
    if |totals| == 0 {
      return [];
    }
    batches := [];
    var batch: seq<CrossCell> := [];
    for l := 0 to leftWidth
      invariant AllFull(batches) && |batch| < 32 && |Flat(batches) + batch| == l * rightWidth
      invariant Cells(Flat(batches) + batch, rightWidth, totals)
    {
      batches, batch := EmitRow(l, leftWidth, rightWidth, totals, batches, batch);
    }
    batches := Finish(batches, batch);
  }

  method EmitSide(side: Side, totals: seq<nat>) returns (batches: seq<seq<UncoveredFeed>>)
    ensures Batched(batches) && |Flat(batches)| == |totals|
    ensures forall f {:trigger Flat(batches)[f]} :: 0 <= f < |totals| ==> Flat(batches)[f] == UncoveredFeed(side, f, totals[f])
  {
    batches := [];
    var batch: seq<UncoveredFeed> := [];
    for f := 0 to |totals|
      invariant AllFull(batches) && |batch| < 32 && |Flat(batches) + batch| == f
      invariant forall k {:trigger (Flat(batches) + batch)[k]} :: 0 <= k < f ==> (Flat(batches) + batch)[k] == UncoveredFeed(side, k, totals[k])
    {
      ghost var done := Flat(batches) + batch;
      batches, batch := Push(batches, batch, UncoveredFeed(side, f, totals[f]));
      assert Flat(batches) + batch == done + [UncoveredFeed(side, f, totals[f])];
    }
    batches := Finish(batches, batch);
  }

  /** Cell k names left feed k / rightWidth and right feed k % rightWidth with the number of addresses the two share. */
  ghost predicate CrossReport(s: Sides, cells: seq<CrossCell>) {
    |cells| == s.leftWidth * s.rightWidth && forall k {:trigger cells[k]} :: 0 <= k < |cells| ==>
      && s.rightWidth > 0 && k / s.rightWidth < s.leftWidth
      && cells[k] == CrossCell(k / s.rightWidth, k % s.rightWidth,
                               |FeedSet(s.left, k / s.rightWidth, s.max) * FeedSet(s.right, k % s.rightWidth, s.max)|)
  }

  /** Feed by feed, the number of addresses of one side that the other lacks. */
  ghost predicate SideReport(side: Side, runs: seq<Run>, others: seq<Run>, width: nat, max: nat, feeds: seq<UncoveredFeed>) {
    |feeds| == width && forall f {:trigger feeds[f]} :: 0 <= f < width ==>
      feeds[f] == UncoveredFeed(side, f, |FeedSet(runs, f, max) - SideSet(others, max)|)
  }

  /** The whole join: totals, cross cells, and the uncovered feeds of either side, in batches. */
  method Report(s: Sides) returns (stats: Stats, cross: seq<seq<CrossCell>>, left: seq<seq<UncoveredFeed>>, right: seq<seq<UncoveredFeed>>)
    requires SidesOk(s)
    ensures Batched(cross) && Batched(left) && Batched(right)
    ensures CrossReport(s, Flat(cross))
    ensures SideReport(OnLeft, s.left, s.right, s.leftWidth, s.max, Flat(left))
    ensures SideReport(OnRight, s.right, s.left, s.rightWidth, s.max, Flat(right))
    ensures
      var l, r := SideSet(s.left, s.max), SideSet(s.right, s.max);
      stats == Stats(|l|, |r|, |l * r|, |l - r|, |r - l|)
  {
    hide RunsOk, FeedSet, SideSet, Flat, Batched, CrossReport, SideReport, Crossed;
    var table, leftUncovered, rightUncovered;
    stats, table, leftUncovered, rightUncovered := Tabulate(s);
    cross := EmitCross(s.leftWidth, s.rightWidth, table);
    left := EmitSide(OnLeft, leftUncovered);
    right := EmitSide(OnRight, rightUncovered);
    CrossIs(s, table, Flat(cross));
    SideIs(OnLeft, s.left, s.right, s.leftWidth, s.max, leftUncovered, Flat(left));
    SideIs(OnRight, s.right, s.left, s.rightWidth, s.max, rightUncovered, Flat(right));
  }

  lemma CrossIs(s: Sides, table: seq<nat>, cells: seq<CrossCell>)
    requires Crossed(s, table) && |cells| == |table| == s.leftWidth * s.rightWidth
    requires forall k {:trigger cells[k]} :: 0 <= k < |table| ==>
      s.rightWidth > 0 && cells[k] == CrossCell(k / s.rightWidth, k % s.rightWidth, table[k])
    ensures CrossReport(s, cells)
  {
    hide FeedSet;
  }

  lemma SideIs(side: Side, runs: seq<Run>, others: seq<Run>, width: nat, max: nat, totals: seq<nat>, feeds: seq<UncoveredFeed>)
    requires |feeds| == |totals| == width
    requires forall f {:trigger totals[f]} :: 0 <= f < width ==> totals[f] == |FeedSet(runs, f, max) - SideSet(others, max)|
    requires forall f {:trigger feeds[f]} :: 0 <= f < |totals| ==> feeds[f] == UncoveredFeed(side, f, totals[f])
    ensures SideReport(side, runs, others, width, max, feeds)
  {
    hide FeedSet, SideSet;
  }
}
