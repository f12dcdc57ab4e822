/** Truncating a slotted page (v4/go/internal/format/put.go, SlottedTruncate). */
module SlottedTrim {
  import opened SlottedBytes
  import opened SlottedPage
  import opened SlottedSort
  import opened SlottedRepack

  // ----- the physical order of a packed page

  /** Offset and place of every record, each once. */
  ghost predicate Pairs(starts: seq<nat>, s: seq<Phys>) {
    && |s| == |starts| && Different(s)
    && (forall k {:trigger s[k]} :: 0 <= k < |s| ==> s[k].index < |starts| && s[k].start == starts[s[k].index])
    && (forall j: nat {:trigger Phys(starts[j], j)} :: j < |starts| ==> Phys(starts[j], j) in s)
  }

  function Order(s: seq<Phys>): seq<nat> {
    seq(|s|, k requires 0 <= k < |s| => s[k].index)
  }

  /** In a packed area, no record starts inside another, and none ends in a gap. */
  lemma NextStarts(starts: seq<nat>, records: seq<Bytes>, upper: nat, i: nat) returns (j: nat)
    requires Apart(starts, records, upper) && Full(starts, records, upper) && i < |starts| && starts[i] + |records[i]| < PAGE
    ensures j < |starts| && j != i && starts[j] == starts[i] + |records[i]|
  {
    var x := starts[i] + |records[i]|;
    assert starts[i] >= upper;
    assert Taken(starts, records, x);
    j :| Inside(starts, records, j, x);
    assert j != i;
    Disjoint(starts, records, upper, i, j);
  }

  lemma Disjoint(starts: seq<nat>, records: seq<Bytes>, upper: nat, i: nat, j: nat)
    requires Apart(starts, records, upper) && i < |starts| && j < |starts| && i != j
    ensures records[i] != [] && records[j] != [] && Clear2(starts[i], |records[i]|, starts[j], |records[j]|)
  {
    assert starts[i] >= upper && starts[j] >= upper;
    assert i < j ==> Clear2(starts[i], |records[i]|, starts[j], |records[j]|);
    assert j < i ==> Clear2(starts[j], |records[j]|, starts[i], |records[i]|);
  }

  /** Sorted by offset, each record ends where the next one starts. */
  lemma Chained(starts: seq<nat>, records: seq<Bytes>, upper: nat, s: seq<Phys>, k: nat)
    requires Apart(starts, records, upper) && Full(starts, records, upper) && Pairs(starts, s) && Rising(s) && k < |s|
    ensures s[k].index < |starts|
    ensures starts[s[k].index] + |records[s[k].index]| == if k + 1 < |s| then s[k + 1].start else PAGE
  {
    var i := s[k].index;
    assert s[k].start == starts[i];
    assert starts[i] + |records[i]| <= PAGE;
    if k + 1 < |s| {
      var n := s[k + 1].index;
      assert s[k + 1].start == starts[n];
      assert s[k] != s[k + 1] && n != i;
      Disjoint(starts, records, upper, i, n);
      assert starts[n] + |records[n]| <= PAGE;
      var j := NextStarts(starts, records, upper, i);
      LaterThan(starts, records, upper, s, k, j);
    } else if starts[i] + |records[i]| < PAGE {
      var j := NextStarts(starts, records, upper, i);
      LaterThan(starts, records, upper, s, k, j);
    }
  }

  /** A record that starts after the one at place `k` comes at place `k + 1` or later. */
  lemma LaterThan(starts: seq<nat>, records: seq<Bytes>, upper: nat, s: seq<Phys>, k: nat, j: nat)
    requires Pairs(starts, s) && Rising(s) && k < |s| && j < |starts| && s[k].start < starts[j]
    ensures k + 1 < |s| && s[k + 1].start <= starts[j]
  {
    assert Phys(starts[j], j) in s;
    var m :| 0 <= m < |s| && s[m] == Phys(starts[j], j);
    assert m > k;
  }

  lemma SortedChain(starts: seq<nat>, records: seq<Bytes>, upper: nat, s: seq<Phys>) returns (inverse: seq<nat>)
    requires Apart(starts, records, upper) && Full(starts, records, upper) && Pairs(starts, s) && Rising(s)
    ensures Chain(starts, records, upper, Order(s)) && Listed(records, Order(s)) && Inverse(Order(s), inverse)
  {
    var order := Order(s);
    forall k | 0 <= k < |order|
      ensures order[k] < |starts|
      ensures starts[order[k]] + |records[order[k]]| == if k + 1 < |order| then starts[order[k + 1]] else PAGE
    {
      Chained(starts, records, upper, s, k);
      if k + 1 < |s| { assert s[k + 1].start == starts[s[k + 1].index]; }
    }
    forall k, m | 0 <= k < m < |order| ensures order[k] != order[m] { assert s[k] != s[m] && s[k].start == starts[s[k].index]; }
    inverse := [];
    while |inverse| < |order|
      invariant |inverse| <= |order|
      invariant forall j {:trigger inverse[j]} :: 0 <= j < |inverse| ==> inverse[j] < |order| && order[inverse[j]] == j
    {
      var j := |inverse|;
      assert Phys(starts[j], j) in s;
      var k: nat :| k < |s| && s[k] == Phys(starts[j], j);
      inverse := inverse + [k];
    }
  }

  lemma PairsStart(starts: seq<nat>, s: seq<Phys>)
    requires |s| == |starts| && forall k {:trigger s[k]} :: 0 <= k < |s| ==> s[k] == Phys(starts[k], k)
    ensures Pairs(starts, s)
  {
    forall j: nat | j < |starts| ensures Phys(starts[j], j) in s { assert s[j] == Phys(starts[j], j); }
  }

  lemma PairsSorted(starts: seq<nat>, s: seq<Phys>, t: seq<Phys>)
    requires Pairs(starts, s) && multiset(s) == multiset(t) && Different(t)
    ensures Pairs(starts, t)
  {
    assert |s| == |multiset(s)| == |multiset(t)| == |t|;
    forall k | 0 <= k < |t|
      ensures t[k].index < |starts| && t[k].start == starts[t[k].index]
    {
      assert t[k] in multiset(t);
      assert t[k] in s;
    }
    forall j: nat | j < |starts|
      ensures Phys(starts[j], j) in t
    {
      assert Phys(starts[j], j) in multiset(s);
    }
  }

  // ----- truncation of records of any size

  method ReadRecords(page: array<Byte>, count: nat, ghost starts: seq<nat>) returns (list: array<Phys>)
    requires page.Length == PAGE && |starts| == count && Slots(page[..], starts)
    ensures fresh(list) && list.Length == count && Pairs(starts, list[..]) && Different(list[..])
  {
    hide U16;
    list := new Phys[count](_ => Phys(0, 0));
    for index := 0 to count
      invariant forall k {:trigger list[k]} :: 0 <= k < index ==> list[k] == Phys(starts[k], k)
    {
      var start := Load(page, Slot(index));
      assert start == starts[index];
      list[index] := Phys(start, index);
    }
    PairsStart(starts, list[..]);
  }

  /** The loop ends with every record that stays in place. */
  lemma Begin(s: Bytes, starts: seq<nat>, records: seq<Bytes>, upper: nat, order: seq<nat>, a: nat, b: nat)
    requires Repr(s, starts, records, upper) && Chain(starts, records, upper, order) && Listed(records, order) && a <= b <= |records|
    ensures |order| == |records| == |starts| && Slot(|records|) <= upper <= PAGE && |s| == PAGE
    ensures Repacking(s, s, starts, records, order, a, b, |order|) && Dest(records, order, a, b, |order|) == PAGE
    ensures Apart(starts, records, upper) && Full(starts, records, upper) && Slots(s, starts) && Cells(s, starts, records)
  {
  }

  lemma LowEnough(starts: seq<nat>, records: seq<Bytes>, upper: nat, order: seq<nat>, a: nat, b: nat)
    requires Chain(starts, records, upper, order) && Listed(records, order) && Apart(starts, records, upper)
    ensures upper <= Dest(records, order, a, b, 0) <= PAGE
  {
    hide Chain, Apart, Dest;
    ChainStep(starts, records, upper, order, 0);
    DestAbove(starts, records, upper, order, a, b, 0);
    LowestIsUpper(starts, records, upper, order);
  }

  /** Move the records of one run of physical places, from the top down. */
  method Pack(page: array<Byte>, list: array<Phys>, keep: nat, ghost starts: seq<nat>, ghost records: seq<Bytes>, ghost upper: nat)
    returns (destination: nat)
    requires page.Length == PAGE && Repr(page[..], starts, records, upper) && keep <= |records|
    requires Pairs(starts, list[..]) && Rising(list[..]) && Chain(starts, records, upper, Order(list[..])) && Listed(records, Order(list[..]))
    modifies page
    ensures |records| == |starts| == |Order(list[..])| && list[..] == old(list[..])
    ensures Repacking(old(page[..]), page[..], starts, records, Order(list[..]), keep, |records|, 0)
    ensures destination == Dest(records, Order(list[..]), keep, |records|, 0) <= PAGE
  {
    hide Repr, Chain, Apart, Full, Cells, Repacking, Dest, U16, Pairs, Rising, Listed, Moved, PutU16;
    ghost var s, order, n := page[..], Order(list[..]), |records|;
    Begin(s, starts, records, upper, order, keep, n);
    destination := PAGE;
    var physical: nat := list.Length;
    while physical > 0
      invariant physical <= list.Length == |order| && list[..] == old(list[..])
      invariant Repacking(s, page[..], starts, records, order, keep, n, physical) && destination == Dest(records, order, keep, n, physical) <= PAGE
    {
      physical := physical - 1;
      var record := list[physical];
      var end := if physical + 1 < list.Length then list[physical + 1].start else PAGE;
      Chained(starts, records, upper, list[..], physical);
      PairAt(starts, list[..], physical);
      if record.index < keep {
        PlaceOne(s, page[..], starts, records, upper, order, keep, n, physical);
        var length := end - record.start;
        DestStep(records, order, keep, n, physical);
        var newStart := destination - length;
        CopyWithin(page, newStart, record.start, length);
        Store(page, Slot(record.index), newStart);
        destination := newStart;
      } else {
        SkipOne(s, page[..], starts, records, upper, order, keep, n, physical);
      }
    }
  }

  lemma PairAt(starts: seq<nat>, s: seq<Phys>, k: nat)
    requires Pairs(starts, s) && k < |s|
    ensures s[k].index < |starts| && s[k].start == starts[s[k].index]
  {
  }

  /** Keep the first records of the list. */
  method Truncate(page: array<Byte>, keep: nat, ghost records: seq<Bytes>) returns (valid: bool)
    requires page.Length == PAGE && Holds(page[..], records)
    modifies page
    ensures valid <==> 0 < keep <= |records|
    ensures !valid ==> page[..] == old(page[..])
    ensures valid ==> Holds(page[..], records[..keep]) && SameHead(old(page[..]), page[..])
  {
    hide Repr, Holds, Chain, Apart, Full, Cells, Repacking, Dest, U16, Pairs, Rising, Listed, Slots, Inverse, Cleared, Stamped, Different;
    ghost var starts, top := HoldsRepr(page[..], records);
    var count := Load(page, COUNT);
    var lower := Load(page, LOWER);
    var upper := Load(page, UPPER);
    if keep == 0 || keep > count {
      return false;
    }
    if keep == count {
      assert records[..keep] == records;
      return true;
    }
    ghost var s := page[..];
    Parts(s, starts, records, top);
    var list := ReadRecords(page, count, starts);
    ghost var pairs := list[..];
    SortPhysical(list);
    PairsSorted(starts, pairs, list[..]);
    ghost var inverse := SortedChain(starts, records, top, list[..]);
    var destination := Pack(page, list, keep, starts, records, top);
    ghost var order := Order(list[..]);
    LowEnough(starts, records, top, order, keep, count);
    RepackRepr(s, page[..], starts, records, top, order, inverse, keep, count);
    assert Kept(records, keep, count) == records[..keep];
    Clear(page, Slot(keep), lower);
    Clear(page, upper, destination);
    Stamp(page, keep, destination);
    return true;
  }

  lemma Parts(s: Bytes, starts: seq<nat>, records: seq<Bytes>, upper: nat)
    requires Repr(s, starts, records, upper)
    ensures |s| == PAGE && |starts| == |records| && Slot(|records|) <= upper <= PAGE
    ensures Apart(starts, records, upper) && Full(starts, records, upper) && Slots(s, starts) && Cells(s, starts, records)
  {
  }
}
