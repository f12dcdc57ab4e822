/** Pages of fixed-size records (v4/go/internal/format/put.go, fixedPositions and its users). */
module SlottedFixed {
  import opened Collections
  import opened SlottedBytes
  import opened SlottedPage
  import opened SlottedRepack
  import opened SlottedTrim

  // ----- counting

  ghost function Upto(n: nat): set<nat> {
    if n == 0 then {} else Upto(n - 1) + {n - 1}
  }

  lemma {:induction false} UptoIs(n: nat)
    ensures |Upto(n)| == n && forall x: nat :: x in Upto(n) <==> x < n
  {
    if n > 0 {
      UptoIs(n - 1);
    }
  }

  /** As many different numbers below `n` as there are leave none out. */
  lemma Onto(s: seq<nat>, n: nat)
    requires Distinct(s) && |s| == n && forall i {:trigger s[i]} :: 0 <= i < |s| ==> s[i] < n
    ensures forall v: nat {:trigger v in s} :: v < n ==> v in s
  {
    UptoIs(n);
    ElementsSize(s);
    assert Elements(s) <= Upto(n);
    assert Upto(n) == Elements(s) + (Upto(n) - Elements(s));
    assert Upto(n) - Elements(s) == {};
    forall v: nat | v < n
      ensures v in s
    {
      assert v in Upto(n);
      assert v in Elements(s);
    }
  }

  /** Different numbers that are exactly those below `n`: there are `n` of them. */
  lemma Exactly(s: seq<nat>, n: nat)
    requires Distinct(s) && (forall i {:trigger s[i]} :: 0 <= i < |s| ==> s[i] < n) && (forall v: nat {:trigger v in s} :: v < n ==> v in s)
    ensures |s| == n
  {
    UptoIs(n);
    ElementsSize(s);
    assert Elements(s) == Upto(n);
  }

  // ----- a grid of equal cells

  predicate Uniform(records: seq<Bytes>, len: nat) {
    forall i {:trigger records[i]} :: 0 <= i < |records| ==> |records[i]| == len
  }

  lemma Times(a: nat, b: nat, s: nat)
    ensures a < b ==> a * s + s <= b * s
  {
    if a < b {
      assert (a + 1) * s <= b * s;
    }
  }

  /** On a page of equal records every offset is a whole number of cells from the first. */
  lemma {:induction false} OnGrid(starts: seq<nat>, records: seq<Bytes>, upper: nat, len: nat, j: nat) returns (k: nat)
    requires Apart(starts, records, upper) && Full(starts, records, upper) && Uniform(records, len) && j < |starts|
    ensures starts[j] == upper + k * len
    decreases starts[j]
  {
    assert upper <= starts[j] && starts[j] + |records[j]| <= PAGE && records[j] != [];
    if starts[j] == upper {
      k := 0;
    } else {
      var x := starts[j] - 1;
      assert Taken(starts, records, x);
      var i: nat :| Inside(starts, records, i, x);
      assert i != j;
      Disjoint(starts, records, upper, i, j);
      k := OnGrid(starts, records, upper, len, i);
      k := k + 1;
    }
  }

  function Place(start: nat, upper: nat, len: nat): nat
    requires len > 0 && start >= upper
  {
    (start - upper) / len
  }

  lemma PlaceIs(start: nat, upper: nat, len: nat, k: nat)
    requires len > 0 && start == upper + k * len
    ensures Place(start, upper, len) == k && (start - upper) % len == 0
  {
    var q, r := (start - upper) / len, (start - upper) % len;
    assert start - upper == q * len + r;
    Times(q, k, len);
    Times(k, q, len);
  }

  ghost function Places(starts: seq<nat>, upper: nat, len: nat): (s: seq<nat>)
    requires len > 0 && forall j {:trigger starts[j]} :: 0 <= j < |starts| ==> starts[j] >= upper
    ensures |s| == |starts|
  {
    seq(|starts|, j requires 0 <= j < |starts| => Place(starts[j], upper, len))
  }

  /** Every offset is the start of a cell. */
  ghost predicate Gridded(starts: seq<nat>, upper: nat, len: nat) {
    len > 0 && forall j {:trigger starts[j]} :: 0 <= j < |starts| ==> starts[j] >= upper && starts[j] == upper + Place(starts[j], upper, len) * len
  }

  lemma UniformGridded(starts: seq<nat>, records: seq<Bytes>, upper: nat, len: nat)
    requires Apart(starts, records, upper) && Full(starts, records, upper) && Uniform(records, len) && len > 0
    ensures Gridded(starts, upper, len)
  {
    forall j | 0 <= j < |starts|
      ensures starts[j] >= upper && starts[j] == upper + Place(starts[j], upper, len) * len
    {
      var k := OnGrid(starts, records, upper, len, j);
      PlaceIs(starts[j], upper, len, k);
    }
  }

  /** Two records are in two cells. */
  lemma PlacesDistinct(starts: seq<nat>, records: seq<Bytes>, upper: nat, len: nat)
    requires Apart(starts, records, upper) && Gridded(starts, upper, len)
    ensures Distinct(Places(starts, upper, len))
  {
    var s := Places(starts, upper, len);
    forall i, j | 0 <= i < j < |s|
      ensures s[i] != s[j]
    {
      Disjoint(starts, records, upper, i, j);
      assert starts[i] == upper + Place(starts[i], upper, len) * len && starts[j] == upper + Place(starts[j], upper, len) * len;
    }
  }

  /** The cell a byte is in, for records of one size. */
  lemma CellOfByte(starts: seq<nat>, records: seq<Bytes>, upper: nat, len: nat, v: nat)
    requires Apart(starts, records, upper) && Full(starts, records, upper) && Uniform(records, len) && Gridded(starts, upper, len)
    requires upper + v * len < PAGE
    ensures v in Places(starts, upper, len)
  {
    var x := upper + v * len;
    assert Taken(starts, records, x);
    var i: nat :| Inside(starts, records, i, x);
    var k := Place(starts[i], upper, len);
    assert starts[i] == upper + k * len && |records[i]| == len;
    Times(k, v, len);
    Times(v, k, len);
    assert Places(starts, upper, len)[i] == v;
  }

  lemma SomeRoom(starts: seq<nat>, records: seq<Bytes>, upper: nat)
    requires Apart(starts, records, upper)
    ensures |records| > 0 ==> upper < PAGE
  {
    if |records| > 0 {
      AboveUpper(starts, records, upper, 0);
    }
  }

  /** Equal records fill the area: as many cells as records. */
  lemma UniformPayload(starts: seq<nat>, records: seq<Bytes>, upper: nat, len: nat)
    requires Apart(starts, records, upper) && Full(starts, records, upper) && Uniform(records, len) && len > 0
    ensures upper + |records| * len == PAGE
  {
    UniformGridded(starts, records, upper, len);
    PlacesDistinct(starts, records, upper, len);
    var s := Places(starts, upper, len);
    if upper == PAGE {
      SomeRoom(starts, records, upper);
      assert |records| * len == 0;
    } else {
      assert Taken(starts, records, PAGE - 1);
      var i: nat :| Inside(starts, records, i, PAGE - 1);
      assert starts[i] + |records[i]| <= PAGE && |records[i]| == len;
      var n := Place(starts[i], upper, len) + 1;
      LastCell(starts[i], upper, len, n);
      forall j | 0 <= j < |s|
        ensures s[j] < n
      {
        assert starts[j] == upper + s[j] * len && starts[j] + |records[j]| <= PAGE && records[j] != [];
        Times(n, s[j], len);
      }
      forall v: nat | v < n
        ensures v in s
      {
        Times(v, n, len);
        CellOfByte(starts, records, upper, len, v);
      }
      Exactly(s, n);
    }
  }

  lemma LastCell(start: nat, upper: nat, len: nat, n: nat)
    requires n >= 1 && start == upper + (n - 1) * len && start + len == PAGE
    ensures upper + n * len == PAGE
  {
    assert n * len == (n - 1) * len + len;
  }

  // ----- the physical order of equal cells

  ghost predicate OnCells(starts: seq<nat>, upper: nat, len: nat, order: seq<nat>) {
    |order| == |starts| && forall k {:trigger order[k]} :: 0 <= k < |order| ==> order[k] < |starts| && starts[order[k]] == upper + k * len
  }

  /** A record whose cell is followed by another record's, or by the end, has exactly that size. */
  lemma OneCell(starts: seq<nat>, records: seq<Bytes>, upper: nat, len: nat, order: seq<nat>, k: nat)
    requires Apart(starts, records, upper) && Full(starts, records, upper) && Gridded(starts, upper, len) && OnCells(starts, upper, len, order)
    requires upper + |records| * len == PAGE && k < |order|
    ensures |records[order[k]]| == len
  {
    var i := order[k];
    AboveUpper(starts, records, upper, i);
    NextCell(starts, records, upper, len, order, k);
    if |records[i]| < len {
      Times(k, |records|, len);
      var j := NextStarts(starts, records, upper, i);
      Between(starts, records, upper, len, order, k, j);
    }
  }

  lemma NextCell(starts: seq<nat>, records: seq<Bytes>, upper: nat, len: nat, order: seq<nat>, k: nat)
    requires Apart(starts, records, upper) && len > 0 && OnCells(starts, upper, len, order)
    requires upper + |records| * len == PAGE && k < |order|
    ensures |records[order[k]]| <= len
  {
    var i := order[k];
    AboveUpper(starts, records, upper, i);
    assert starts[i] == upper + k * len;
    if k + 1 < |order| {
      var n := order[k + 1];
      assert starts[n] == upper + (k + 1) * len;
      assert (k + 1) * len == k * len + len;
      Disjoint(starts, records, upper, i, n);
    } else {
      assert |records| * len == k * len + len by { assert |records| == k + 1; assert (k + 1) * len == k * len + len; }
    }
  }

  /** No record starts strictly inside a cell. */
  lemma Between(starts: seq<nat>, records: seq<Bytes>, upper: nat, len: nat, order: seq<nat>, k: nat, j: nat)
    requires Apart(starts, records, upper) && len > 0 && OnCells(starts, upper, len, order) && k < |order| && j < |starts|
    requires Gridded(starts, upper, len)
    ensures !(starts[order[k]] < starts[j] < starts[order[k]] + len)
  {
    var q := Place(starts[j], upper, len);
    assert starts[order[k]] == upper + k * len && starts[j] == upper + q * len;
    Times(k, q, len);
    Times(q, k, len);
  }

  /** Which record is in each cell; refused unless every record has the given size. */
  method FixedPositions(page: array<Byte>, len: nat, ghost starts: seq<nat>, ghost records: seq<Bytes>)
    returns (ok: bool, positions: seq<nat>)
    requires page.Length == PAGE && Repr(page[..], starts, records, U16(page[..], UPPER))
    ensures ok <==> len > 0 && Uniform(records, len)
    ensures ok ==> |positions| == |records| == |starts| && OnCells(starts, U16(page[..], UPPER), len, positions)
  {
    hide Repr, U16, Apart, Full, Slots, Cells;
    var count := Load(page, COUNT);
    var upper := Load(page, UPPER);
    Parts(page[..], starts, records, upper);
    CountIs(page[..], starts, records, upper);
    positions := seq(count, _ => 0);
    if len == 0 {
      return false, positions;
    }
    if Uniform(records, len) {
      UniformPayload(starts, records, upper, len);
    }
    if upper + count * len != PAGE {
      return false, positions;
    }
    for logical := 0 to count
      invariant |positions| == count
      invariant forall j {:trigger starts[j]} :: 0 <= j < logical ==> starts[j] >= upper && starts[j] == upper + Place(starts[j], upper, len) * len
      invariant forall j {:trigger starts[j]} :: 0 <= j < logical ==> Place(starts[j], upper, len) < count && positions[Place(starts[j], upper, len)] == j
    {
      SlotIs(page[..], starts, logical);
      var start := Load(page, Slot(logical));
      AboveUpper(starts, records, upper, logical);
      var offset := start - upper;
      if offset % len != 0 {
        NotUniform(starts, records, upper, len, logical);
        return false, positions;
      }
      var physical := offset / len;
      Exact(offset, len, physical);
      InPayload(start, upper, len, physical, count);
      OtherCells(starts, records, upper, len, logical);
      positions := positions[physical := logical];
    }
    AllCells(starts, records, upper, len, positions);
    ok := true;
  }

  lemma CountIs(s: Bytes, starts: seq<nat>, records: seq<Bytes>, upper: nat)
    requires Repr(s, starts, records, upper)
    ensures |s| == PAGE && U16(s, COUNT) == |records|
  {
  }

  lemma SlotIs(s: Bytes, starts: seq<nat>, j: nat)
    requires Slots(s, starts) && j < |starts|
    ensures Slot(j) + 2 <= |s| && U16(s, Slot(j)) == starts[j]
  {
  }

  lemma NotUniform(starts: seq<nat>, records: seq<Bytes>, upper: nat, len: nat, j: nat)
    requires Apart(starts, records, upper) && Full(starts, records, upper) && len > 0 && j < |starts| && starts[j] >= upper && (starts[j] - upper) % len != 0
    ensures !Uniform(records, len)
  {
    if Uniform(records, len) {
      var k := OnGrid(starts, records, upper, len, j);
      PlaceIs(starts[j], upper, len, k);
    }
  }

  lemma Exact(offset: nat, len: nat, q: nat)
    requires len > 0 && offset % len == 0 && q == offset / len
    ensures offset == q * len
  {
  }

  lemma InPayload(start: nat, upper: nat, len: nat, q: nat, count: nat)
    requires start == upper + q * len < PAGE && upper + count * len == PAGE
    ensures q < count
  {
    Times(count, q, len);
  }

  /** An earlier record is in another cell. */
  lemma OtherCells(starts: seq<nat>, records: seq<Bytes>, upper: nat, len: nat, n: nat)
    requires Apart(starts, records, upper) && len > 0 && n < |starts| && starts[n] >= upper
    requires starts[n] == upper + Place(starts[n], upper, len) * len
    requires forall j {:trigger starts[j]} :: 0 <= j < n ==> starts[j] >= upper && starts[j] == upper + Place(starts[j], upper, len) * len
    ensures forall j {:trigger starts[j]} :: 0 <= j < n ==> Place(starts[j], upper, len) != Place(starts[n], upper, len)
  {
    forall j | 0 <= j < n
      ensures Place(starts[j], upper, len) != Place(starts[n], upper, len)
    {
      Disjoint(starts, records, upper, j, n);
    }
  }

  /** With as many cells as records, every cell is taken, by one record of that size. */
  lemma AllCells(starts: seq<nat>, records: seq<Bytes>, upper: nat, len: nat, positions: seq<nat>)
    requires Apart(starts, records, upper) && Full(starts, records, upper) && len > 0 && |positions| == |starts| == |records| && upper + |records| * len == PAGE
    requires forall j {:trigger starts[j]} :: 0 <= j < |starts| ==> starts[j] >= upper && starts[j] == upper + Place(starts[j], upper, len) * len
    requires forall j {:trigger starts[j]} :: 0 <= j < |starts| ==> Place(starts[j], upper, len) < |positions| && positions[Place(starts[j], upper, len)] == j
    ensures OnCells(starts, upper, len, positions) && Uniform(records, len)
  {
    hide Apart, Full;
    var s := Places(starts, upper, len);
    PlacesDistinct(starts, records, upper, len);
    Onto(s, |starts|);
    forall k | 0 <= k < |positions|
      ensures positions[k] < |starts| && starts[positions[k]] == upper + k * len
    {
      assert k in s;
      var j :| 0 <= j < |s| && s[j] == k;
      assert starts[j] >= upper;
    }
    forall i | 0 <= i < |records|
      ensures |records[i]| == len
    {
      var k := Place(starts[i], upper, len);
      assert positions[k] == i;
      OneCell(starts, records, upper, len, positions, k);
    }
  }

  // ----- edits of pages of equal records

  lemma CellsChain(starts: seq<nat>, records: seq<Bytes>, upper: nat, len: nat, order: seq<nat>)
    requires |order| == |records| == |starts| && OnCells(starts, upper, len, order) && Uniform(records, len) && len > 0 && upper + |records| * len == PAGE
    ensures Chain(starts, records, upper, order) && Listed(records, order)
  {
    forall k | 0 <= k < |order|
      ensures order[k] < |starts|
      ensures starts[order[k]] + |records[order[k]]| == if k + 1 < |order| then starts[order[k + 1]] else PAGE
    {
      assert starts[order[k]] == upper + k * len && |records[order[k]]| == len;
      assert (k + 1) * len == k * len + len;
      if k + 1 < |order| {
        assert starts[order[k + 1]] == upper + (k + 1) * len;
      } else {
        assert k + 1 == |records|;
      }
    }
    forall k, m | 0 <= k < m < |order|
      ensures order[k] != order[m]
    {
      assert starts[order[k]] == upper + k * len && starts[order[m]] == upper + m * len;
      Times(k, m, len);
    }
  }

  lemma CellsInverse(starts: seq<nat>, upper: nat, len: nat, order: seq<nat>) returns (inverse: seq<nat>)
    requires OnCells(starts, upper, len, order) && len > 0
    ensures Inverse(order, inverse)
  {
    forall k, m | 0 <= k < m < |order|
      ensures order[k] != order[m]
    {
      assert starts[order[k]] == upper + k * len && starts[order[m]] == upper + m * len;
      Times(k, m, len);
    }
    Onto(order, |starts|);
    inverse := [];
    while |inverse| < |order|
      invariant |inverse| <= |order|
      invariant forall j {:trigger inverse[j]} :: 0 <= j < |inverse| ==> inverse[j] < |order| && order[inverse[j]] == j
    {
      var j := |inverse|;
      assert j in order;
      var k: nat :| k < |order| && order[k] == j;
      inverse := inverse + [k];
    }
  }

  /** Move the cells that stay up, from the top down. */
  method PackCells(page: array<Byte>, positions: seq<nat>, upper: nat, len: nat, a: nat, b: nat, ghost starts: seq<nat>, ghost records: seq<Bytes>)
    returns (destination: nat)
    requires page.Length == PAGE && Repr(page[..], starts, records, upper) && a <= b <= |records|
    requires OnCells(starts, upper, len, positions) && Uniform(records, len) && Chain(starts, records, upper, positions) && Listed(records, positions)
    modifies page
    ensures |positions| == |records| == |starts|
    ensures Repacking(old(page[..]), page[..], starts, records, positions, a, b, 0)
    ensures destination == Dest(records, positions, a, b, 0) <= PAGE
  {
    hide Repr, Chain, Apart, Full, Cells, Repacking, Dest, U16, Listed, Moved, PutU16, OnCells, Uniform;
    ghost var s := page[..];
    Begin(s, starts, records, upper, positions, a, b);
    destination := PAGE;
    var physical: nat := |positions|;
    while physical > 0
      invariant physical <= |positions|
      invariant Repacking(s, page[..], starts, records, positions, a, b, physical) && destination == Dest(records, positions, a, b, physical) <= PAGE
    {
      physical := physical - 1;
      var logical := positions[physical];
      CellFacts(starts, records, upper, len, positions, physical);
      if Stays(logical, a, b) {
        PlaceOne(s, page[..], starts, records, upper, positions, a, b, physical);
        DestStep(records, positions, a, b, physical);
        var source := upper + physical * len;
        destination := destination - len;
        CopyWithin(page, destination, source, len);
        Store(page, Slot(Out(logical, a, b)), destination);
      } else {
        SkipOne(s, page[..], starts, records, upper, positions, a, b, physical);
      }
    }
  }

  lemma CellFacts(starts: seq<nat>, records: seq<Bytes>, upper: nat, len: nat, order: seq<nat>, k: nat)
    requires OnCells(starts, upper, len, order) && Uniform(records, len) && |records| == |starts| && k < |order|
    ensures order[k] < |records| && starts[order[k]] == upper + k * len && |records[order[k]]| == len
  {
  }

  /** Remove the records outside which nothing changes, and stamp the smaller page. */
  method DropRange(page: array<Byte>, a: nat, b: nat, len: nat, ghost records: seq<Bytes>) returns (valid: bool)
    requires page.Length == PAGE && Holds(page[..], records) && a <= b <= |records|
    modifies page
    ensures valid <==> len > 0 && Uniform(records, len)
    ensures !valid ==> page[..] == old(page[..])
    ensures valid ==> Holds(page[..], Kept(records, a, b)) && SameHead(old(page[..]), page[..])
  {
    hide Repr, Holds, Chain, Apart, Full, Cells, Repacking, Dest, U16, Listed, Slots, Inverse, Cleared, Stamped, OnCells, Uniform, SameHead;
    ghost var starts, top := HoldsRepr(page[..], records);
    ghost var s := page[..];
    Parts(s, starts, records, top);
    var count := Load(page, COUNT);
    var lower := Load(page, LOWER);
    var upper := Load(page, UPPER);
    var ok, positions := FixedPositions(page, len, starts, records);
    if !ok {
      return false;
    }
    UniformPayload(starts, records, upper, len);
    CellsChain(starts, records, upper, len, positions);
    ghost var inverse := CellsInverse(starts, upper, len, positions);
    var destination := PackCells(page, positions, upper, len, a, b, starts, records);
    LowEnough(starts, records, top, positions, a, b);
    RepackRepr(s, page[..], starts, records, top, positions, inverse, a, b);
    var remaining := count - (b - a);
    Clear(page, Slot(remaining), lower);
    Clear(page, upper, destination);
    Stamp(page, remaining, destination);
    return true;
  }

  /** Remove `count` records from place `start` on; at least one stays. */
  method RemoveFixedRange(page: array<Byte>, start: nat, count: nat, len: nat, ghost records: seq<Bytes>) returns (valid: bool)
    requires page.Length == PAGE && Holds(page[..], records)
    modifies page
    ensures valid <==> count > 0 && start + count <= |records| && count < |records| && len > 0 && Uniform(records, len)
    ensures !valid ==> page[..] == old(page[..])
    ensures valid ==> Holds(page[..], records[..start] + records[start + count..]) && SameHead(old(page[..]), page[..])
  {
    hide Repr, Holds, U16, Uniform, SameHead;
    ghost var starts, top := HoldsRepr(page[..], records);
    var items := Load(page, COUNT);
    if count == 0 || start + count > items || count >= items || len == 0 {
      return false;
    }
    valid := DropRange(page, start, start + count, len, records);
  }

  /** Keep the first records of a page of equal ones. */
  method TruncateFixed(page: array<Byte>, keep: nat, len: nat, ghost records: seq<Bytes>) returns (valid: bool)
    requires page.Length == PAGE && Holds(page[..], records)
    modifies page
    ensures valid <==> 0 < keep <= |records| && len > 0 && (keep == |records| || Uniform(records, len))
    ensures !valid ==> page[..] == old(page[..])
    ensures valid ==> Holds(page[..], records[..keep]) && SameHead(old(page[..]), page[..])
  {
    hide Repr, Holds, U16, Uniform, SameHead;
    ghost var starts, top := HoldsRepr(page[..], records);
    var items := Load(page, COUNT);
    if keep == 0 || keep > items || len == 0 {
      return false;
    }
    if keep == items {
      assert records[..keep] == records;
      Unchanged(page[..]);
      return true;
    }
    valid := DropRange(page, keep, items, len, records);
    assert Kept(records, keep, items) == records[..keep];
  }

  lemma Unchanged(s: Bytes)
    ensures |s| == PAGE ==> SameHead(s, s)
  {
  }
}
