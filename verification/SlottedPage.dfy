/**
 Slotted pages (v4/go/internal/format/put.go): a header, an array of 16-bit slots growing
 up, and records packed against the end of the page. Every edit in place refines the same
 edit on a list of records.
 */
module SlottedPage {
  import opened SlottedBytes

  const PAGE: nat := 4096
  const HEAD: nat := 32
  const COUNT: nat := 16
  const LOWER: nat := 20
  const UPPER: nat := 22

  function Slot(i: nat): nat {
    HEAD + 2 * i
  }

  // ----- where records lie

  /** Two records share no byte. */
  predicate Clear2(a: nat, m: nat, b: nat, n: nat) {
    a + m <= b || b + n <= a
  }

  predicate Inside(starts: seq<nat>, records: seq<Bytes>, i: nat, x: nat) {
    i < |starts| && i < |records| && starts[i] <= x < starts[i] + |records[i]|
  }

  /** The records lie in the area from `upper` to the end, without overlap. */
  ghost predicate Apart(starts: seq<nat>, records: seq<Bytes>, upper: nat) {
    && |starts| == |records| && upper <= PAGE
    && (forall i {:trigger starts[i]} :: 0 <= i < |starts| ==>
          records[i] != [] && upper <= starts[i] && starts[i] + |records[i]| <= PAGE)
    && (forall i, j {:trigger starts[i], starts[j]} :: 0 <= i < j < |starts| ==>
          Clear2(starts[i], |records[i]|, starts[j], |records[j]|))
  }

  /** They leave no gap. */
  ghost predicate Full(starts: seq<nat>, records: seq<Bytes>, upper: nat) {
    forall x: nat {:trigger Taken(starts, records, x)} :: upper <= x < PAGE ==> Taken(starts, records, x)
  }

  ghost predicate Taken(starts: seq<nat>, records: seq<Bytes>, x: nat) {
    exists i: nat :: Inside(starts, records, i, x)
  }

  // ----- what the bytes say

  ghost predicate Slots(s: Bytes, starts: seq<nat>) {
    Slot(|starts|) <= |s| && forall i {:trigger starts[i]} :: 0 <= i < |starts| ==> U16(s, Slot(i)) == starts[i]
  }

  /** The bytes from `at` on are the cell. */
  ghost predicate Cell(s: Bytes, at: nat, cell: Bytes) {
    at + |cell| <= |s| && forall k {:trigger cell[k]} :: 0 <= k < |cell| ==> s[at + k] == cell[k]
  }

  ghost predicate Cells(s: Bytes, starts: seq<nat>, records: seq<Bytes>) {
    |starts| == |records| && forall i {:trigger starts[i]} :: 0 <= i < |starts| ==> Cell(s, starts[i], records[i])
  }

  ghost predicate Zero(s: Bytes, lo: nat, hi: nat) {
    hi <= |s| && forall x {:trigger s[x]} :: lo <= x < hi ==> s[x] == 0
  }

  ghost predicate Head(s: Bytes, count: nat, upper: nat) {
    |s| == PAGE && U16(s, COUNT) == count && U16(s, LOWER) == Slot(count) && U16(s, UPPER) == upper
  }

  /** The page holds the records, in this order, at these places. */
  ghost predicate Repr(s: Bytes, starts: seq<nat>, records: seq<Bytes>, upper: nat) {
    && Head(s, |records|, upper) && Slot(|records|) <= upper
    && Apart(starts, records, upper) && Full(starts, records, upper)
    && Slots(s, starts) && Cells(s, starts, records) && Zero(s, Slot(|records|), upper)
  }

  /** The page holds the records: lower is 32 + 2 * count, the area is packed and free bytes are zero. */
  ghost predicate Holds(s: Bytes, records: seq<Bytes>) {
    |s| == PAGE && Slot(|records|) <= PAGE &&
    Repr(s, seq(|records|, i requires 0 <= i < |records| => U16(s, Slot(i))), records, U16(s, UPPER))
  }

  lemma ReprHolds(s: Bytes, starts: seq<nat>, records: seq<Bytes>, upper: nat)
    requires Repr(s, starts, records, upper)
    ensures Holds(s, records)
  {
    assert seq(|records|, i requires 0 <= i < |records| => U16(s, Slot(i))) == starts;
  }

  lemma HoldsRepr(s: Bytes, records: seq<Bytes>) returns (starts: seq<nat>, upper: nat)
    requires Holds(s, records)
    ensures Repr(s, starts, records, upper) && upper == U16(s, UPPER) && |records| == U16(s, COUNT) && U16(s, LOWER) == Slot(|records|)
  {
    starts := seq(|records|, i requires 0 <= i < |records| => U16(s, Slot(i)));
    upper := U16(s, UPPER);
  }

  // ----- the layout in numbers

  /** Slot i: two bytes, low one first, from byte 32 + 2 * i on. */
  function Start(s: Bytes, i: nat): nat
    requires 34 + 2 * i <= |s|
  {
    s[32 + 2 * i] as int + 256 * (s[33 + 2 * i] as int)
  }

  /** Byte x belongs to record i. */
  predicate Owns(s: Bytes, records: seq<Bytes>, i: nat, x: nat)
    requires 32 + 2 * |records| <= |s|
  {
    i < |records| && Start(s, i) <= x < Start(s, i) + |records[i]|
  }

  ghost predicate Owned(s: Bytes, records: seq<Bytes>, x: nat)
    requires 32 + 2 * |records| <= |s|
  {
    exists i: nat :: Owns(s, records, i, x)
  }

  ghost predicate LaidRecords(s: Bytes, records: seq<Bytes>, upper: nat)
    requires 32 + 2 * |records| <= |s| == 4096
  {
    && (forall i {:trigger records[i]} :: 0 <= i < |records| ==>
          records[i] != [] && upper <= Start(s, i) && Start(s, i) + |records[i]| <= 4096
          && s[Start(s, i)..Start(s, i) + |records[i]|] == records[i])
    && (forall i, j {:trigger records[i], records[j]} :: 0 <= i < j < |records| ==>
          Start(s, i) + |records[i]| <= Start(s, j) || Start(s, j) + |records[j]| <= Start(s, i))
    && (forall x: nat {:trigger Owned(s, records, x)} :: upper <= x < 4096 ==> Owned(s, records, x))
  }

  /** The published page layout, byte by byte: header fields, slots, free bytes, records. */
  ghost predicate Laid(s: Bytes, records: seq<Bytes>) {
    && |s| == 4096 && 32 + 2 * |records| <= 4096
    && s[16] as int + 256 * (s[17] as int) == |records|
    && s[20] as int + 256 * (s[21] as int) == 32 + 2 * |records|
    && var upper := s[22] as int + 256 * (s[23] as int);
    && 32 + 2 * |records| <= upper <= 4096
    && (forall x {:trigger s[x]} :: 32 + 2 * |records| <= x < upper ==> s[x] == 0)
    && LaidRecords(s, records, upper)
  }

  ghost predicate SameStarts(s: Bytes, starts: seq<nat>, records: seq<Bytes>) {
    && |starts| == |records| && 32 + 2 * |records| <= |s|
    && forall i {:trigger starts[i]} :: 0 <= i < |starts| ==> Start(s, i) == starts[i]
  }

  lemma SlotsAre(s: Bytes, starts: seq<nat>, records: seq<Bytes>)
    requires |starts| == |records| && 32 + 2 * |records| <= |s|
    ensures Slots(s, starts) <==> SameStarts(s, starts, records)
  {
    forall i | 0 <= i < |starts| ensures Start(s, i) == U16(s, Slot(i)) {}
  }

  lemma CellIs(s: Bytes, at: nat, cell: Bytes)
    requires at + |cell| <= |s|
    ensures Cell(s, at, cell) <==> s[at..at + |cell|] == cell
  {
    if s[at..at + |cell|] == cell {
      forall k | 0 <= k < |cell| ensures s[at + k] == cell[k] { assert s[at..at + |cell|][k] == cell[k]; }
    }
  }

  lemma OwnedIs(s: Bytes, starts: seq<nat>, records: seq<Bytes>, x: nat)
    requires SameStarts(s, starts, records)
    ensures Owned(s, records, x) <==> Taken(starts, records, x)
  {
    if Owned(s, records, x) {
      var i: nat :| Owns(s, records, i, x);
      assert starts[i] == Start(s, i) && Inside(starts, records, i, x);
    }
    if Taken(starts, records, x) {
      var i: nat :| Inside(starts, records, i, x);
      assert starts[i] == Start(s, i) && Owns(s, records, i, x);
    }
  }

  lemma RecordsLaid(s: Bytes, starts: seq<nat>, records: seq<Bytes>, upper: nat)
    requires |s| == 4096 && SameStarts(s, starts, records) && Apart(starts, records, upper) && Full(starts, records, upper) && Cells(s, starts, records)
    ensures LaidRecords(s, records, upper)
  {
    hide Owned, Taken, Cell, Start;
    forall i | 0 <= i < |records|
      ensures starts[i] == Start(s, i) && s[starts[i]..starts[i] + |records[i]|] == records[i]
    {
      assert starts[i] == Start(s, i);
      CellIs(s, starts[i], records[i]);
    }
    forall x: nat | upper <= x < 4096 ensures Owned(s, records, x) { OwnedIs(s, starts, records, x); assert Taken(starts, records, x); }
  }

  lemma LaidParts(s: Bytes, starts: seq<nat>, records: seq<Bytes>, upper: nat)
    requires |s| == 4096 && SameStarts(s, starts, records) && LaidRecords(s, records, upper) && upper <= 4096
    ensures Apart(starts, records, upper) && Full(starts, records, upper) && Cells(s, starts, records)
  {
    hide Owned, Taken, Cell, Start;
    forall i | 0 <= i < |records|
      ensures starts[i] == Start(s, i) && starts[i] + |records[i]| <= 4096 && Cell(s, starts[i], records[i])
    {
      assert starts[i] == Start(s, i) && records[i] != [];
      CellIs(s, starts[i], records[i]);
    }
    forall i, j | 0 <= i < j < |starts| ensures Clear2(starts[i], |records[i]|, starts[j], |records[j]|) {
      assert starts[i] == Start(s, i) && starts[j] == Start(s, j) && records[i] != [] && records[j] != [];
    }
    forall x: nat | upper <= x < 4096 ensures Taken(starts, records, x) { OwnedIs(s, starts, records, x); assert Owned(s, records, x); }
  }

  /** A page holds the records exactly when its bytes are laid out so. */
  lemma HoldsIs(s: Bytes, records: seq<Bytes>)
    ensures Holds(s, records) <==> Laid(s, records)
  {
    hide Apart, Full, Slots, Cells, SameStarts, LaidRecords;
    if |s| == 4096 && Slot(|records|) <= 4096 {
      var upper := U16(s, UPPER);
      var starts := seq(|records|, i requires 0 <= i < |records| => U16(s, Slot(i)));
      SlotsAre(s, starts, records);
      if Holds(s, records) { RecordsLaid(s, starts, records, upper); }
      if Laid(s, records) {
        assert SameStarts(s, starts, records) by { StartsRead(s, starts, records); }
        LaidParts(s, starts, records, upper);
      }
    }
  }

  lemma StartsRead(s: Bytes, starts: seq<nat>, records: seq<Bytes>)
    requires |starts| == |records| && 32 + 2 * |records| <= |s| && forall i {:trigger starts[i]} :: 0 <= i < |starts| ==> starts[i] == U16(s, Slot(i))
    ensures SameStarts(s, starts, records)
  {
  }

  /** The header bytes that no edit touches. */
  ghost predicate SameHead(s: Bytes, t: Bytes) {
    |s| == |t| == PAGE &&
    forall x {:trigger t[x]} :: 0 <= x < HEAD && x != COUNT && x != COUNT + 1 && !(LOWER <= x < LOWER + 4) ==> t[x] == s[x]
  }

  // ----- the header of an edited page

  /** The three header fields stamped last. */
  function Stamped(s: Bytes, count: nat, upper: nat): (r: Bytes)
    requires |s| == PAGE && Slot(count) < 0x10000 && upper < 0x10000
    ensures |r| == |s|
  {
    PutU16(PutU16(PutU16(s, COUNT, count), LOWER, Slot(count)), UPPER, upper)
  }

  lemma StampedIs(s: Bytes, count: nat, upper: nat)
    requires |s| == PAGE && Slot(count) < 0x10000 && upper < 0x10000
    ensures Head(Stamped(s, count, upper), count, upper) && SameHead(s, Stamped(s, count, upper))
    ensures forall x {:trigger Stamped(s, count, upper)[x]} :: HEAD <= x < |s| ==> Stamped(s, count, upper)[x] == s[x]
  {
    var a := PutU16(s, COUNT, count);
    var b := PutU16(a, LOWER, Slot(count));
    PutAt(s, COUNT, count);
    PutAt(a, LOWER, Slot(count));
    PutAt(b, UPPER, upper);
    SameU16(b, a, COUNT, COUNT);
    SameU16(Stamped(s, count, upper), b, COUNT, COUNT);
    SameU16(Stamped(s, count, upper), b, LOWER, LOWER);
  }

  method Stamp(page: array<Byte>, count: nat, upper: nat)
    requires page.Length == PAGE && Slot(count) < 0x10000 && upper < 0x10000
    modifies page
    ensures page[..] == Stamped(old(page[..]), count, upper)
  {
    Store(page, COUNT, count);
    Store(page, LOWER, Slot(count));
    Store(page, UPPER, upper);
  }

  // ----- insertion

  function InsertedAt<T>(s: seq<T>, i: nat, x: T): seq<T>
    requires i <= |s|
  {
    s[..i] + [x] + s[i..]
  }

  lemma InsertApart(starts: seq<nat>, records: seq<Bytes>, upper: nat, i: nat, cell: Bytes)
    requires Apart(starts, records, upper) && i <= |records| && 0 < |cell| <= upper
    ensures Apart(InsertedAt(starts, i, upper - |cell|), InsertedAt(records, i, cell), upper - |cell|)
  {
    var s, r, u := InsertedAt(starts, i, upper - |cell|), InsertedAt(records, i, cell), upper - |cell|;
    forall j | 0 <= j < |s|
      ensures r[j] != [] && u <= s[j] && s[j] + |r[j]| <= PAGE
    {
      assert j < i ==> s[j] == starts[j] && r[j] == records[j];
      assert j > i ==> s[j] == starts[j - 1] && r[j] == records[j - 1];
    }
    forall j, k | 0 <= j < k < |s|
      ensures Clear2(s[j], |r[j]|, s[k], |r[k]|)
    {
      assert j < i ==> s[j] == starts[j] && r[j] == records[j];
      assert j > i ==> s[j] == starts[j - 1] && r[j] == records[j - 1];
      assert k < i ==> s[k] == starts[k] && r[k] == records[k];
      assert k > i ==> s[k] == starts[k - 1] && r[k] == records[k - 1];
    }
  }

  lemma InsertFull(starts: seq<nat>, records: seq<Bytes>, upper: nat, i: nat, cell: Bytes)
    requires Apart(starts, records, upper) && Full(starts, records, upper) && i <= |records| && |cell| <= upper
    ensures Full(InsertedAt(starts, i, upper - |cell|), InsertedAt(records, i, cell), upper - |cell|)
  {
    var s, r := InsertedAt(starts, i, upper - |cell|), InsertedAt(records, i, cell);
    forall x: nat | upper - |cell| <= x < PAGE
      ensures Taken(s, r, x)
    {
      if x < upper {
        assert Inside(s, r, i, x);
      } else {
        assert Taken(starts, records, x);
        var j: nat :| Inside(starts, records, j, x);
        assert Inside(s, r, if j < i then j else j + 1, x);
      }
    }
  }

  /** The bytes of the page after an insertion. */
  function InsertBytes(s: Bytes, count: nat, upper: nat, i: nat, cell: Bytes): (r: Bytes)
    requires |s| == PAGE && i <= count && Slot(count) + 2 + |cell| <= upper <= PAGE
    ensures |r| == PAGE
  {
    var a := Moved(s, Slot(i) + 2, Slot(i), Slot(count) - Slot(i));
    var b := Written(a, upper - |cell|, cell);
    var c := PutU16(b, Slot(i), upper - |cell|);
    Stamped(c, count + 1, upper - |cell|)
  }

  /** Byte by byte: the slots after the new one move up, the cell goes under the others. */
  ghost predicate InsertLike(s: Bytes, r: Bytes, count: nat, upper: nat, i: nat, cell: Bytes)
    requires |s| == |r| == PAGE && i <= count && Slot(count) + 2 + |cell| <= upper <= PAGE
  {
    && (forall x {:trigger r[x]} :: HEAD <= x < Slot(i) ==> r[x] == s[x])
    && (forall x {:trigger r[x]} :: Slot(i) + 2 <= x < Slot(count) + 2 ==> r[x] == s[x - 2])
    && U16(r, Slot(i)) == upper - |cell|
    && (forall x {:trigger r[x]} :: Slot(count) + 2 <= x < upper - |cell| ==> r[x] == s[x])
    && Cell(r, upper - |cell|, cell)
    && (forall x {:trigger r[x]} :: upper <= x < PAGE ==> r[x] == s[x])
  }

  lemma InsertBytesAre(s: Bytes, count: nat, upper: nat, i: nat, cell: Bytes)
    requires |s| == PAGE && i <= count && Slot(count) + 2 + |cell| <= upper <= PAGE
    ensures InsertLike(s, InsertBytes(s, count, upper, i, cell), count, upper, i, cell)
    ensures Head(InsertBytes(s, count, upper, i, cell), count + 1, upper - |cell|) && SameHead(s, InsertBytes(s, count, upper, i, cell))
  {
    hide Moved, Written, PutU16, Stamped, U16;
    var a := Moved(s, Slot(i) + 2, Slot(i), Slot(count) - Slot(i));
    var b := Written(a, upper - |cell|, cell);
    var c := PutU16(b, Slot(i), upper - |cell|);
    MovedAt(s, Slot(i) + 2, Slot(i), Slot(count) - Slot(i));
    WrittenAt(a, upper - |cell|, cell);
    PutAt(b, Slot(i), upper - |cell|);
    StampedIs(c, count + 1, upper - |cell|);
    SameU16(Stamped(c, count + 1, upper - |cell|), c, Slot(i), Slot(i));
  }

  lemma InsertSlots(s: Bytes, r: Bytes, starts: seq<nat>, upper: nat, i: nat, cell: Bytes)
    requires |s| == |r| == PAGE && Slots(s, starts) && i <= |starts| && Slot(|starts|) + 2 + |cell| <= upper <= PAGE
    requires InsertLike(s, r, |starts|, upper, i, cell)
    ensures Slots(r, InsertedAt(starts, i, upper - |cell|))
  {
    var t := InsertedAt(starts, i, upper - |cell|);
    forall j | 0 <= j < |t|
      ensures U16(r, Slot(j)) == t[j]
    {
      if j < i {
        SameU16(r, s, Slot(j), Slot(j));
      } else if j > i {
        SameU16(r, s, Slot(j), Slot(j - 1));
      }
    }
  }

  lemma InsertCells(s: Bytes, r: Bytes, starts: seq<nat>, records: seq<Bytes>, upper: nat, i: nat, cell: Bytes)
    requires |s| == |r| == PAGE && Apart(starts, records, upper) && Cells(s, starts, records) && i <= |records|
    requires Slot(|records|) + 2 + |cell| <= upper && InsertLike(s, r, |records|, upper, i, cell)
    ensures Cells(r, InsertedAt(starts, i, upper - |cell|), InsertedAt(records, i, cell))
  {
    var t, c := InsertedAt(starts, i, upper - |cell|), InsertedAt(records, i, cell);
    forall j | 0 <= j < |t|
      ensures Cell(r, t[j], c[j])
    {
      if j != i {
        var k := if j < i then j else j - 1;
        assert t[j] == starts[k] && c[j] == records[k];
        CellStays(s, r, starts[k], records[k], upper);
      }
    }
  }

  /** A record in an area that did not change. */
  lemma CellStays(s: Bytes, r: Bytes, at: nat, cell: Bytes, upper: nat)
    requires Cell(s, at, cell) && |s| == |r| == PAGE && upper <= at && forall x {:trigger r[x]} :: upper <= x < PAGE ==> r[x] == s[x]
    ensures Cell(r, at, cell)
  {
  }

  lemma InsertRepr(s: Bytes, starts: seq<nat>, records: seq<Bytes>, upper: nat, i: nat, cell: Bytes)
    requires Repr(s, starts, records, upper) && i <= |records| && cell != [] && Slot(|records|) + 2 + |cell| <= upper
    ensures Repr(InsertBytes(s, |records|, upper, i, cell), InsertedAt(starts, i, upper - |cell|), InsertedAt(records, i, cell), upper - |cell|)
    ensures SameHead(s, InsertBytes(s, |records|, upper, i, cell))
  {
    hide InsertBytes, Apart, Full, Slots, Cells;
    var r := InsertBytes(s, |records|, upper, i, cell);
    Sizes(starts, records, upper);
    InsertBytesAre(s, |records|, upper, i, cell);
    InsertApart(starts, records, upper, i, cell);
    InsertFull(starts, records, upper, i, cell);
    InsertSlots(s, r, starts, upper, i, cell);
    InsertCells(s, r, starts, records, upper, i, cell);
  }

  lemma Sizes(starts: seq<nat>, records: seq<Bytes>, upper: nat)
    requires Apart(starts, records, upper)
    ensures |starts| == |records| && upper <= PAGE
  {
  }

  /** One record inserted at a place of the list; refused without a change when it does not fit. */
  method Insert(page: array<Byte>, index: nat, cell: Bytes, ghost records: seq<Bytes>) returns (valid: bool, fits: bool)
    requires page.Length == PAGE && Holds(page[..], records)
    modifies page
    ensures valid <==> index <= |records| && cell != []
    ensures fits <==> valid && Slot(|records|) + 2 + |cell| <= old(U16(page[..], UPPER))
    ensures !fits ==> page[..] == old(page[..])
    ensures fits ==> Holds(page[..], InsertedAt(records, index, cell)) && SameHead(old(page[..]), page[..])
  {
    hide Repr, Holds, SameHead, Moved, Written, PutU16, Stamped, U16;
    ghost var starts, top := HoldsRepr(page[..], records);
    var count := Load(page, COUNT);
    var lower := Load(page, LOWER);
    var upper := Load(page, UPPER);
    if index > count || cell == [] {
      return false, false;
    }
    if lower + 2 + |cell| > upper {
      return true, false;
    }
    UpperBound(page[..], starts, records, top);
    InsertRepr(page[..], starts, records, upper, index, cell);
    var slot := Slot(index);
    CopyWithin(page, slot + 2, slot, lower - slot);
    CopyIn(page, upper - |cell|, cell);
    Store(page, slot, upper - |cell|);
    Stamp(page, count + 1, upper - |cell|);
    ReprHolds(page[..], InsertedAt(starts, index, upper - |cell|), InsertedAt(records, index, cell), upper - |cell|);
    return true, true;
  }

  lemma UpperBound(s: Bytes, starts: seq<nat>, records: seq<Bytes>, upper: nat)
    requires Repr(s, starts, records, upper)
    ensures |s| == PAGE && Slot(|records|) <= upper <= PAGE && |starts| == |records|
  {
  }
}
