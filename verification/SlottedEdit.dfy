/** Replacing and removing one record of a slotted page (v4/go/internal/format/put.go). */
module SlottedEdit {
  import opened SlottedBytes
  import opened SlottedPage

  // ----- geometry: the records under the target move by the change of its length

  /** Where record `j` starts once the target's length has changed by `d`. */
  function NewStart(starts: seq<nat>, i: nat, d: int, j: nat): int
    requires i < |starts| && j < |starts|
  {
    if j == i || starts[j] < starts[i] then starts[j] - d else starts[j]
  }

  ghost predicate Shifted(starts: seq<nat>, i: nat, d: int, t: seq<nat>) {
    |t| == |starts| && i < |starts| && forall j {:trigger t[j]} :: 0 <= j < |t| ==> t[j] == NewStart(starts, i, d, j)
  }

  /** A record is wholly under the target or wholly above it. */
  lemma Sides(starts: seq<nat>, records: seq<Bytes>, upper: nat, i: nat, j: nat)
    requires Apart(starts, records, upper) && i < |starts| && j < |starts| && i != j
    ensures if starts[j] < starts[i] then starts[j] + |records[j]| <= starts[i] else starts[i] + |records[i]| <= starts[j]
  {
    assert starts[i] >= upper && starts[j] >= upper;
    assert Clear2(starts[i], |records[i]|, starts[j], |records[j]|) || Clear2(starts[j], |records[j]|, starts[i], |records[i]|);
  }

  lemma ShiftedApart(starts: seq<nat>, records: seq<Bytes>, upper: nat, i: nat, cell: Bytes, t: seq<nat>)
    requires Apart(starts, records, upper) && i < |starts| && cell != []
    requires Shifted(starts, i, |cell| - |records[i]|, t) && upper >= |cell| - |records[i]|
    ensures Apart(t, records[i := cell], upper - (|cell| - |records[i]|))
  {
    var d := |cell| - |records[i]|;
    var r, u := records[i := cell], upper - d;
    forall j | 0 <= j < |t|
      ensures r[j] != [] && u <= t[j] && t[j] + |r[j]| <= PAGE
    {
      assert t[j] == NewStart(starts, i, d, j);
      assert starts[j] >= upper && starts[i] >= upper;
      if j != i {
        Sides(starts, records, upper, i, j);
      }
    }
    forall j, k | 0 <= j < k < |t|
      ensures Clear2(t[j], |r[j]|, t[k], |r[k]|)
    {
      assert Clear2(starts[j], |records[j]|, starts[k], |records[k]|);
      if j != i { Sides(starts, records, upper, i, j); }
      if k != i { Sides(starts, records, upper, i, k); }
    }
  }

  lemma ShiftedFull(starts: seq<nat>, records: seq<Bytes>, upper: nat, i: nat, cell: Bytes, t: seq<nat>)
    requires Apart(starts, records, upper) && Full(starts, records, upper) && i < |starts|
    requires Shifted(starts, i, |cell| - |records[i]|, t) && upper >= |cell| - |records[i]|
    ensures Full(t, records[i := cell], upper - (|cell| - |records[i]|))
  {
    var d := |cell| - |records[i]|;
    var r := records[i := cell];
    forall x: nat | upper - d <= x < PAGE
      ensures Taken(t, r, x)
    {
      if starts[i] - d <= x < starts[i] + |records[i]| {
        assert Inside(t, r, i, x);
      } else {
        var y := if x < starts[i] - d then x + d else x;
        assert Taken(starts, records, y);
        var j: nat :| Inside(starts, records, j, y);
        Sides2(starts, records, upper, i, j, y);
        assert Inside(t, r, j, x);
      }
    }
  }

  lemma Sides2(starts: seq<nat>, records: seq<Bytes>, upper: nat, i: nat, j: nat, y: nat)
    requires Apart(starts, records, upper) && i < |starts| && Inside(starts, records, j, y)
    requires y < starts[i] || starts[i] + |records[i]| <= y
    ensures j != i && (y < starts[i] <==> starts[j] < starts[i])
  {
    if j != i {
      Sides(starts, records, upper, i, j);
    }
  }

  // ----- bytes

  /** What a replacement leaves: the cell, the records above as they were, those under moved, and a clear free area. */
  ghost predicate ReplaceLike(s: Bytes, r: Bytes, starts: seq<nat>, upper: nat, i: nat, len: nat, cell: Bytes)
    requires |s| == |r| == PAGE && i < |starts| && starts[i] + len <= PAGE
  {
    var d := |cell| - len;
    && 0 <= upper - d <= starts[i] - d
    && (forall x {:trigger r[x]} :: starts[i] + len <= x < PAGE ==> r[x] == s[x])
    && Cell(r, starts[i] - d, cell)
    && (forall x {:trigger r[x]} :: upper - d <= x < starts[i] - d ==> r[x] == s[x + d])
    && Zero(r, Slot(|starts|), upper - d)
  }

  lemma ReplaceCells(s: Bytes, r: Bytes, starts: seq<nat>, records: seq<Bytes>, upper: nat, i: nat, cell: Bytes, t: seq<nat>)
    requires |s| == |r| == PAGE && Apart(starts, records, upper) && Cells(s, starts, records) && i < |starts|
    requires ReplaceLike(s, r, starts, upper, i, |records[i]|, cell) && Shifted(starts, i, |cell| - |records[i]|, t)
    ensures Cells(r, t, records[i := cell])
  {
    var d := |cell| - |records[i]|;
    forall j | 0 <= j < |t|
      ensures Cell(r, t[j], records[i := cell][j])
    {
      if j != i {
        Sides(starts, records, upper, i, j);
        assert upper <= starts[j] && starts[j] + |records[j]| <= PAGE;
        assert Cell(s, starts[j], records[j]);
        CellMoves(s, r, starts[j], t[j], records[j]);
      }
    }
  }

  lemma CellMoves(s: Bytes, r: Bytes, at: nat, to: nat, cell: Bytes)
    requires Cell(s, at, cell) && to + |cell| <= |r|
    requires forall k {:trigger cell[k]} :: 0 <= k < |cell| ==> r[to + k] == s[at + k]
    ensures Cell(r, to, cell)
  {
  }

  /** The slots of the records under `before` moved by `d`, the rest of the page as it was. */
  ghost predicate SlotsMoved(s: Bytes, r: Bytes, count: nat, target: nat, before: nat, d: int) {
    && |s| == |r| == PAGE && Slot(count) <= PAGE
    && (forall x {:trigger r[x]} :: 0 <= x < HEAD || Slot(count) <= x < PAGE ==> r[x] == s[x])
    && (forall j: nat {:trigger Slot(j)} :: j < count ==>
          U16(r, Slot(j)) == if j != target && U16(s, Slot(j)) < before then U16(s, Slot(j)) - d else U16(s, Slot(j)))
  }

  /** Shift the slot of every record under `before`, the target excepted. */
  method AdjustSlotsBefore(page: array<Byte>, count: nat, target: nat, before: nat, d: int)
    requires page.Length == PAGE && Slot(count) <= PAGE
    requires forall j: nat {:trigger Slot(j)} :: j < count && U16(page[..], Slot(j)) < before ==> 0 <= U16(page[..], Slot(j)) - d < PAGE
    modifies page
    ensures SlotsMoved(old(page[..]), page[..], count, target, before, d)
  {
    ghost var s := page[..];
    for index := 0 to count
      invariant forall x {:trigger page[x]} :: 0 <= x < HEAD || Slot(index) <= x < PAGE ==> page[x] == s[x]
      invariant forall j: nat {:trigger Slot(j)} :: j < index ==>
        U16(page[..], Slot(j)) == if j != target && U16(s, Slot(j)) < before then U16(s, Slot(j)) - d else U16(s, Slot(j))
    {
      hide U16;
      var at := Slot(index);
      SameU16(page[..], s, at, at);
      if index != target {
        var was := Load(page, at);
        if was < before {
          ghost var t := page[..];
          PutAt(t, at, was - d);
          Store(page, at, was - d);
          forall j: nat | j < index ensures U16(page[..], Slot(j)) == U16(t, Slot(j)) { SameU16(page[..], t, Slot(j), Slot(j)); }
        }
      }
    }
  }

  // ----- replacement

  function ShiftedStarts(starts: seq<nat>, i: nat, d: int): seq<nat>
    requires i < |starts| && forall j {:trigger starts[j]} :: 0 <= j < |starts| ==> starts[j] >= d
  {
    seq(|starts|, j requires 0 <= j < |starts| => NewStart(starts, i, d, j))
  }

  /** The page once the area under the target has moved and the slots with it. */
  ghost predicate AreaMoved(s: Bytes, r: Bytes, starts: seq<nat>, upper: nat, i: nat, d: int)
    requires i < |starts|
  {
    && |s| == |r| == PAGE && Slot(|starts|) <= PAGE && 0 <= upper - d && starts[i] - d <= PAGE && starts[i] <= PAGE
    && (forall x {:trigger r[x]} :: 0 <= x < HEAD ==> r[x] == s[x])
    && (forall j: nat {:trigger Slot(j)} :: j < |starts| ==>
          U16(r, Slot(j)) == if j != i && starts[j] < starts[i] then starts[j] - d else starts[j])
    && (forall x {:trigger r[x]} :: upper - d <= x < starts[i] - d && x >= Slot(|starts|) ==> r[x] == s[x + d])
    && (forall x {:trigger r[x]} :: starts[i] <= x < PAGE && starts[i] - d <= x ==> r[x] == s[x])
    && Zero(r, Slot(|starts|), upper - d)
  }

  function Completed(a: Bytes, at: nat, cell: Bytes, i: nat, upper: nat): (r: Bytes)
    requires |a| == PAGE && at + |cell| <= PAGE && Slot(i) + 2 <= PAGE && upper <= PAGE
    ensures |r| == PAGE
  {
    PutU16(PutU16(Written(a, at, cell), Slot(i), at), UPPER, upper)
  }

  /** Stamping the cell, its slot and the bound completes the replacement. */
  lemma CompletedBytes(s: Bytes, a: Bytes, starts: seq<nat>, upper: nat, i: nat, len: nat, cell: Bytes)
    requires i < |starts| && Slot(|starts|) <= upper <= starts[i] && starts[i] + len <= PAGE && Slot(|starts|) <= upper - (|cell| - len)
    requires AreaMoved(s, a, starts, upper, i, |cell| - len)
    ensures
      var d := |cell| - len;
      var r := Completed(a, starts[i] - d, cell, i, upper - d);
      && SameHead(s, r) && U16(r, COUNT) == U16(s, COUNT) && U16(r, LOWER) == U16(s, LOWER) && U16(r, UPPER) == upper - d
      && ReplaceLike(s, r, starts, upper, i, len, cell)
      && (forall j: nat {:trigger Slot(j)} :: j < |starts| ==> U16(r, Slot(j)) == NewStart(starts, i, d, j))
  {
    hide Written, PutU16, U16;
    var d := |cell| - len;
    var at, top := starts[i] - d, upper - d;
    var w := Written(a, at, cell);
    var p := PutU16(w, Slot(i), at);
    var r := PutU16(p, UPPER, top);
    WrittenAt(a, at, cell);
    PutAt(w, Slot(i), at);
    PutAt(p, UPPER, top);
    SameU16(r, s, COUNT, COUNT);
    SameU16(r, s, LOWER, LOWER);
    forall j: nat | j < |starts|
      ensures U16(r, Slot(j)) == NewStart(starts, i, d, j)
    {
      if j == i {
        SameU16(r, p, Slot(i), Slot(i));
      } else {
        SameU16(r, a, Slot(j), Slot(j));
      }
    }
  }

  lemma Bounds(starts: seq<nat>, records: seq<Bytes>, upper: nat, d: int)
    requires Apart(starts, records, upper) && upper >= d
    ensures forall j {:trigger starts[j]} :: 0 <= j < |starts| ==> starts[j] >= d
  {
  }

  lemma CompletedRepr(s: Bytes, a: Bytes, starts: seq<nat>, records: seq<Bytes>, upper: nat, i: nat, cell: Bytes)
    requires Repr(s, starts, records, upper) && i < |records| && cell != [] && Slot(|records|) <= upper - (|cell| - |records[i]|)
    requires |starts| == |records| && starts[i] + |records[i]| <= PAGE && upper <= starts[i] && |a| == PAGE
    requires AreaMoved(s, a, starts, upper, i, |cell| - |records[i]|)
    ensures
      var d := |cell| - |records[i]|;
      var r := Completed(a, starts[i] - d, cell, i, upper - d);
      Holds(r, records[i := cell]) && SameHead(s, r)
  {
    hide Completed, Apart, Full, Cells, AreaMoved, ReplaceLike, U16, Cell;
    var d := |cell| - |records[i]|;
    Bounds(starts, records, upper, d);
    var t, r := ShiftedStarts(starts, i, d), Completed(a, starts[i] - d, cell, i, upper - d);
    CompletedBytes(s, a, starts, upper, i, |records[i]|, cell);
    ShiftedApart(starts, records, upper, i, cell, t);
    ShiftedFull(starts, records, upper, i, cell, t);
    ReplaceCells(s, r, starts, records, upper, i, cell, t);
    Freed(s, r, starts, upper, i, |records[i]|, cell);
    ReprHolds(r, t, records[i := cell], upper - d);
  }

  lemma Freed(s: Bytes, r: Bytes, starts: seq<nat>, upper: nat, i: nat, len: nat, cell: Bytes)
    requires |s| == |r| == PAGE && i < |starts| && starts[i] + len <= PAGE && ReplaceLike(s, r, starts, upper, i, len, cell)
    ensures Zero(r, Slot(|starts|), upper - (|cell| - len))
  {
  }

  // ----- moving the area

  /** Down: the record grew by `d`. */
  lemma MovedDown(s: Bytes, b: Bytes, starts: seq<nat>, upper: nat, i: nat, d: nat)
    requires |s| == PAGE && i < |starts| && Slots(s, starts) && Zero(s, Slot(|starts|), upper)
    requires Slot(|starts|) <= upper - d && upper <= starts[i] <= PAGE
    requires SlotsMoved(Moved(s, upper - d, upper, starts[i] - upper), b, |starts|, i, starts[i], d)
    ensures AreaMoved(s, b, starts, upper, i, d)
  {
    hide Moved, U16;
    var a := Moved(s, upper - d, upper, starts[i] - upper);
    MovedAt(s, upper - d, upper, starts[i] - upper);
    forall j: nat | j < |starts|
      ensures U16(a, Slot(j)) == starts[j]
    {
      SameU16(a, s, Slot(j), Slot(j));
    }
  }

  /** Up: it shrank by `h`, and the bytes left behind are cleared. */
  lemma MovedUp(s: Bytes, b: Bytes, starts: seq<nat>, upper: nat, i: nat, h: nat)
    requires |s| == PAGE && i < |starts| && Slots(s, starts) && Zero(s, Slot(|starts|), upper)
    requires Slot(|starts|) <= upper <= starts[i] && starts[i] + h <= PAGE
    requires SlotsMoved(Cleared(Moved(s, upper + h, upper, starts[i] - upper), upper, upper + h), b, |starts|, i, starts[i], 0 - h)
    ensures AreaMoved(s, b, starts, upper, i, 0 - h)
  {
    hide Moved, Cleared, U16;
    var a := Moved(s, upper + h, upper, starts[i] - upper);
    var c := Cleared(a, upper, upper + h);
    MovedAt(s, upper + h, upper, starts[i] - upper);
    ClearedAt(a, upper, upper + h);
    forall j: nat | j < |starts|
      ensures U16(c, Slot(j)) == starts[j]
    {
      SameU16(c, s, Slot(j), Slot(j));
    }
  }

  lemma NotMoved(s: Bytes, starts: seq<nat>, upper: nat, i: nat)
    requires |s| == PAGE && i < |starts| && Slots(s, starts) && Zero(s, Slot(|starts|), upper) && starts[i] <= PAGE
    ensures AreaMoved(s, s, starts, upper, i, 0)
  {
  }

  /** Facts of a page that the edits use one at a time. */
  lemma Facts(s: Bytes, starts: seq<nat>, records: seq<Bytes>, upper: nat, i: nat)
    requires Repr(s, starts, records, upper) && i < |records|
    ensures |s| == PAGE && |starts| == |records| && Slots(s, starts) && Zero(s, Slot(|starts|), upper)
    ensures Slot(|records|) <= upper <= starts[i] && starts[i] + |records[i]| <= PAGE && U16(s, Slot(i)) == starts[i]
    ensures forall j: nat {:trigger Slot(j)} :: j < |starts| ==> U16(s, Slot(j)) == starts[j] && upper <= starts[j] < PAGE
  {
    forall j: nat | j < |starts|
      ensures U16(s, Slot(j)) == starts[j] && upper <= starts[j] < PAGE
    {
      assert starts[j] + |records[j]| <= PAGE;
    }
  }

  lemma Nonempty(s: Bytes, starts: seq<nat>, records: seq<Bytes>, upper: nat)
    requires Repr(s, starts, records, upper)
    ensures forall i {:trigger records[i]} :: 0 <= i < |records| ==> records[i] != []
  {
    forall i | 0 <= i < |records| ensures records[i] != [] { assert starts[i] >= upper; }
  }

  /** Moving the area does not touch the slots. */
  lemma SlotsStay(s: Bytes, starts: seq<nat>, dst: nat, upper: nat, len: nat)
    requires |s| == PAGE && Slots(s, starts) && Slot(|starts|) <= dst && dst + len <= PAGE && upper + len <= PAGE
    ensures forall j: nat {:trigger Slot(j)} :: j < |starts| ==> U16(Moved(s, dst, upper, len), Slot(j)) == starts[j]
  {
    hide Moved, U16;
    MovedAt(s, dst, upper, len);
    forall j: nat | j < |starts|
      ensures U16(Moved(s, dst, upper, len), Slot(j)) == starts[j]
    {
      SameU16(Moved(s, dst, upper, len), s, Slot(j), Slot(j));
    }
  }

  lemma SlotsStayCleared(s: Bytes, starts: seq<nat>, upper: nat, h: nat)
    requires |s| == PAGE && Slot(|starts|) <= upper && upper + h <= PAGE
    requires forall j: nat {:trigger Slot(j)} :: j < |starts| ==> U16(s, Slot(j)) == starts[j]
    ensures forall j: nat {:trigger Slot(j)} :: j < |starts| ==> U16(Cleared(s, upper, upper + h), Slot(j)) == starts[j]
  {
    hide Cleared, U16;
    ClearedAt(s, upper, upper + h);
    forall j: nat | j < |starts|
      ensures U16(Cleared(s, upper, upper + h), Slot(j)) == starts[j]
    {
      SameU16(Cleared(s, upper, upper + h), s, Slot(j), Slot(j));
    }
  }

  method Finish(page: array<Byte>, at: nat, cell: Bytes, index: nat, upper: nat)
    requires page.Length == PAGE && at + |cell| <= PAGE && Slot(index) + 2 <= PAGE && upper <= PAGE
    modifies page
    ensures page[..] == Completed(old(page[..]), at, cell, index, upper)
  {
    CopyIn(page, at, cell);
    Store(page, Slot(index), at);
    Store(page, UPPER, upper);
  }

  /** One record replaced; refused without a change when the new one does not fit. */
  method Replace(page: array<Byte>, index: nat, oldLen: nat, cell: Bytes, ghost records: seq<Bytes>) returns (valid: bool, fits: bool)
    requires page.Length == PAGE && Holds(page[..], records) && (index < |records| ==> oldLen == |records[index]|)
    modifies page
    ensures valid <==> index < |records| && cell != []
    ensures fits <==> valid && |cell| <= oldLen + (old(U16(page[..], UPPER)) - Slot(|records|))
    ensures !fits ==> page[..] == old(page[..])
    ensures fits ==> Holds(page[..], records[index := cell]) && SameHead(old(page[..]), page[..])
  {
    hide Repr, Holds, SameHead, Moved, Written, PutU16, Cleared, U16, Slots, Zero, AreaMoved, SlotsMoved;
    ghost var starts, top := HoldsRepr(page[..], records);
    var count := Load(page, COUNT);
    var lower := Load(page, LOWER);
    var upper := Load(page, UPPER);
    Nonempty(page[..], starts, records, top);
    if index >= count || oldLen == 0 || cell == [] {
      return false, false;
    }
    ghost var s := page[..];
    Facts(s, starts, records, top, index);
    var start := Load(page, Slot(index));
    if |cell| > oldLen {
      var growth := |cell| - oldLen;
      if lower > upper - growth {
        return true, false;
      }
      SlotsStay(s, starts, upper - growth, upper, start - upper);
      CopyWithin(page, upper - growth, upper, start - upper);
      AdjustSlotsBefore(page, count, index, start, growth);
      MovedDown(s, page[..], starts, upper, index, growth);
      CompletedRepr(s, page[..], starts, records, upper, index, cell);
      Finish(page, start - growth, cell, index, upper - growth);
    } else {
      var shrink := oldLen - |cell|;
      if shrink != 0 {
        SlotsStay(s, starts, upper + shrink, upper, start - upper);
        CopyWithin(page, upper + shrink, upper, start - upper);
        SlotsStayCleared(page[..], starts, upper, shrink);
        Clear(page, upper, upper + shrink);
        AdjustSlotsBefore(page, count, index, start, 0 - shrink);
        MovedUp(s, page[..], starts, upper, index, shrink);
      } else {
        NotMoved(s, starts, upper, index);
      }
      CompletedRepr(s, page[..], starts, records, upper, index, cell);
      Finish(page, start + shrink, cell, index, upper + shrink);
    }
    return true, true;
  }

  // ----- removal

  function Dropped<T>(s: seq<T>, i: nat): seq<T>
    requires i < |s|
  {
    s[..i] + s[i + 1..]
  }

  /** The place of entry `j` before entry `i` was dropped. */
  function Was(i: nat, j: nat): nat {
    if j < i then j else j + 1
  }

  function Raised(starts: seq<nat>, i: nat, len: nat, k: nat): nat
    requires i < |starts| && k < |starts|
  {
    if starts[k] < starts[i] then starts[k] + len else starts[k]
  }

  ghost predicate Closed(starts: seq<nat>, i: nat, len: nat, t: seq<nat>) {
    i < |starts| && |t| + 1 == |starts| && forall j {:trigger t[j]} :: 0 <= j < |t| ==> t[j] == Raised(starts, i, len, Was(i, j))
  }

  lemma ClosedApart(starts: seq<nat>, records: seq<Bytes>, upper: nat, i: nat, t: seq<nat>)
    requires Apart(starts, records, upper) && i < |starts| && Closed(starts, i, |records[i]|, t)
    ensures Apart(t, Dropped(records, i), upper + |records[i]|)
  {
    var r, u := Dropped(records, i), upper + |records[i]|;
    assert starts[i] + |records[i]| <= PAGE && upper <= starts[i];
    forall j | 0 <= j < |t|
      ensures r[j] != [] && u <= t[j] && t[j] + |r[j]| <= PAGE
    {
      var k := Was(i, j);
      assert r[j] == records[k] && starts[k] >= upper;
      Sides(starts, records, upper, i, k);
    }
    forall j, l | 0 <= j < l < |t|
      ensures Clear2(t[j], |r[j]|, t[l], |r[l]|)
    {
      var k, m := Was(i, j), Was(i, l);
      assert r[j] == records[k] && r[l] == records[m];
      assert Clear2(starts[k], |records[k]|, starts[m], |records[m]|);
      Sides(starts, records, upper, i, k);
      Sides(starts, records, upper, i, m);
    }
  }

  lemma ClosedFull(starts: seq<nat>, records: seq<Bytes>, upper: nat, i: nat, t: seq<nat>)
    requires Apart(starts, records, upper) && Full(starts, records, upper) && i < |starts| && Closed(starts, i, |records[i]|, t)
    ensures Full(t, Dropped(records, i), upper + |records[i]|)
  {
    var r, len := Dropped(records, i), |records[i]|;
    forall x: nat | upper + len <= x < PAGE
      ensures Taken(t, r, x)
    {
      var y := if x < starts[i] + len then x - len else x;
      assert Taken(starts, records, y);
      var k: nat :| Inside(starts, records, k, y);
      Sides2(starts, records, upper, i, k, y);
      var j := if k < i then k else k - 1;
      assert Was(i, j) == k && r[j] == records[k];
      assert Inside(t, r, j, x);
    }
  }

  function RemoveBytes(a: Bytes, count: nat, i: nat, upper: nat): (r: Bytes)
    requires |a| == PAGE && i < count && Slot(count) <= PAGE && upper <= PAGE
    ensures |r| == PAGE
  {
    Stamped(PutU16(Moved(a, Slot(i), Slot(i) + 2, Slot(count) - Slot(i) - 2), Slot(count) - 2, 0), count - 1, upper)
  }

  /** What a removal leaves, byte by byte. */
  ghost predicate RemoveLike(s: Bytes, r: Bytes, starts: seq<nat>, upper: nat, i: nat, len: nat, t: seq<nat>)
    requires |s| == |r| == PAGE && i < |starts| && Slot(|starts|) <= upper <= starts[i] && starts[i] + len <= PAGE
  {
    && Slots(r, t) && Zero(r, Slot(|starts|) - 2, upper + len)
    && (forall x {:trigger r[x]} :: upper + len <= x < starts[i] + len ==> r[x] == s[x - len])
    && (forall x {:trigger r[x]} :: starts[i] + len <= x < PAGE ==> r[x] == s[x])
  }

  lemma RemovedBytes(s: Bytes, a: Bytes, starts: seq<nat>, upper: nat, i: nat, len: nat, t: seq<nat>)
    requires i < |starts| && Slot(|starts|) <= upper <= starts[i] && starts[i] + len <= PAGE && |s| == |a| == PAGE
    requires AreaMoved(s, a, starts, upper, i, 0 - len) && Closed(starts, i, len, t)
    ensures
      var r := RemoveBytes(a, |starts|, i, upper + len);
      SameHead(s, r) && Head(r, |starts| - 1, upper + len) && RemoveLike(s, r, starts, upper, i, len, t)
  {
    hide Moved, PutU16, Stamped, U16;
    var count := |starts|;
    var m := Moved(a, Slot(i), Slot(i) + 2, Slot(count) - Slot(i) - 2);
    var p := PutU16(m, Slot(count) - 2, 0);
    var r := Stamped(p, count - 1, upper + len);
    MovedAt(a, Slot(i), Slot(i) + 2, Slot(count) - Slot(i) - 2);
    PutAt(m, Slot(count) - 2, 0);
    StampedIs(p, count - 1, upper + len);
    ZeroBytes(p, Slot(count) - 2);
    forall j | 0 <= j < |t|
      ensures U16(r, Slot(j)) == t[j]
    {
      SameU16(r, a, Slot(j), Slot(Was(i, j)));
    }
  }

  lemma ZeroBytes(s: Bytes, at: nat)
    requires at + 2 <= |s| && U16(s, at) == 0
    ensures s[at] == 0 && s[at + 1] == 0
  {
  }

  lemma RemoveCells(s: Bytes, r: Bytes, starts: seq<nat>, records: seq<Bytes>, upper: nat, i: nat, t: seq<nat>)
    requires |s| == |r| == PAGE && Apart(starts, records, upper) && Cells(s, starts, records) && i < |starts|
    requires Slot(|starts|) <= upper <= starts[i] && starts[i] + |records[i]| <= PAGE
    requires Closed(starts, i, |records[i]|, t) && RemoveLike(s, r, starts, upper, i, |records[i]|, t)
    ensures Cells(r, t, Dropped(records, i))
  {
    forall j | 0 <= j < |t|
      ensures Cell(r, t[j], Dropped(records, i)[j])
    {
      var k := Was(i, j);
      assert Dropped(records, i)[j] == records[k];
      Sides(starts, records, upper, i, k);
      assert upper <= starts[k] && starts[k] + |records[k]| <= PAGE;
      assert Cell(s, starts[k], records[k]);
      CellMoves(s, r, starts[k], t[j], records[k]);
    }
  }

  lemma RemovedRepr(s: Bytes, a: Bytes, starts: seq<nat>, records: seq<Bytes>, upper: nat, i: nat)
    requires Repr(s, starts, records, upper) && i < |records| && |a| == PAGE && |starts| == |records|
    requires Slot(|starts|) <= upper <= starts[i] && starts[i] + |records[i]| <= PAGE
    requires AreaMoved(s, a, starts, upper, i, 0 - |records[i]|)
    ensures
      var r := RemoveBytes(a, |records|, i, upper + |records[i]|);
      Holds(r, Dropped(records, i)) && SameHead(s, r)
  {
    hide RemoveBytes, Apart, Full, Cells, AreaMoved, U16;
    var len := |records[i]|;
    var t := seq(|starts| - 1, j requires 0 <= j < |starts| - 1 => Raised(starts, i, len, Was(i, j)));
    var r := RemoveBytes(a, |records|, i, upper + len);
    RemovedBytes(s, a, starts, upper, i, len, t);
    ClosedApart(starts, records, upper, i, t);
    ClosedFull(starts, records, upper, i, t);
    RemoveCells(s, r, starts, records, upper, i, t);
    ReprHolds(r, t, Dropped(records, i), upper + len);
  }

  /** One record removed; the page keeps at least one. */
  method Remove(page: array<Byte>, index: nat, oldLen: nat, ghost records: seq<Bytes>) returns (valid: bool)
    requires page.Length == PAGE && Holds(page[..], records) && (index < |records| ==> oldLen == |records[index]|)
    modifies page
    ensures valid <==> index < |records| && |records| > 1
    ensures !valid ==> page[..] == old(page[..])
    ensures valid ==> Holds(page[..], Dropped(records, index)) && SameHead(old(page[..]), page[..])
  {
    hide Repr, Holds, SameHead, Moved, Written, PutU16, Cleared, Stamped, U16, Slots, Zero, AreaMoved, SlotsMoved;
    ghost var starts, top := HoldsRepr(page[..], records);
    var count := Load(page, COUNT);
    var lower := Load(page, LOWER);
    var upper := Load(page, UPPER);
    Nonempty(page[..], starts, records, top);
    if index >= count || count <= 1 || oldLen == 0 {
      return false;
    }
    ghost var s := page[..];
    Facts(s, starts, records, top, index);
    var start := Load(page, Slot(index));
    SlotsStay(s, starts, upper + oldLen, upper, start - upper);
    CopyWithin(page, upper + oldLen, upper, start - upper);
    SlotsStayCleared(page[..], starts, upper, oldLen);
    Clear(page, upper, upper + oldLen);
    RaisedFit(starts, records, s, upper, index);
    AdjustSlotsBefore(page, count, index, start, 0 - oldLen);
    MovedUp(s, page[..], starts, upper, index, oldLen);
    RemovedRepr(s, page[..], starts, records, upper, index);
    var slot := Slot(index);
    CopyWithin(page, slot, slot + 2, lower - slot - 2);
    Store(page, lower - 2, 0);
    Stamp(page, count - 1, upper + oldLen);
    return true;
  }

  lemma RaisedFit(starts: seq<nat>, records: seq<Bytes>, s: Bytes, upper: nat, i: nat)
    requires Repr(s, starts, records, upper) && i < |records| && |starts| == |records|
    ensures forall j {:trigger starts[j]} :: 0 <= j < |starts| && starts[j] < starts[i] ==> starts[j] + |records[i]| < PAGE
  {
    assert starts[i] + |records[i]| <= PAGE;
  }
}
