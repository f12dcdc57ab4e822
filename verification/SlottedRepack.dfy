/**
 Re-packing a slotted page (v4/go/internal/format/put.go): the records that stay are moved
 up against the end of the page in descending physical order.
 */
module SlottedRepack {
  import opened SlottedBytes
  import opened SlottedPage
  import opened SlottedSort

  // ----- physical order

  /** `order` lists the records from the lowest offset up; each starts where the one under it ends. */
  ghost predicate Chain(starts: seq<nat>, records: seq<Bytes>, upper: nat, order: seq<nat>) {
    && |order| == |starts| == |records|
    && (forall k {:trigger order[k]} :: 0 <= k < |order| ==> order[k] < |starts|)
    && (forall k, m {:trigger order[k], order[m]} :: 0 <= k < m < |order| ==> order[k] != order[m])
    && (forall k {:trigger order[k]} :: 0 <= k < |order| ==> starts[order[k]] + |records[order[k]]| == Boundary(starts, order, k + 1))
  }

  /** Where the record at physical place `k` starts; one past the last is the end of the page. */
  ghost function Boundary(starts: seq<nat>, order: seq<nat>, k: nat): nat
    requires forall i {:trigger order[i]} :: 0 <= i < |order| ==> order[i] < |starts|
  {
    if k < |order| then starts[order[k]] else PAGE
  }

  /** The records outside the places from `a` to `b` stay. */
  predicate Stays(j: nat, a: nat, b: nat) {
    j < a || b <= j
  }

  function Out(j: nat, a: nat, b: nat): nat
    requires a <= b
  {
    if j < a then j else if j < b then 0 else j - (b - a)
  }

  function Kept<T>(s: seq<T>, a: nat, b: nat): seq<T>
    requires a <= b <= |s|
  {
    s[..a] + s[b..]
  }

  // ----- where the records go

  ghost predicate Listed(records: seq<Bytes>, order: seq<nat>) {
    forall k {:trigger order[k]} :: 0 <= k < |order| ==> order[k] < |records|
  }

  /** The destination once the physical places from `k` up are done. */
  ghost function Dest(records: seq<Bytes>, order: seq<nat>, a: nat, b: nat, k: nat): int
    requires Listed(records, order) && k <= |order|
    decreases |order| - k
  {
    if k == |order| then PAGE
    else Dest(records, order, a, b, k + 1) - if Stays(order[k], a, b) then |records[order[k]]| else 0
  }

  /** Records only ever move up. */
  lemma {:induction false} DestAbove(starts: seq<nat>, records: seq<Bytes>, upper: nat, order: seq<nat>, a: nat, b: nat, k: nat)
    requires Chain(starts, records, upper, order) && k <= |order|
    ensures Boundary(starts, order, k) <= Dest(records, order, a, b, k) <= PAGE
    decreases |order| - k
  {
    hide Chain;
    ChainStep(starts, records, upper, order, k);
    if k < |order| {
      DestAbove(starts, records, upper, order, a, b, k + 1);
    }
  }

  lemma ChainStep(starts: seq<nat>, records: seq<Bytes>, upper: nat, order: seq<nat>, k: nat)
    requires Chain(starts, records, upper, order)
    ensures Listed(records, order) && |order| == |records| == |starts|
    ensures k < |order| ==> order[k] < |starts| && starts[order[k]] + |records[order[k]]| == Boundary(starts, order, k + 1)
  {
  }

  lemma {:induction false} DestRises(records: seq<Bytes>, order: seq<nat>, a: nat, b: nat, k: nat, m: nat)
    requires Listed(records, order) && k <= m <= |order|
    ensures Dest(records, order, a, b, k) <= Dest(records, order, a, b, m)
    decreases m - k
  {
    if k < m {
      DestRises(records, order, a, b, k + 1, m);
    }
  }

  /** Every byte from a destination on belongs to one of the records placed so far. */
  lemma {:induction false} DestFull(records: seq<Bytes>, order: seq<nat>, a: nat, b: nat, k: nat, x: nat) returns (m: nat)
    requires Listed(records, order) && k <= |order| && Dest(records, order, a, b, k) <= x < PAGE
    ensures k <= m < |order| && Stays(order[m], a, b)
    ensures Dest(records, order, a, b, m) <= x < Dest(records, order, a, b, m) + |records[order[m]]|
    decreases |order| - k
  {
    if Stays(order[k], a, b) && x < Dest(records, order, a, b, k + 1) {
      m := k;
    } else {
      m := DestFull(records, order, a, b, k + 1, x);
    }
  }

  // ----- the new layout

  /** The records that stay, at their destinations. */
  ghost predicate Laid(starts: seq<nat>, records: seq<Bytes>, order: seq<nat>, a: nat, b: nat, t: seq<nat>)
    requires Listed(records, order) && a <= b <= |records|
  {
    && |t| == |records| - (b - a)
    && forall m {:trigger order[m]} :: 0 <= m < |order| && Stays(order[m], a, b) ==>
         Out(order[m], a, b) < |t| && t[Out(order[m], a, b)] == Dest(records, order, a, b, m)
  }

  /** A place in the new list and the physical place it came from. */
  lemma Source(records: seq<Bytes>, order: seq<nat>, inverse: seq<nat>, a: nat, b: nat, o: nat) returns (m: nat)
    requires Listed(records, order) && Inverse(order, inverse) && |order| == |records| && a <= b <= |records| && o < |records| - (b - a)
    ensures m < |order| && Stays(order[m], a, b) && Out(order[m], a, b) == o && Kept(records, a, b)[o] == records[order[m]]
  {
    var j := if o < a then o else o + (b - a);
    m := inverse[j];
  }

  ghost predicate Inverse(order: seq<nat>, inverse: seq<nat>) {
    && |inverse| == |order|
    && forall j {:trigger inverse[j]} :: 0 <= j < |inverse| ==> inverse[j] < |order| && order[inverse[j]] == j
  }

  /** Where entry `o` of the new list lies. */
  ghost predicate Lies(records: seq<Bytes>, order: seq<nat>, a: nat, b: nat, t: seq<nat>, o: nat, m: nat)
    requires Listed(records, order) && a <= b <= |records| && |t| == |records| - (b - a)
  {
    && o < |t| && m < |order| && Stays(order[m], a, b) && Out(order[m], a, b) == o
    && Kept(records, a, b)[o] == records[order[m]] && t[o] == Dest(records, order, a, b, m)
    && t[o] + |records[order[m]]| == Dest(records, order, a, b, m + 1)
  }

  lemma Found(starts: seq<nat>, records: seq<Bytes>, order: seq<nat>, inverse: seq<nat>, a: nat, b: nat, t: seq<nat>, o: nat) returns (m: nat)
    requires Listed(records, order) && Inverse(order, inverse) && |order| == |records| && a <= b <= |records|
    requires Laid(starts, records, order, a, b, t) && o < |t|
    ensures Lies(records, order, a, b, t, o, m)
  {
    hide Dest;
    m := Source(records, order, inverse, a, b, o);
    DestStep(records, order, a, b, m);
  }

  lemma LaidApart(starts: seq<nat>, records: seq<Bytes>, upper: nat, order: seq<nat>, inverse: seq<nat>, a: nat, b: nat, t: seq<nat>)
    requires Chain(starts, records, upper, order) && Listed(records, order) && Inverse(order, inverse) && a <= b <= |records| && Laid(starts, records, order, a, b, t)
    requires forall j {:trigger records[j]} :: 0 <= j < |records| ==> records[j] != []
    ensures Dest(records, order, a, b, 0) >= 0 && Apart(t, Kept(records, a, b), Dest(records, order, a, b, 0))
  {
    hide Dest, Chain, Inverse, Laid, Boundary;
    Counts(starts, records, upper, order, a, b, t);
    var r, u := Kept(records, a, b), Dest(records, order, a, b, 0);
    DestAbove(starts, records, upper, order, a, b, 0);
    forall o | 0 <= o < |t|
      ensures r[o] != [] && u <= t[o] && t[o] + |r[o]| <= PAGE
    {
      var m := Found(starts, records, order, inverse, a, b, t, o);
      DestRises(records, order, a, b, 0, m);
      DestAbove(starts, records, upper, order, a, b, m + 1);
    }
    forall o, p | 0 <= o < p < |t|
      ensures Clear2(t[o], |r[o]|, t[p], |r[p]|)
    {
      var m := Found(starts, records, order, inverse, a, b, t, o);
      var n := Found(starts, records, order, inverse, a, b, t, p);
      if m < n {
        DestRises(records, order, a, b, m + 1, n);
      } else {
        DestRises(records, order, a, b, n + 1, m);
      }
    }
  }

  lemma Counts(starts: seq<nat>, records: seq<Bytes>, upper: nat, order: seq<nat>, a: nat, b: nat, t: seq<nat>)
    requires Chain(starts, records, upper, order) && Listed(records, order) && a <= b <= |records| && Laid(starts, records, order, a, b, t)
    ensures |order| == |records| == |starts| && |t| == |Kept(records, a, b)|
  {
  }

  lemma DestStep(records: seq<Bytes>, order: seq<nat>, a: nat, b: nat, k: nat)
    requires Listed(records, order) && k < |order|
    ensures Dest(records, order, a, b, k) == Dest(records, order, a, b, k + 1) - if Stays(order[k], a, b) then |records[order[k]]| else 0
  {
  }

  lemma LaidFull(starts: seq<nat>, records: seq<Bytes>, order: seq<nat>, a: nat, b: nat, t: seq<nat>)
    requires Listed(records, order) && |order| == |records| && a <= b <= |records| && Laid(starts, records, order, a, b, t)
    requires Dest(records, order, a, b, 0) >= 0
    ensures Full(t, Kept(records, a, b), Dest(records, order, a, b, 0))
  {
    hide Dest;
    var r := Kept(records, a, b);
    forall x: nat | Dest(records, order, a, b, 0) <= x < PAGE
      ensures Taken(t, r, x)
    {
      var m := DestFull(records, order, a, b, 0, x);
      var j := order[m];
      assert r[Out(j, a, b)] == records[j];
      assert Inside(t, r, Out(j, a, b), x);
    }
  }

  // ----- the loop over the physical places, from the top down

  /** The page when the places from `k` up are done: what is under them has not been touched. */
  ghost predicate Repacking(s: Bytes, p: Bytes, starts: seq<nat>, records: seq<Bytes>, order: seq<nat>, a: nat, b: nat, k: nat)
    requires Listed(records, order) && |order| == |records| == |starts| && a <= b <= |records| && k <= |order|
  {
    && |s| == |p| == PAGE && Slot(|records|) <= PAGE && Boundary(starts, order, k) <= PAGE
    && (forall x {:trigger p[x]} :: 0 <= x < HEAD ==> p[x] == s[x])
    && (forall x {:trigger p[x]} :: Slot(|records|) <= x < Boundary(starts, order, k) ==> p[x] == s[x])
    && Settled(p, records, order, a, b, k)
  }

  /** The records of the places from `k` up are where they belong, and their slots say so. */
  ghost predicate Settled(p: Bytes, records: seq<Bytes>, order: seq<nat>, a: nat, b: nat, k: nat)
    requires Listed(records, order) && |order| == |records| && a <= b <= |records| && k <= |order| && |p| == PAGE && Slot(|records|) <= PAGE
  {
    forall m {:trigger order[m]} :: k <= m < |order| && Stays(order[m], a, b) ==> SettledAt(p, records, order, a, b, m)
  }

  ghost predicate SettledAt(p: Bytes, records: seq<Bytes>, order: seq<nat>, a: nat, b: nat, m: nat)
    requires Listed(records, order) && |order| == |records| && a <= b <= |records| && m < |order| && |p| == PAGE && Slot(|records|) <= PAGE
    requires Stays(order[m], a, b)
  {
    && Dest(records, order, a, b, m) >= 0 && Cell(p, Dest(records, order, a, b, m), records[order[m]])
    && U16(p, Slot(Out(order[m], a, b))) == Dest(records, order, a, b, m)
  }

  function Placed(p: Bytes, from: nat, len: nat, to: nat, slot: nat): (r: Bytes)
    requires |p| == PAGE && from + len <= PAGE && to + len <= PAGE && slot + 2 <= PAGE
    ensures |r| == PAGE
  {
    PutU16(Moved(p, to, from, len), slot, to)
  }

  lemma PlacedAt(p: Bytes, from: nat, len: nat, to: nat, slot: nat)
    requires |p| == PAGE && from + len <= PAGE && to + len <= PAGE && slot + 2 <= to
    ensures
      var r := Placed(p, from, len, to, slot);
      && U16(r, slot) == to
      && (forall x {:trigger r[x]} :: to <= x < to + len ==> r[x] == p[from + (x - to)])
      && (forall x {:trigger r[x]} :: 0 <= x < PAGE && x != slot && x != slot + 1 && !(to <= x < to + len) ==> r[x] == p[x])
  {
    hide Moved, PutU16, U16;
    MovedAt(p, to, from, len);
    PutAt(Moved(p, to, from, len), slot, to);
  }

  /** A record placed earlier is out of the way of one placed now. */
  lemma StillThere(p: Bytes, r: Bytes, cell: Bytes, at: nat, slot: nat, to: nat, len: nat, mine: nat, lower: nat)
    requires |p| == |r| == PAGE && mine + 2 <= lower <= to && slot + 2 <= lower && (mine + 2 <= slot || slot + 2 <= mine)
    requires Cell(p, at, cell) && to + len <= at <= PAGE && U16(p, mine) == at
    requires forall x {:trigger r[x]} :: 0 <= x < PAGE && x != slot && x != slot + 1 && !(to <= x < to + len) ==> r[x] == p[x]
    ensures Cell(r, at, cell) && U16(r, mine) == at
  {
    SameU16(r, p, mine, mine);
  }

  lemma PlaceOne(s: Bytes, p: Bytes, starts: seq<nat>, records: seq<Bytes>, upper: nat, order: seq<nat>, a: nat, b: nat, k: nat)
    requires Chain(starts, records, upper, order) && Listed(records, order) && a <= b <= |records| && k < |order|
    requires Slot(|records|) <= upper && Cells(s, starts, records) && Apart(starts, records, upper)
    requires Repacking(s, p, starts, records, order, a, b, k + 1) && Stays(order[k], a, b)
    ensures
      var to := Dest(records, order, a, b, k);
      && Slot(|records|) <= starts[order[k]] <= to && to + |records[order[k]]| <= PAGE && Slot(Out(order[k], a, b)) + 2 <= Slot(|records|)
      && Repacking(s, Placed(p, starts[order[k]], |records[order[k]]|, to, Slot(Out(order[k], a, b))), starts, records, order, a, b, k)
  {
    hide Dest, Placed, U16, Apart, Chain, Cells, Settled, Listed;
    ChainStep(starts, records, upper, order, k);
    Indexed(records, order, k);
    var j := order[k];
    var len, to, slot := |records[j]|, Dest(records, order, a, b, k), Slot(Out(j, a, b));
    DestStep(records, order, a, b, k);
    DestAbove(starts, records, upper, order, a, b, k);
    DestAbove(starts, records, upper, order, a, b, k + 1);
    AboveUpper(starts, records, upper, j);
    CellOf(s, starts, records, j);
    PlacedAt(p, starts[j], len, to, slot);
    PlaceSettled(s, p, starts, records, upper, order, a, b, k);
  }

  lemma Indexed(records: seq<Bytes>, order: seq<nat>, k: nat)
    requires Listed(records, order) && k < |order|
    ensures order[k] < |records|
  {
  }

  lemma CellOf(s: Bytes, starts: seq<nat>, records: seq<Bytes>, j: nat)
    requires Cells(s, starts, records) && j < |starts|
    ensures Cell(s, starts[j], records[j])
  {
  }

  lemma PlaceSettled(s: Bytes, p: Bytes, starts: seq<nat>, records: seq<Bytes>, upper: nat, order: seq<nat>, a: nat, b: nat, k: nat)
    requires Chain(starts, records, upper, order) && Listed(records, order) && a <= b <= |records| && k < |order|
    requires |p| == |s| == PAGE && Slot(|records|) <= starts[order[k]] && starts[order[k]] + |records[order[k]]| <= PAGE
    requires Stays(order[k], a, b) && Settled(p, records, order, a, b, k + 1) && Cell(s, starts[order[k]], records[order[k]])
    requires forall x {:trigger p[x]} :: Slot(|records|) <= x < starts[order[k]] + |records[order[k]]| ==> p[x] == s[x]
    requires 0 <= starts[order[k]] <= Dest(records, order, a, b, k) && Dest(records, order, a, b, k) + |records[order[k]]| == Dest(records, order, a, b, k + 1) <= PAGE
    ensures Slot(Out(order[k], a, b)) + 2 <= Slot(|records|)
    ensures Settled(Placed(p, starts[order[k]], |records[order[k]]|, Dest(records, order, a, b, k), Slot(Out(order[k], a, b))), records, order, a, b, k)
  {
    hide Dest, Placed, U16, Chain, Cell, SettledAt;
    ChainStep(starts, records, upper, order, k);
    var j := order[k];
    var len, to, slot := |records[j]|, Dest(records, order, a, b, k), Slot(Out(j, a, b));
    var r := Placed(p, starts[j], len, to, slot);
    PlacedAt(p, starts[j], len, to, slot);
    forall m | k <= m < |order| && Stays(order[m], a, b)
      ensures SettledAt(r, records, order, a, b, m)
    {
      if m > k {
        DestRises(records, order, a, b, k + 1, m);
        DestAbove(starts, records, upper, order, a, b, m);
        Elsewhere(starts, records, upper, order, a, b, k, m);
        OtherSettled(p, r, records, order, a, b, m, slot, to, len);
      } else {
        OneSettled(s, p, r, records, order, a, b, k, starts[j]);
      }
    }
  }

  /** Two records that stay have two slots. */
  lemma Elsewhere(starts: seq<nat>, records: seq<Bytes>, upper: nat, order: seq<nat>, a: nat, b: nat, k: nat, m: nat)
    requires Chain(starts, records, upper, order) && k < m < |order| && a <= b <= |records| && Stays(order[k], a, b) && Stays(order[m], a, b)
    ensures Out(order[k], a, b) != Out(order[m], a, b) && Out(order[m], a, b) < |records|
  {
    assert order[k] != order[m];
  }

  lemma OtherSettled(p: Bytes, r: Bytes, records: seq<Bytes>, order: seq<nat>, a: nat, b: nat, m: nat, slot: nat, to: nat, len: nat)
    requires Listed(records, order) && |order| == |records| && a <= b <= |records| && m < |order| && |p| == |r| == PAGE
    requires Stays(order[m], a, b) && Slot(|records|) <= to <= PAGE && SettledAt(p, records, order, a, b, m) && to + len <= Dest(records, order, a, b, m) <= PAGE
    requires Out(order[m], a, b) < |records| && slot + 2 <= Slot(|records|) && slot % 2 == 0 && slot != Slot(Out(order[m], a, b))
    requires forall x {:trigger r[x]} :: 0 <= x < PAGE && x != slot && x != slot + 1 && !(to <= x < to + len) ==> r[x] == p[x]
    ensures SettledAt(r, records, order, a, b, m)
  {
    hide Dest, U16;
    StillThere(p, r, records[order[m]], Dest(records, order, a, b, m), slot, to, len, Slot(Out(order[m], a, b)), Slot(|records|));
  }

  lemma OneSettled(s: Bytes, p: Bytes, r: Bytes, records: seq<Bytes>, order: seq<nat>, a: nat, b: nat, k: nat, from: nat)
    requires Listed(records, order) && |order| == |records| && a <= b <= |records| && k < |order| && |s| == |p| == |r| == PAGE && Slot(|records|) <= from
    requires Stays(order[k], a, b) && Dest(records, order, a, b, k) >= 0 && Dest(records, order, a, b, k) + |records[order[k]]| <= PAGE
    requires Cell(s, from, records[order[k]]) && (forall x {:trigger p[x]} :: Slot(|records|) <= x < from + |records[order[k]]| ==> p[x] == s[x])
    requires U16(r, Slot(Out(order[k], a, b))) == Dest(records, order, a, b, k)
    requires forall x {:trigger r[x]} :: Dest(records, order, a, b, k) <= x < Dest(records, order, a, b, k) + |records[order[k]]| ==>
      r[x] == p[from + (x - Dest(records, order, a, b, k))]
    ensures SettledAt(r, records, order, a, b, k)
  {
    hide Dest, U16;
    var cell, to := records[order[k]], Dest(records, order, a, b, k);
    forall i | 0 <= i < |cell|
      ensures r[to + i] == cell[i]
    {
      assert p[from + i] == s[from + i] == cell[i];
    }
  }

  lemma AboveUpper(starts: seq<nat>, records: seq<Bytes>, upper: nat, j: nat)
    requires Apart(starts, records, upper) && j < |starts|
    ensures upper <= starts[j] && starts[j] + |records[j]| <= PAGE && records[j] != []
  {
  }

  lemma SkipOne(s: Bytes, p: Bytes, starts: seq<nat>, records: seq<Bytes>, upper: nat, order: seq<nat>, a: nat, b: nat, k: nat)
    requires Chain(starts, records, upper, order) && Listed(records, order) && a <= b <= |records| && k < |order|
    requires Repacking(s, p, starts, records, order, a, b, k + 1) && !Stays(order[k], a, b)
    ensures Repacking(s, p, starts, records, order, a, b, k) && Dest(records, order, a, b, k) == Dest(records, order, a, b, k + 1)
  {
    hide U16, Chain;
    ChainStep(starts, records, upper, order, k);
  }

  // ----- finishing

  function RepackBytes(p: Bytes, was: nat, now: nat, upper: nat, top: nat): (r: Bytes)
    requires |p| == PAGE && now <= was && Slot(was) <= upper <= top <= PAGE
    ensures |r| == PAGE
  {
    Stamped(Cleared(Cleared(p, Slot(now), Slot(was)), upper, top), now, top)
  }

  lemma RepackedAt(p: Bytes, was: nat, now: nat, upper: nat, top: nat)
    requires |p| == PAGE && now <= was && Slot(was) <= upper <= top <= PAGE
    ensures
      var r := RepackBytes(p, was, now, upper, top);
      && Head(r, now, top) && SameHead(p, r)
      && (forall x {:trigger r[x]} :: HEAD <= x < Slot(now) ==> r[x] == p[x])
      && (forall x {:trigger r[x]} :: Slot(now) <= x < Slot(was) || upper <= x < top ==> r[x] == 0)
      && (forall x {:trigger r[x]} :: Slot(was) <= x < upper || top <= x < PAGE ==> r[x] == p[x])
  {
    hide Cleared, Stamped, U16;
    var c := Cleared(p, Slot(now), Slot(was));
    var d := Cleared(c, upper, top);
    ClearedAt(p, Slot(now), Slot(was));
    ClearedAt(c, upper, top);
    StampedIs(d, now, top);
    assert SameHead(p, d);
  }

  lemma RepackedSlots(p: Bytes, r: Bytes, starts: seq<nat>, records: seq<Bytes>, order: seq<nat>, inverse: seq<nat>, a: nat, b: nat, t: seq<nat>)
    requires Listed(records, order) && Inverse(order, inverse) && |order| == |records| == |starts| && a <= b <= |records| && Laid(starts, records, order, a, b, t)
    requires |p| == |r| == PAGE && Slot(|records|) <= PAGE
    requires Settled(p, records, order, a, b, 0)
    requires forall x {:trigger r[x]} :: HEAD <= x < Slot(|t|) ==> r[x] == p[x]
    ensures Slots(r, t)
  {
    hide U16, Dest;
    forall o | 0 <= o < |t|
      ensures U16(r, Slot(o)) == t[o]
    {
      var m := Source(records, order, inverse, a, b, o);
      assert SettledAt(p, records, order, a, b, m);
      SameU16(r, p, Slot(o), Slot(o));
    }
  }

  lemma RepackedCells(p: Bytes, r: Bytes, starts: seq<nat>, records: seq<Bytes>, order: seq<nat>, inverse: seq<nat>, a: nat, b: nat, t: seq<nat>)
    requires Listed(records, order) && Inverse(order, inverse) && |order| == |records| == |starts| && a <= b <= |records| && Laid(starts, records, order, a, b, t)
    requires |p| == |r| == PAGE && Dest(records, order, a, b, 0) >= 0
    requires Slot(|records|) <= PAGE && Settled(p, records, order, a, b, 0)
    requires forall x {:trigger r[x]} :: Dest(records, order, a, b, 0) <= x < PAGE ==> r[x] == p[x]
    ensures Cells(r, t, Kept(records, a, b))
  {
    hide Dest;
    forall o | 0 <= o < |t|
      ensures Cell(r, t[o], Kept(records, a, b)[o])
    {
      var m := Source(records, order, inverse, a, b, o);
      assert SettledAt(p, records, order, a, b, m);
      DestRises(records, order, a, b, 0, m);
      CellStays(p, r, t[o], records[order[m]], Dest(records, order, a, b, 0));
    }
  }

  /** The packed page: exactly the records that stay, in their old order. */
  lemma RepackRepr(s: Bytes, p: Bytes, starts: seq<nat>, records: seq<Bytes>, upper: nat, order: seq<nat>, inverse: seq<nat>, a: nat, b: nat)
    requires Repr(s, starts, records, upper) && Chain(starts, records, upper, order) && Listed(records, order) && Inverse(order, inverse)
    requires a <= b <= |records| == |order| == |starts| && Repacking(s, p, starts, records, order, a, b, 0)
    requires upper <= Dest(records, order, a, b, 0) <= PAGE
    ensures |p| == PAGE && Slot(|records|) <= upper
    ensures
      var r := RepackBytes(p, |records|, |records| - (b - a), upper, Dest(records, order, a, b, 0));
      Holds(r, Kept(records, a, b)) && SameHead(s, r)
  {
    hide Dest, Chain, Apart, Full, Cells, RepackBytes, SettledAt, U16;
    var now, top := |records| - (b - a), Dest(records, order, a, b, 0);
    var t := seq(now, o requires 0 <= o < now => U16(p, Slot(o)));
    var r := RepackBytes(p, |records|, now, upper, top);
    LaidSlots(p, starts, records, order, a, b, t);
    RepackedAt(p, |records|, now, upper, top);
    AllThere(starts, records, upper);
    LaidApart(starts, records, upper, order, inverse, a, b, t);
    LaidFull(starts, records, order, a, b, t);
    RepackedSlots(p, r, starts, records, order, inverse, a, b, t);
    RepackedCells(p, r, starts, records, order, inverse, a, b, t);
    LowestIsUpper(starts, records, upper, order);
    FreeAgain(s, p, r, records, now, upper, top);
    ReprHolds(r, t, Kept(records, a, b), top);
  }

  lemma LaidSlots(p: Bytes, starts: seq<nat>, records: seq<Bytes>, order: seq<nat>, a: nat, b: nat, t: seq<nat>)
    requires Listed(records, order) && |order| == |records| == |starts| && a <= b <= |records| && |p| == PAGE && Slot(|records|) <= PAGE
    requires Settled(p, records, order, a, b, 0) && |t| == |records| - (b - a) && forall o {:trigger t[o]} :: 0 <= o < |t| ==> t[o] == U16(p, Slot(o))
    ensures Laid(starts, records, order, a, b, t)
  {
    hide Dest, U16, Cell;
  }

  /** Nothing is packed under the area. */
  lemma LowestIsUpper(starts: seq<nat>, records: seq<Bytes>, upper: nat, order: seq<nat>)
    requires Apart(starts, records, upper) && Listed(records, order) && |order| == |records|
    ensures Boundary(starts, order, 0) >= upper
  {
    if |order| > 0 {
      assert order[0] < |records|;
      assert starts[order[0]] >= upper;
    }
  }

  lemma AllThere(starts: seq<nat>, records: seq<Bytes>, upper: nat)
    requires Apart(starts, records, upper)
    ensures forall j {:trigger records[j]} :: 0 <= j < |records| ==> records[j] != []
  {
    forall j | 0 <= j < |records| ensures records[j] != [] { assert starts[j] >= upper; }
  }

  lemma FreeAgain(s: Bytes, p: Bytes, r: Bytes, records: seq<Bytes>, now: nat, upper: nat, top: nat)
    requires |s| == |p| == |r| == PAGE && now <= |records| && Slot(|records|) <= upper <= top <= PAGE && Zero(s, Slot(|records|), upper)
    requires forall x {:trigger p[x]} :: 0 <= x < HEAD || Slot(|records|) <= x < upper ==> p[x] == s[x]
    requires SameHead(p, r)
    requires forall x {:trigger r[x]} :: Slot(now) <= x < Slot(|records|) || upper <= x < top ==> r[x] == 0
    requires forall x {:trigger r[x]} :: Slot(|records|) <= x < upper || top <= x < PAGE ==> r[x] == p[x]
    ensures Zero(r, Slot(now), top) && SameHead(s, r)
  {
  }
}
