/**
 Geometry of the hierarchical bitmaps (v4/go/internal/bitmap/bitmap_page.go): 32000-bit
 leaves of 500 words under 256-way branches.
 */
module BitmapLayout {

  const LEAF_WORDS := 500
  const LEAF_BITS := 32000
  const FANOUT := 256
  const MAX_LEVEL := 3
  const ID_SPACE := 0x1_0000_0000

  // ----- positions in the conceptual complete tree

  /** The k-th node of a level: it covers bits [k * Coverage(level), (k + 1) * Coverage(level)). */
  datatype Pos = Pos(level: nat, k: nat)

  function Child(q: Pos, i: nat): Pos
    requires q.level > 0
  {
    Pos(q.level - 1, FANOUT * q.k + i)
  }

  function Parent(q: Pos): Pos {
    Pos(q.level + 1, q.k / FANOUT)
  }

  function Coverage(level: nat): (c: nat)
    ensures c > 0
  {
    if level == 0 then LEAF_BITS else FANOUT * Coverage(level - 1)
  }

  /** The first bit a position covers. */
  function Base(q: Pos): nat {
    q.k * Coverage(q.level)
  }

  /** Which node of a level holds a bit. */
  function Slot(bit: nat, level: nat): nat {
    if level == 0 then bit / LEAF_BITS else Slot(bit, level - 1) / FANOUT
  }

  function At(bit: nat, level: nat): Pos {
    Pos(level, Slot(bit, level))
  }

  lemma {:induction false} SlotInterval(bit: nat, level: nat, k: nat)
    ensures Slot(bit, level) == k <==> Base(Pos(level, k)) <= bit < Base(Pos(level, k)) + Coverage(level)
  {
    if level > 0 {
      var j := Slot(bit, level - 1);
      SlotInterval(bit, level - 1, j);
      Coarsen(bit, j, k, Coverage(level - 1));
    }
  }

  lemma Coarsen(bit: nat, j: nat, k: nat, c: nat)
    requires j * c <= bit < j * c + c
    ensures j / FANOUT == k <==> k * (FANOUT * c) <= bit < k * (FANOUT * c) + FANOUT * c
  {
    assert k * (FANOUT * c) == (FANOUT * k) * c;
    var d := j - FANOUT * k;
    assert j * c == (FANOUT * k) * c + d * c;
    if d < 0 {
      MulLe(d, -1, c);
    } else if d < FANOUT {
      MulLe(0, d, c);
      MulLe(d, FANOUT - 1, c);
    } else {
      MulLe(FANOUT, d, c);
    }
  }

  lemma MulLe(a: int, b: int, c: nat)
    requires a <= b
    ensures a * c <= b * c
  {
  }

  lemma InSpan(b: nat, q: Pos)
    ensures Slot(b, q.level) == q.k <==> q.k * Coverage(q.level) <= b < (q.k + 1) * Coverage(q.level)
  {
    SlotInterval(b, q.level, q.k);
    assert (q.k + 1) * Coverage(q.level) == q.k * Coverage(q.level) + Coverage(q.level);
  }

  lemma SlotIsQuotient(bit: nat, level: nat)
    ensures Slot(bit, level) == bit / Coverage(level)
  {
    var c := Coverage(level);
    var k := bit / c;
    assert bit == c * k + bit % c;
    SlotInterval(bit, level, k);
  }

  /** bitmap_page.go ChildIndex: the branch slot of a bit, computed by division. */
  function ChildIndex(bit: nat, level: nat): (i: nat)
    requires level > 0
    ensures i < FANOUT
    ensures i == Slot(bit, level - 1) % FANOUT
    ensures Child(At(bit, level), i) == At(bit, level - 1)
  {
    SlotIsQuotient(bit, level - 1);
    (bit / Coverage(level - 1)) % FANOUT
  }

  lemma ChildBase(q: Pos, i: nat)
    requires q.level > 0
    ensures Base(Child(q, i)) == Base(q) + Coverage(q.level - 1) * i
  {
    var c := Coverage(q.level - 1);
    assert (FANOUT * q.k + i) * c == q.k * (FANOUT * c) + c * i;
  }

  /** The smallest level covering the limit. */
  function RequiredLevelFrom(limit: nat, level: nat): (r: nat)
    requires level <= MAX_LEVEL && limit <= Coverage(MAX_LEVEL)
    ensures level <= r <= MAX_LEVEL
    ensures Coverage(r) >= limit
    ensures forall l :: level <= l < r ==> Coverage(l) < limit
    decreases MAX_LEVEL - level
  {
    if Coverage(level) >= limit then level else RequiredLevelFrom(limit, level + 1)
  }

  /** The bits under a page of each level: a leaf holds 32000, a branch 256 times as many as its children. */
  lemma CoverageIs()
    ensures Coverage(0) == 32_000 && Coverage(1) == 8_192_000 && Coverage(2) == 2_097_152_000 && Coverage(3) == 536_870_912_000
    ensures ID_SPACE == 4_294_967_296 && MAX_LEVEL == 3
  {
  }

  lemma MaxCoverage()
    ensures Coverage(MAX_LEVEL) >= ID_SPACE
  {
    CoverageIs();
  }

  function RequiredLevel(limit: nat): (r: nat)
    requires 0 < limit <= ID_SPACE
    ensures r <= MAX_LEVEL
    ensures Coverage(r) >= limit
    ensures forall l :: 0 <= l < r ==> Coverage(l) < limit
  {
    MaxCoverage();
    RequiredLevelFrom(limit, 0)
  }

  /** Siblings of the path child lie entirely below the highest ID, or at or above the new limit. */
  lemma SiblingSpan(g: nat, level: nat, i: nat)
    requires level > 0 && i < FANOUT
    ensures i < ChildIndex(g, level) ==> Base(Child(At(g, level), i)) + Coverage(level - 1) <= g
    ensures i > ChildIndex(g, level) ==> Base(Child(At(g, level), i)) >= g + 1
    ensures i == ChildIndex(g, level) ==> Base(Child(At(g, level), i)) <= g < Base(Child(At(g, level), i)) + Coverage(level - 1)
  {
    hide ChildIndex;
    var q := At(g, level);
    var j := ChildIndex(g, level);
    ChildBase(q, i);
    ChildBase(q, j);
    SlotInterval(g, level - 1, Child(q, j).k);
    SpanOrder(Base(q), Coverage(level - 1), i, j, g);
  }

  lemma SpanOrder(base: nat, c: nat, i: nat, j: nat, g: nat)
    requires base + c * j <= g < base + c * j + c
    ensures i < j ==> base + c * i + c <= g
    ensures i > j ==> base + c * i >= g + 1
  {
    if i < j { MulLe(i + 1, j, c); assert (i + 1) * c == c * i + c; }
    if i > j { MulLe(j + 1, i, c); assert (j + 1) * c == c * j + c; }
  }
}
