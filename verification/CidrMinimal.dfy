/**
 The printed CIDR list is the shortest: no list of CIDR blocks with the same addresses has
 fewer (src/ipset_print.c, split_range over the entries of an optimized ipset).
 */
module CidrMinimal {
  import opened Cidr
  import opened Ranges
  import opened IpSets

  // ----- aligned blocks nest

  lemma {:induction false} PowSum(a: nat, b: nat)
    ensures Pow2(a + b) == Pow2(a) * Pow2(b)
  {
    if a > 0 {
      PowSum(a - 1, b);
      assert Pow2(a + b) == 2 * (Pow2(a - 1) * Pow2(b));
    }
  }

  lemma SpanFactor(w: nat, p: nat, q: nat)
    requires p <= q <= w
    ensures Span(w, p) == Span(w, q) * Pow2(q - p)
  {
    PowSum(w - q, q - p);
  }

  /** Multiples of `s` are at least `s` apart. */
  lemma NextMultiple(x: nat, y: nat, s: nat)
    requires s >= 1 && x % s == 0 && y % s == 0
    ensures x < y ==> x + s <= y
  {
    var a, b := x / s, y / s;
    assert x == s * a && y == s * b;
    Steps(a, b, s);
    Steps(b, a, s);
  }

  lemma MultipleOfFactor(x: nat, s: nat, t: nat)
    requires s >= 1 && t >= 1 && s * t >= 1 && x % (s * t) == 0
    ensures x % s == 0
  {
    var q := x / (s * t);
    assert x == s * t * q == s * (t * q);
    Quotient(x, t * q, s);
  }

  lemma CoarserAligned(w: nat, addr: nat, p: nat, q: nat)
    requires p <= q <= w && addr % Span(w, p) == 0
    ensures addr % Span(w, q) == 0
  {
    SpanFactor(w, p, q);
    MultipleOfFactor(addr, Span(w, q), Pow2(q - p));
  }

  /** A block on both sides of the middle of an aligned block holds all of it. */
  lemma AcrossTheMiddle(w: nat, b: Block, addr: nat, prefix: nat)
    requires BlockOk(w, b) && Aligned(w, addr, prefix) && prefix < w
    requires b.addr < addr + Span(w, prefix + 1) <= End(w, b)
    ensures b.addr <= addr && addr + Span(w, prefix) - 1 <= End(w, b)
  {
    hide Pow2, SetBit, Broadcast;
    Halves(w, addr, prefix);
    var m := addr + Span(w, prefix + 1);
    if b.prefix > prefix {
      CoarserAligned(w, m, prefix + 1, b.prefix);
      NextMultiple(b.addr, m, Span(w, b.prefix));
    } else {
      CoarserAligned(w, b.addr, b.prefix, prefix);
      SpanFactor(w, b.prefix, prefix);
      var top := b.addr + Span(w, b.prefix);
      EndAligned(b.addr, Span(w, prefix), Pow2(prefix - b.prefix));
      NextMultiple(addr, b.addr, Span(w, prefix));
      NextMultiple(addr, top, Span(w, prefix));
    }
  }

  lemma EndAligned(x: nat, s: nat, t: nat)
    requires s >= 1 && x % s == 0
    ensures (x + s * t) % s == 0
  {
    var q := x / s;
    assert x + s * t == s * (q + t);
    Quotient(x + s * t, q + t, s);
  }

  // ----- counting the blocks of any list inside a range

  predicate Within(w: nat, b: Block, lo: nat, hi: nat) {
    b.prefix <= w && lo <= b.addr && End(w, b) <= hi
  }

  function NumIn(w: nat, bs: seq<Block>, lo: nat, hi: nat): nat {
    if bs == [] then 0
    else NumIn(w, bs[..|bs| - 1], lo, hi) + if Within(w, bs[|bs| - 1], lo, hi) then 1 else 0
  }

  lemma {:induction false} NumSplit(w: nat, bs: seq<Block>, lo: nat, m: nat, hi: nat)
    requires lo < m <= hi
    ensures NumIn(w, bs, lo, hi) >= NumIn(w, bs, lo, m - 1) + NumIn(w, bs, m, hi)
  {
    if bs != [] {
      NumSplit(w, bs[..|bs| - 1], lo, m, hi);
    }
  }

  lemma {:induction false} NumSome(w: nat, bs: seq<Block>, i: nat, lo: nat, hi: nat)
    requires i < |bs| && Within(w, bs[i], lo, hi)
    ensures NumIn(w, bs, lo, hi) >= 1
  {
    if i < |bs| - 1 {
      NumSome(w, bs[..|bs| - 1], i, lo, hi);
    }
  }

  predicate Serves(w: nat, bs: seq<Block>, i: nat, lo: nat, hi: nat, x: nat) {
    i < |bs| && BlockOk(w, bs[i]) && Within(w, bs[i], lo, hi) && bs[i].addr <= x <= End(w, bs[i])
  }

  /** Blocks of the list that lie inside the range hold all of it. */
  ghost predicate Covered(w: nat, bs: seq<Block>, lo: nat, hi: nat) {
    forall x: nat {:trigger Reached(w, bs, lo, hi, x)} :: lo <= x <= hi ==> Reached(w, bs, lo, hi, x)
  }

  ghost predicate Reached(w: nat, bs: seq<Block>, lo: nat, hi: nat, x: nat) {
    exists i: nat :: Serves(w, bs, i, lo, hi, x)
  }

  /** A cover of a range that is not the whole block covers each half by itself. */
  lemma CoverHalves(w: nat, bs: seq<Block>, addr: nat, prefix: nat, lo: nat, hi: nat)
    requires prefix < w && InBlock(w, addr, prefix, lo, hi) && !Whole(w, addr, prefix, lo, hi)
    requires lo < addr + Span(w, prefix + 1) <= hi && Covered(w, bs, lo, hi)
    ensures Covered(w, bs, lo, addr + Span(w, prefix + 1) - 1) && Covered(w, bs, addr + Span(w, prefix + 1), hi)
  {
    var m := addr + Span(w, prefix + 1);
    var low := m - 1;
    forall x: nat | lo <= x <= low
      ensures Reached(w, bs, lo, low, x)
    {
      assert Reached(w, bs, lo, hi, x);
      var i: nat :| Serves(w, bs, i, lo, hi, x);
      ServesHalf(w, bs, i, addr, prefix, lo, hi, x);
    }
    forall x: nat | m <= x <= hi
      ensures Reached(w, bs, m, hi, x)
    {
      assert Reached(w, bs, lo, hi, x);
      var i: nat :| Serves(w, bs, i, lo, hi, x);
      ServesHalf(w, bs, i, addr, prefix, lo, hi, x);
    }
  }

  lemma ServesHalf(w: nat, bs: seq<Block>, i: nat, addr: nat, prefix: nat, lo: nat, hi: nat, x: nat)
    requires prefix < w && InBlock(w, addr, prefix, lo, hi) && !Whole(w, addr, prefix, lo, hi)
    requires Serves(w, bs, i, lo, hi, x)
    ensures
      var m := addr + Span(w, prefix + 1);
      if x < m then Serves(w, bs, i, lo, m - 1, x) else Serves(w, bs, i, m, hi, x)
  {
    var m := addr + Span(w, prefix + 1);
    if bs[i].addr < m <= End(w, bs[i]) {
      AcrossTheMiddle(w, bs[i], addr, prefix);
    }
  }

  lemma {:induction false} SplitIsLeast(w: nat, bs: seq<Block>, addr: nat, prefix: nat, lo: nat, hi: nat, on: Enabled)
    requires AllOn(w, on) && InBlock(w, addr, prefix, lo, hi) && Covered(w, bs, lo, hi)
    ensures |Split(w, addr, prefix, lo, hi, on)| <= NumIn(w, bs, lo, hi)
    decreases w - prefix
  {
    hide Split, Pow2;
    SplitTurn(w, addr, prefix, lo, hi, on);
    if Whole(w, addr, prefix, lo, hi) || prefix == w {
      assert Reached(w, bs, lo, hi, lo);
      var i: nat :| Serves(w, bs, i, lo, hi, lo);
      NumSome(w, bs, i, lo, hi);
    } else {
      var upper := addr + Span(w, prefix + 1);
      if hi < upper {
        SplitIsLeast(w, bs, addr, prefix + 1, lo, hi, on);
      } else if lo >= upper {
        SplitIsLeast(w, bs, upper, prefix + 1, lo, hi, on);
      } else {
        CoverHalves(w, bs, addr, prefix, lo, hi);
        SplitIsLeast(w, bs, addr, prefix + 1, lo, upper - 1, on);
        SplitIsLeast(w, bs, upper, prefix + 1, upper, hi, on);
        NumSplit(w, bs, lo, upper, hi);
      }
    }
  }

  // ----- all entries of a set

  function Last(w: nat): nat {
    Pow2(w) - 1
  }

  /** Every block printed for a list of ranges, in order. */
  function SplitAll(w: nat, s: seq<Range>, on: Enabled): seq<Block>
    requires |on| == w + 1
  {
    if s == [] then []
    else SplitAll(w, s[..|s| - 1], on) + Split(w, 0, 0, s[|s| - 1].lo, s[|s| - 1].hi, on)
  }

  lemma EntryInBlock(w: nat, r: Range)
    requires RangeOk(r, Last(w))
    ensures InBlock(w, 0, 0, r.lo, r.hi)
  {
    assert 0 % Span(w, 0) == 0;
  }

  /** The list holds exactly the addresses of the ranges. */
  ghost predicate SameAddresses(w: nat, bs: seq<Block>, s: seq<Range>) {
    BlocksOk(w, bs) && forall x: nat :: Covers(w, bs, x) <==> Has(s, x)
  }

  lemma EntryCovered(w: nat, bs: seq<Block>, s: seq<Range>, k: nat)
    requires RangesOk(s, Last(w)) && Apart(s) && SameAddresses(w, bs, s) && k < |s|
    ensures Covered(w, bs, s[k].lo, s[k].hi)
  {
    forall x: nat | s[k].lo <= x <= s[k].hi
      ensures Reached(w, bs, s[k].lo, s[k].hi, x)
    {
      assert At(s, k, x);
      assert Covers(w, bs, x);
      var i: nat :| InSome(w, bs, i, x);
      StaysInside(w, bs, i, s, k, x);
      assert Serves(w, bs, i, s[k].lo, s[k].hi, x);
    }
  }

  /** A block cannot cross the hole at either end of a range. */
  lemma StaysInside(w: nat, bs: seq<Block>, i: nat, s: seq<Range>, k: nat, x: nat)
    requires RangesOk(s, Last(w)) && Apart(s) && SameAddresses(w, bs, s) && k < |s| && s[k].lo <= x <= s[k].hi
    requires InSome(w, bs, i, x)
    ensures Within(w, bs[i], s[k].lo, s[k].hi)
  {
    if s[k].lo > 0 {
      Hole(s, k, s[k].lo - 1, Last(w));
      Holds(w, bs, i, s[k].lo - 1);
    }
    Hole(s, k, s[k].hi + 1, Last(w));
    Holds(w, bs, i, s[k].hi + 1);
  }

  lemma Holds(w: nat, bs: seq<Block>, i: nat, y: nat)
    requires i < |bs| && bs[i].prefix <= w
    ensures bs[i].addr <= y <= End(w, bs[i]) ==> Covers(w, bs, y)
  {
    assert bs[i].addr <= y <= End(w, bs[i]) ==> InSome(w, bs, i, y);
  }

  lemma Hole(s: seq<Range>, k: nat, x: nat, max: nat)
    requires RangesOk(s, max) && Apart(s) && k < |s| && (x + 1 == s[k].lo || x == s[k].hi + 1)
    ensures !Has(s, x)
  {
    forall i: nat
      ensures !At(s, i, x)
    {
      assert i < k ==> s[i].hi + 1 < s[k].lo;
      assert k < i < |s| ==> s[k].hi + 1 < s[i].lo;
    }
  }

  lemma {:induction false} SplitAllIsLeast(w: nat, bs: seq<Block>, s: seq<Range>, n: nat, on: Enabled)
    requires AllOn(w, on) && RangesOk(s, Last(w)) && Apart(s) && SameAddresses(w, bs, s) && n <= |s|
    ensures |SplitAll(w, s[..n], on)| <= NumIn(w, bs, 0, if n == 0 then 0 else s[n - 1].hi)
    decreases n
  {
    hide Split, Covered, Apart, Pow2, SameAddresses;
    if n > 0 {
      assert s[..n][..n - 1] == s[..n - 1];
      SplitAllIsLeast(w, bs, s, n - 1, on);
      EntryInBlock(w, s[n - 1]);
      EntryCovered(w, bs, s, n - 1);
      SplitIsLeast(w, bs, 0, 0, s[n - 1].lo, s[n - 1].hi, on);
      if n > 1 {
        Before(s, n);
        NumWiden(w, bs, 0, s[n - 2].hi, s[n - 1].lo - 1);
        NumSplit(w, bs, 0, s[n - 1].lo, s[n - 1].hi);
      } else {
        assert s[..0] == [];
        NumNarrow(w, bs, s[0].lo, s[0].hi);
      }
    }
  }

  lemma Before(s: seq<Range>, n: nat)
    requires Apart(s) && 1 < n <= |s|
    ensures s[n - 2].hi + 1 < s[n - 1].lo
  {
  }

  lemma {:induction false} NumWiden(w: nat, bs: seq<Block>, lo: nat, hi: nat, further: nat)
    requires hi <= further
    ensures NumIn(w, bs, lo, hi) <= NumIn(w, bs, lo, further)
  {
    if bs != [] {
      NumWiden(w, bs[..|bs| - 1], lo, hi, further);
    }
  }

  lemma {:induction false} NumNarrow(w: nat, bs: seq<Block>, lo: nat, hi: nat)
    ensures NumIn(w, bs, lo, hi) <= NumIn(w, bs, 0, hi)
  {
    if bs != [] {
      NumNarrow(w, bs[..|bs| - 1], lo, hi);
    }
  }

  lemma {:induction false} NumAtMost(w: nat, bs: seq<Block>, lo: nat, hi: nat)
    ensures NumIn(w, bs, lo, hi) <= |bs|
  {
    if bs != [] {
      NumAtMost(w, bs[..|bs| - 1], lo, hi);
    }
  }

  /** No list of CIDR blocks that holds exactly the addresses of the set is shorter than the printed one. */
  lemma Shortest(w: nat, bs: seq<Block>, s: seq<Range>, on: Enabled)
    requires AllOn(w, on) && RangesOk(s, Last(w)) && SameAddresses(w, bs, s)
    ensures |SplitAll(w, Normal(s, Last(w)), on)| <= |bs|
  {
    hide Normal, SplitAll;
    var t := Normal(s, Last(w));
    NormalMeans(s, Last(w));
    assert SameAddresses(w, bs, t);
    SplitAllIsLeast(w, bs, t, |t|, on);
    assert t[..|t|] == t;
    NumAtMost(w, bs, 0, if t == [] then 0 else t[|t| - 1].hi);
  }
}
