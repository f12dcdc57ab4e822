/**
 Splitting a range into CIDR blocks (src/ipset_print.c, split_range; src/iprange.h,
 broadcast and set_bit), for any address width `w`.
 */
module Cidr {

  /** A CIDR block as in section 3.1 of RFC 4632: the 2^(w - prefix) addresses from `addr`. */
  datatype Block = Block(addr: nat, prefix: nat)

  function Pow2(n: nat): (r: nat)
    ensures r >= 1
  {
    if n == 0 then 1 else 2 * Pow2(n - 1)
  }

  /** The number of addresses under a prefix. */
  function Span(w: nat, prefix: nat): (r: nat)
    requires prefix <= w
    ensures r >= 1
  {
    Pow2(w - prefix)
  }

  /** The last address of the block of length `prefix` that `addr` is in. */
  function Broadcast(w: nat, addr: nat, prefix: nat): nat
    requires prefix <= w
  {
    addr - addr % Span(w, prefix) + (Span(w, prefix) - 1)
  }

  /** `addr` with bit `bit` set, bit 1 being the most significant. */
  function SetBit(w: nat, addr: nat, bit: nat): nat
    requires 1 <= bit <= w
  {
    if addr / Span(w, bit) % 2 == 1 then addr else addr + Span(w, bit)
  }

  /** Which prefix lengths may be printed. */
  type Enabled = seq<bool>

  /** The blocks split_range prints, in order; its refusals print nothing. */
  function Split(w: nat, addr: nat, prefix: nat, lo: nat, hi: nat, on: Enabled): seq<Block>
    requires |on| == w + 1
    decreases w + 1 - prefix, lo > hi
  {
    if lo > hi then Split(w, addr, prefix, hi, lo, on)
    else if prefix > w then []
    else
      var bc := Broadcast(w, addr, prefix);
      if lo < addr || hi > bc then []
      else if lo == addr && hi == bc && on[prefix] then [Block(addr, prefix)]
      else if prefix == w then []
      else
        var upper := SetBit(w, addr, prefix + 1);
        if hi < upper then Split(w, addr, prefix + 1, lo, hi, on)
        else if lo >= upper then Split(w, upper, prefix + 1, lo, hi, on)
        else
          Split(w, addr, prefix + 1, lo, Broadcast(w, addr, prefix + 1), on) + Split(w, upper, prefix + 1, upper, hi, on)
  }

  // ----- aligned blocks

  predicate Aligned(w: nat, addr: nat, prefix: nat) {
    prefix <= w && addr % Span(w, prefix) == 0
  }

  /** A call on a range inside an aligned block. */
  predicate InBlock(w: nat, addr: nat, prefix: nat, lo: nat, hi: nat) {
    Aligned(w, addr, prefix) && addr <= lo <= hi < addr + Span(w, prefix)
  }

  lemma BroadcastIs(w: nat, addr: nat, prefix: nat)
    requires Aligned(w, addr, prefix)
    ensures Broadcast(w, addr, prefix) == addr + Span(w, prefix) - 1
  {
  }

  lemma EvenHalves(addr: nat, half: nat)
    requires half >= 1 && addr % (2 * half) == 0
    ensures addr % half == 0 && (addr + half) % half == 0 && addr / half % 2 == 0
  {
    var q := addr / (2 * half);
    assert addr == half * (2 * q);
    Quotient(addr, 2 * q, half);
    assert addr + half == half * (2 * q + 1);
    Quotient(addr + half, 2 * q + 1, half);
  }

  lemma Quotient(x: nat, q: nat, s: nat)
    requires s >= 1 && x == s * q
    ensures x % s == 0 && x / s == q
  {
    var r, d := x % s, x / s;
    assert s * q == s * d + r;
    Steps(d, q, s);
    Steps(q, d, s);
  }

  lemma Steps(a: nat, b: nat, s: nat)
    ensures a < b ==> s * a + s <= s * b
  {
    if a < b {
      assert s * (a + 1) <= s * b;
    }
  }

  /** The two halves of an aligned block. */
  lemma Halves(w: nat, addr: nat, prefix: nat)
    requires Aligned(w, addr, prefix) && prefix < w
    ensures Span(w, prefix) == 2 * Span(w, prefix + 1)
    ensures SetBit(w, addr, prefix + 1) == addr + Span(w, prefix + 1)
    ensures Aligned(w, addr, prefix + 1) && Aligned(w, addr + Span(w, prefix + 1), prefix + 1)
    ensures Broadcast(w, addr, prefix + 1) == addr + Span(w, prefix + 1) - 1
    ensures Broadcast(w, addr, prefix) == addr + Span(w, prefix) - 1
  {
    EvenHalves(addr, Span(w, prefix + 1));
  }

  /** One turn of the recursion on an aligned block. */
  lemma SplitTurn(w: nat, addr: nat, prefix: nat, lo: nat, hi: nat, on: Enabled)
    requires |on| == w + 1 && InBlock(w, addr, prefix, lo, hi)
    ensures Split(w, addr, prefix, lo, hi, on) ==
      if Whole(w, addr, prefix, lo, hi) && on[prefix] then [Block(addr, prefix)]
      else if prefix == w then []
      else
        var upper := addr + Span(w, prefix + 1);
        if hi < upper then Split(w, addr, prefix + 1, lo, hi, on)
        else if lo >= upper then Split(w, upper, prefix + 1, lo, hi, on)
        else Split(w, addr, prefix + 1, lo, upper - 1, on) + Split(w, upper, prefix + 1, upper, hi, on)
    ensures prefix < w && Whole(w, addr, prefix, lo, hi) ==> lo < addr + Span(w, prefix + 1) <= hi
    ensures prefix < w ==>
      var upper := addr + Span(w, prefix + 1);
      && (hi < upper ==> InBlock(w, addr, prefix + 1, lo, hi))
      && (lo >= upper ==> InBlock(w, upper, prefix + 1, lo, hi))
      && (lo < upper <= hi ==> InBlock(w, addr, prefix + 1, lo, upper - 1) && InBlock(w, upper, prefix + 1, upper, hi))
  {
    BroadcastIs(w, addr, prefix);
    if prefix < w {
      Halves(w, addr, prefix);
    }
  }

  predicate Whole(w: nat, addr: nat, prefix: nat, lo: nat, hi: nat)
    requires prefix <= w
  {
    lo == addr && hi == addr + Span(w, prefix) - 1
  }

  // ----- the blocks tile the range

  function End(w: nat, b: Block): nat
    requires b.prefix <= w
  {
    b.addr + Span(w, b.prefix) - 1
  }

  predicate BlockOk(w: nat, b: Block) {
    Aligned(w, b.addr, b.prefix)
  }

  predicate BlocksOk(w: nat, bs: seq<Block>) {
    forall i {:trigger bs[i]} :: 0 <= i < |bs| ==> BlockOk(w, bs[i])
  }

  /** The blocks follow one another without a gap from `lo` to `hi`. */
  predicate Tiles(w: nat, bs: seq<Block>, lo: nat, hi: nat) {
    bs != [] && BlockOk(w, bs[0]) && bs[0].addr == lo &&
    if |bs| == 1 then End(w, bs[0]) == hi else End(w, bs[0]) < hi && Tiles(w, bs[1..], End(w, bs[0]) + 1, hi)
  }

  lemma {:induction false} TilesConcat(w: nat, a: seq<Block>, b: seq<Block>, lo: nat, m: nat, hi: nat)
    requires lo < m <= hi && Tiles(w, a, lo, m - 1) && Tiles(w, b, m, hi)
    ensures Tiles(w, a + b, lo, hi)
    decreases |a|
  {
    if |a| == 1 {
      assert (a + b)[1..] == b;
    } else {
      TilesConcat(w, a[1..], b, End(w, a[0]) + 1, m, hi);
      assert (a + b)[1..] == a[1..] + b;
    }
  }

  predicate InSome(w: nat, bs: seq<Block>, i: nat, x: nat) {
    i < |bs| && bs[i].prefix <= w && bs[i].addr <= x <= End(w, bs[i])
  }

  ghost predicate Covers(w: nat, bs: seq<Block>, x: nat) {
    exists i: nat :: InSome(w, bs, i, x)
  }

  /** A block of prefix p holds the 2^(w-p) addresses from its own on. */
  lemma CoversMeans(w: nat, bs: seq<Block>, x: nat)
    ensures Covers(w, bs, x) <==> exists i: nat :: i < |bs| && bs[i].prefix <= w && bs[i].addr <= x < bs[i].addr + Pow2(w - bs[i].prefix)
  {
    if Covers(w, bs, x) {
      var i: nat :| InSome(w, bs, i, x);
    }
    if i: nat :| i < |bs| && bs[i].prefix <= w && bs[i].addr <= x < bs[i].addr + Pow2(w - bs[i].prefix) {
      assert InSome(w, bs, i, x);
    }
  }

  /** Aligned, ascending and disjoint blocks that hold exactly the addresses from `lo` to `hi`. */
  lemma {:induction false} TilesMeaning(w: nat, bs: seq<Block>, lo: nat, hi: nat)
    requires Tiles(w, bs, lo, hi)
    ensures BlocksOk(w, bs) && lo <= hi
    ensures forall i, j {:trigger bs[i], bs[j]} :: 0 <= i < j < |bs| ==> End(w, bs[i]) < bs[j].addr
    ensures forall x: nat :: lo <= x <= hi <==> Covers(w, bs, x)
    decreases |bs|
  {
    if |bs| > 1 {
      TilesMeaning(w, bs[1..], End(w, bs[0]) + 1, hi);
      TailStarts(w, bs, hi);
    }
    forall x: nat
      ensures lo <= x <= hi <==> Covers(w, bs, x)
    {
      TilesHolds(w, bs, lo, hi, x);
    }
  }

  lemma TailStarts(w: nat, bs: seq<Block>, hi: nat)
    requires |bs| > 1 && bs[0].prefix <= w && Tiles(w, bs[1..], End(w, bs[0]) + 1, hi) && BlocksOk(w, bs[1..]) && BlockOk(w, bs[0])
    requires forall i, j {:trigger bs[1..][i], bs[1..][j]} :: 0 <= i < j < |bs[1..]| ==> End(w, bs[1..][i]) < bs[1..][j].addr
    ensures BlocksOk(w, bs)
    ensures forall i, j {:trigger bs[i], bs[j]} :: 0 <= i < j < |bs| ==> End(w, bs[i]) < bs[j].addr
  {
    forall i | 0 <= i < |bs| ensures BlockOk(w, bs[i]) { assert i > 0 ==> bs[i] == bs[1..][i - 1]; }
    forall i, j | 0 <= i < j < |bs|
      ensures End(w, bs[i]) < bs[j].addr
    {
      assert bs[j] == bs[1..][j - 1] && (i > 0 ==> bs[i] == bs[1..][i - 1]);
      if i == 0 && j > 1 {
        assert End(w, bs[1..][0]) < bs[1..][j - 1].addr;
      }
    }
  }

  lemma {:induction false} TilesHolds(w: nat, bs: seq<Block>, lo: nat, hi: nat, x: nat)
    requires Tiles(w, bs, lo, hi)
    ensures lo <= x <= hi <==> Covers(w, bs, x)
    decreases |bs|
  {
    if |bs| > 1 {
      TilesHolds(w, bs[1..], End(w, bs[0]) + 1, hi, x);
      if i: nat :| InSome(w, bs[1..], i, x) {
        assert InSome(w, bs, i + 1, x);
      }
      if i: nat :| InSome(w, bs, i, x) {
        assert i > 0 ==> InSome(w, bs[1..], i - 1, x);
      }
    }
    assert lo <= x <= End(w, bs[0]) ==> InSome(w, bs, 0, x);
  }

  /** No part of the range is left below the last prefix length. */
  predicate Complete(w: nat, addr: nat, prefix: nat, lo: nat, hi: nat, on: Enabled)
    requires |on| == w + 1 && InBlock(w, addr, prefix, lo, hi)
    decreases w - prefix
  {
    if Whole(w, addr, prefix, lo, hi) && on[prefix] then true
    else if prefix == w then false
    else
      Halves(w, addr, prefix);
      var upper := addr + Span(w, prefix + 1);
      if hi < upper then Complete(w, addr, prefix + 1, lo, hi, on)
      else if lo >= upper then Complete(w, upper, prefix + 1, lo, hi, on)
      else Complete(w, addr, prefix + 1, lo, upper - 1, on) && Complete(w, upper, prefix + 1, upper, hi, on)
  }

  lemma CompleteTurn(w: nat, addr: nat, prefix: nat, lo: nat, hi: nat, on: Enabled)
    requires |on| == w + 1 && InBlock(w, addr, prefix, lo, hi)
    ensures prefix < w ==>
      var upper := addr + Span(w, prefix + 1);
      && (hi < upper ==> InBlock(w, addr, prefix + 1, lo, hi))
      && (lo >= upper ==> InBlock(w, upper, prefix + 1, lo, hi))
      && (lo < upper <= hi ==> InBlock(w, addr, prefix + 1, lo, upper - 1) && InBlock(w, upper, prefix + 1, upper, hi))
    ensures Complete(w, addr, prefix, lo, hi, on) <==>
      if Whole(w, addr, prefix, lo, hi) && on[prefix] then true
      else if prefix == w then false
      else
        var upper := addr + Span(w, prefix + 1);
        if hi < upper then Complete(w, addr, prefix + 1, lo, hi, on)
        else if lo >= upper then Complete(w, upper, prefix + 1, lo, hi, on)
        else Complete(w, addr, prefix + 1, lo, upper - 1, on) && Complete(w, upper, prefix + 1, upper, hi, on)
  {
    if prefix < w {
      Halves(w, addr, prefix);
    }
  }

  lemma {:induction false} LastEnabled(w: nat, addr: nat, prefix: nat, lo: nat, hi: nat, on: Enabled)
    requires |on| == w + 1 && InBlock(w, addr, prefix, lo, hi) && on[w]
    ensures Complete(w, addr, prefix, lo, hi, on)
    decreases w - prefix
  {
    if prefix < w && !(Whole(w, addr, prefix, lo, hi) && on[prefix]) {
      Halves(w, addr, prefix);
      var upper := addr + Span(w, prefix + 1);
      if hi < upper {
        LastEnabled(w, addr, prefix + 1, lo, hi, on);
      } else if lo >= upper {
        LastEnabled(w, upper, prefix + 1, lo, hi, on);
      } else {
        LastEnabled(w, addr, prefix + 1, lo, upper - 1, on);
        LastEnabled(w, upper, prefix + 1, upper, hi, on);
      }
    }
  }

  predicate UsesOnly(bs: seq<Block>, on: Enabled, from: nat) {
    forall i {:trigger bs[i]} :: 0 <= i < |bs| ==> from <= bs[i].prefix < |on| && on[bs[i].prefix]
  }

  /** The printed blocks tile the range and use only enabled prefix lengths. */
  lemma {:induction false} SplitTiles(w: nat, addr: nat, prefix: nat, lo: nat, hi: nat, on: Enabled)
    requires |on| == w + 1 && InBlock(w, addr, prefix, lo, hi) && Complete(w, addr, prefix, lo, hi, on)
    ensures Tiles(w, Split(w, addr, prefix, lo, hi, on), lo, hi) && UsesOnly(Split(w, addr, prefix, lo, hi, on), on, prefix)
    decreases w - prefix
  {
    hide Split, Complete, Pow2;
    SplitTurn(w, addr, prefix, lo, hi, on);
    CompleteTurn(w, addr, prefix, lo, hi, on);
    if !(Whole(w, addr, prefix, lo, hi) && on[prefix]) {
      var upper := addr + Span(w, prefix + 1);
      if hi < upper {
        SplitTiles(w, addr, prefix + 1, lo, hi, on);
      } else if lo >= upper {
        SplitTiles(w, upper, prefix + 1, lo, hi, on);
      } else {
        SplitTiles(w, addr, prefix + 1, lo, upper - 1, on);
        SplitTiles(w, upper, prefix + 1, upper, hi, on);
        TilesConcat(w, Split(w, addr, prefix + 1, lo, upper - 1, on), Split(w, upper, prefix + 1, upper, hi, on), lo, upper, hi);
      }
    }
  }

  // ----- how many blocks

  predicate AllOn(w: nat, on: Enabled) {
    |on| == w + 1 && forall i {:trigger on[i]} :: 0 <= i <= w ==> on[i]
  }

  function AtLeastOne(n: int): nat {
    if n < 1 then 1 else n
  }

  /** A range that shares an end with its block needs no more blocks than there are levels. */
  lemma {:induction false} OneSided(w: nat, addr: nat, prefix: nat, lo: nat, hi: nat, on: Enabled)
    requires AllOn(w, on) && InBlock(w, addr, prefix, lo, hi)
    requires lo == addr || hi == addr + Span(w, prefix) - 1
    ensures |Split(w, addr, prefix, lo, hi, on)| <= AtLeastOne(w - prefix)
    decreases w - prefix
  {
    hide Split;
    SplitTurn(w, addr, prefix, lo, hi, on);
    if !Whole(w, addr, prefix, lo, hi) {
      Halves(w, addr, prefix);
      var upper := addr + Span(w, prefix + 1);
      if hi < upper {
        OneSided(w, addr, prefix + 1, lo, hi, on);
      } else if lo >= upper {
        OneSided(w, upper, prefix + 1, lo, hi, on);
      } else {
        OneSided(w, addr, prefix + 1, lo, upper - 1, on);
        OneSided(w, upper, prefix + 1, upper, hi, on);
        SplitTurn(w, addr, prefix + 1, lo, upper - 1, on);
        SplitTurn(w, upper, prefix + 1, upper, hi, on);
        LowestLevel(w, addr, prefix, lo, hi);
      }
    }
  }

  lemma LowestLevel(w: nat, addr: nat, prefix: nat, lo: nat, hi: nat)
    requires prefix < w && InBlock(w, addr, prefix, lo, hi) && lo < addr + Span(w, prefix + 1) <= hi
    ensures prefix + 1 == w ==> Whole(w, addr, prefix, lo, hi)
  {
    Halves(w, addr, prefix);
  }

  /** One range never needs more than 2w - 2 blocks (62 for 32-bit addresses). */
  lemma {:induction false} BlockBound(w: nat, addr: nat, prefix: nat, lo: nat, hi: nat, on: Enabled)
    requires AllOn(w, on) && InBlock(w, addr, prefix, lo, hi)
    ensures |Split(w, addr, prefix, lo, hi, on)| <= AtLeastOne(2 * (w - prefix) - 2)
    decreases w - prefix
  {
    hide Split;
    SplitTurn(w, addr, prefix, lo, hi, on);
    if !Whole(w, addr, prefix, lo, hi) {
      Halves(w, addr, prefix);
      var upper := addr + Span(w, prefix + 1);
      if hi < upper {
        BlockBound(w, addr, prefix + 1, lo, hi, on);
      } else if lo >= upper {
        BlockBound(w, upper, prefix + 1, lo, hi, on);
      } else {
        OneSided(w, addr, prefix + 1, lo, upper - 1, on);
        OneSided(w, upper, prefix + 1, upper, hi, on);
        LowestLevel(w, addr, prefix, lo, hi);
      }
    }
  }

  lemma {:induction false} AllButFirst(w: nat, addr: nat, prefix: nat, on: Enabled)
    requires AllOn(w, on) && Aligned(w, addr, prefix) && prefix < w
    ensures InBlock(w, addr, prefix, addr + 1, addr + Span(w, prefix) - 1)
    ensures |Split(w, addr, prefix, addr + 1, addr + Span(w, prefix) - 1, on)| == w - prefix
    decreases w - prefix
  {
    hide Split;
    Halves(w, addr, prefix);
    var hi, upper := addr + Span(w, prefix) - 1, addr + Span(w, prefix + 1);
    SplitTurn(w, addr, prefix, addr + 1, hi, on);
    SplitTurn(w, upper, prefix + 1, upper, hi, on);
    if prefix + 1 < w {
      Halves(w, addr, prefix + 1);
      AllButFirst(w, addr, prefix + 1, on);
    }
  }

  lemma {:induction false} AllButLast(w: nat, addr: nat, prefix: nat, on: Enabled)
    requires AllOn(w, on) && Aligned(w, addr, prefix) && prefix < w
    ensures InBlock(w, addr, prefix, addr, addr + Span(w, prefix) - 2)
    ensures |Split(w, addr, prefix, addr, addr + Span(w, prefix) - 2, on)| == w - prefix
    decreases w - prefix
  {
    hide Split;
    Halves(w, addr, prefix);
    var hi, upper := addr + Span(w, prefix) - 2, addr + Span(w, prefix + 1);
    SplitTurn(w, addr, prefix, addr, hi, on);
    SplitTurn(w, addr, prefix + 1, addr, upper - 1, on);
    if prefix + 1 < w {
      Halves(w, upper, prefix + 1);
      AllButLast(w, upper, prefix + 1, on);
    }
  }

  /** The bound is reached by the range that leaves out only the first and the last address. */
  lemma WorstCase(w: nat, on: Enabled)
    requires w >= 2 && AllOn(w, on)
    ensures InBlock(w, 0, 0, 1, Pow2(w) - 2) && |Split(w, 0, 0, 1, Pow2(w) - 2, on)| == 2 * w - 2
  {
    hide Split, Pow2, Broadcast, SetBit;
    Halves(w, 0, 0);
    Halves(w, 0, 1);
    AllButFirst(w, 0, 1, on);
    AllButLast(w, Span(w, 1), 1, on);
    SplitTurn(w, 0, 0, 1, Span(w, 0) - 2, on);
  }

  // ----- how deep and how often the splitter calls itself

  /** Calls made for one range, this one included, and the deepest nesting under this one. */
  function Calls(w: nat, addr: nat, prefix: nat, lo: nat, hi: nat, on: Enabled): (r: (nat, nat))
    requires |on| == w + 1 && on[w] && InBlock(w, addr, prefix, lo, hi)
    decreases w - prefix
  {
    if Whole(w, addr, prefix, lo, hi) && on[prefix] then (1, 0)
    else
      Halves(w, addr, prefix);
      var upper := addr + Span(w, prefix + 1);
      if hi < upper then
        var c := Calls(w, addr, prefix + 1, lo, hi, on);
        (c.0 + 1, c.1 + 1)
      else if lo >= upper then
        var c := Calls(w, upper, prefix + 1, lo, hi, on);
        (c.0 + 1, c.1 + 1)
      else
        var c, d := Calls(w, addr, prefix + 1, lo, upper - 1, on), Calls(w, upper, prefix + 1, upper, hi, on);
        (c.0 + d.0 + 1, (if c.1 > d.1 then c.1 else d.1) + 1)
  }

  lemma SingleAddress(w: nat, addr: nat, prefix: nat, lo: nat, hi: nat)
    requires InBlock(w, addr, prefix, lo, hi)
    ensures prefix == w ==> Whole(w, addr, prefix, lo, hi)
  {
  }

  /** The nesting never exceeds the number of bits left. */
  lemma {:induction false} DepthBound(w: nat, addr: nat, prefix: nat, lo: nat, hi: nat, on: Enabled)
    requires |on| == w + 1 && on[w] && InBlock(w, addr, prefix, lo, hi)
    ensures Calls(w, addr, prefix, lo, hi, on).1 <= w - prefix
    decreases w - prefix
  {
    hide Pow2, SetBit, Broadcast;
    SingleAddress(w, addr, prefix, lo, hi);
    if !(Whole(w, addr, prefix, lo, hi) && on[prefix]) {
      Halves(w, addr, prefix);
      var upper := addr + Span(w, prefix + 1);
      if hi < upper {
        DepthBound(w, addr, prefix + 1, lo, hi, on);
      } else if lo >= upper {
        DepthBound(w, upper, prefix + 1, lo, hi, on);
      } else {
        DepthBound(w, addr, prefix + 1, lo, upper - 1, on);
        DepthBound(w, upper, prefix + 1, upper, hi, on);
      }
    }
  }

  lemma {:induction false} OneSidedCalls(w: nat, addr: nat, prefix: nat, lo: nat, hi: nat, on: Enabled)
    requires AllOn(w, on) && InBlock(w, addr, prefix, lo, hi)
    requires lo == addr || hi == addr + Span(w, prefix) - 1
    ensures Calls(w, addr, prefix, lo, hi, on).0 <= AtLeastOne(2 * (w - prefix))
    ensures Whole(w, addr, prefix, lo, hi) ==> Calls(w, addr, prefix, lo, hi, on).0 == 1
    decreases w - prefix
  {
    hide Pow2, SetBit, Broadcast;
    SingleAddress(w, addr, prefix, lo, hi);
    if !Whole(w, addr, prefix, lo, hi) {
      Halves(w, addr, prefix);
      var upper := addr + Span(w, prefix + 1);
      if hi < upper {
        OneSidedCalls(w, addr, prefix + 1, lo, hi, on);
      } else if lo >= upper {
        OneSidedCalls(w, upper, prefix + 1, lo, hi, on);
      } else {
        OneSidedCalls(w, addr, prefix + 1, lo, upper - 1, on);
        OneSidedCalls(w, upper, prefix + 1, upper, hi, on);
        LowestLevel(w, addr, prefix, lo, hi);
      }
    }
  }

  /** Splitting one range takes at most 4w - 3 calls (125 for 32-bit addresses). */
  lemma {:induction false} CallBound(w: nat, addr: nat, prefix: nat, lo: nat, hi: nat, on: Enabled)
    requires AllOn(w, on) && InBlock(w, addr, prefix, lo, hi)
    ensures Calls(w, addr, prefix, lo, hi, on).0 <= if w - prefix < 2 then w - prefix + 1 else 4 * (w - prefix) - 3
    decreases w - prefix
  {
    hide Pow2, SetBit, Broadcast;
    SingleAddress(w, addr, prefix, lo, hi);
    if !Whole(w, addr, prefix, lo, hi) {
      Halves(w, addr, prefix);
      var upper := addr + Span(w, prefix + 1);
      if hi < upper {
        CallBound(w, addr, prefix + 1, lo, hi, on);
      } else if lo >= upper {
        CallBound(w, upper, prefix + 1, lo, hi, on);
      } else {
        OneSidedCalls(w, addr, prefix + 1, lo, upper - 1, on);
        OneSidedCalls(w, upper, prefix + 1, upper, hi, on);
        LowestLevel(w, addr, prefix, lo, hi);
      }
    }
  }
}
