/** Printing a range set as CIDR blocks (src/ipset_print.c, the PRINT_CIDR loop). */
module CidrPrint {
  import opened Cidr
  import opened CidrMinimal
  import opened Ranges

  /** Every entry can be printed down to its last address. */
  predicate CompleteAll(w: nat, s: seq<Range>, on: Enabled)
    requires |on| == w + 1
  {
    forall i {:trigger s[i]} :: 0 <= i < |s| ==> InBlock(w, 0, 0, s[i].lo, s[i].hi) && Complete(w, 0, 0, s[i].lo, s[i].hi, on)
  }

  lemma AllComplete(w: nat, s: seq<Range>, on: Enabled)
    requires |on| == w + 1 && on[w] && RangesOk(s, Last(w))
    ensures CompleteAll(w, s, on)
  {
    forall i | 0 <= i < |s|
      ensures InBlock(w, 0, 0, s[i].lo, s[i].hi) && Complete(w, 0, 0, s[i].lo, s[i].hi, on)
    {
      EntryInBlock(w, s[i]);
      LastEnabled(w, 0, 0, s[i].lo, s[i].hi, on);
    }
  }

  predicate Ascends(w: nat, bs: seq<Block>)
    requires BlocksOk(w, bs)
  {
    forall i, j {:trigger bs[i], bs[j]} :: 0 <= i < j < |bs| ==> End(w, bs[i]) < bs[j].addr
  }

  lemma CoversConcat(w: nat, a: seq<Block>, b: seq<Block>, x: nat)
    ensures Covers(w, a + b, x) <==> Covers(w, a, x) || Covers(w, b, x)
  {
    if i: nat :| InSome(w, a + b, i, x) {
      assert i < |a| ==> InSome(w, a, i, x);
      assert i >= |a| ==> InSome(w, b, i - |a|, x);
    }
    if i: nat :| InSome(w, a, i, x) {
      assert InSome(w, a + b, i, x);
    }
    if i: nat :| InSome(w, b, i, x) {
      assert InSome(w, a + b, i + |a|, x);
    }
  }

  /** Blocks that hold only addresses up to `top`, then blocks from beyond it. */
  lemma AscendsConcat(w: nat, a: seq<Block>, b: seq<Block>, top: int)
    requires BlocksOk(w, a) && BlocksOk(w, b) && Ascends(w, a) && Ascends(w, b)
    requires forall i {:trigger a[i]} :: 0 <= i < |a| ==> End(w, a[i]) <= top
    requires forall i {:trigger b[i]} :: 0 <= i < |b| ==> top < b[i].addr
    ensures BlocksOk(w, a + b) && Ascends(w, a + b)
  {
    assert BlocksOk(w, a + b);
  }

  predicate Under(w: nat, bs: seq<Block>, top: int) {
    forall i {:trigger bs[i]} :: 0 <= i < |bs| ==> bs[i].prefix <= w && End(w, bs[i]) <= top
  }

  lemma TilesUnder(w: nat, bs: seq<Block>, lo: nat, hi: nat)
    requires Tiles(w, bs, lo, hi)
    ensures BlocksOk(w, bs) && Ascends(w, bs) && Under(w, bs, hi)
    ensures forall i {:trigger bs[i]} :: 0 <= i < |bs| ==> lo <= bs[i].addr
  {
    TilesMeaning(w, bs, lo, hi);
    forall i | 0 <= i < |bs|
      ensures lo <= bs[i].addr && End(w, bs[i]) <= hi
    {
      Inside(w, bs, i, bs[i].addr);
      Inside(w, bs, i, End(w, bs[i]));
    }
  }

  lemma Inside(w: nat, bs: seq<Block>, i: nat, x: nat)
    requires i < |bs| && BlocksOk(w, bs) && bs[i].addr <= x <= End(w, bs[i])
    ensures Covers(w, bs, x)
  {
    assert InSome(w, bs, i, x);
  }

  /** The printed list: aligned, ascending, disjoint, and holding exactly the addresses of the set. */
  lemma {:induction false} PrintedExactly(w: nat, s: seq<Range>, on: Enabled)
    requires |on| == w + 1 && CompleteAll(w, s, on) && Sorted(s)
    ensures BlocksOk(w, SplitAll(w, s, on)) && Ascends(w, SplitAll(w, s, on))
    ensures Under(w, SplitAll(w, s, on), if s == [] then -1 else s[|s| - 1].hi)
    ensures SameAddresses(w, SplitAll(w, s, on), s)
    decreases |s|
  {
    hide Split, Complete;
    if s == [] {
      Nothing(w);
    } else {
      var n := |s| - 1;
      PrintedExactly(w, s[..n], on);
      SplitTiles(w, 0, 0, s[n].lo, s[n].hi, on);
      PrintedMore(w, SplitAll(w, s[..n], on), Split(w, 0, 0, s[n].lo, s[n].hi, on), s);
    }
  }

  lemma Nothing(w: nat)
    ensures SameAddresses(w, [], [])
  {
  }

  lemma PrintedMore(w: nat, a: seq<Block>, b: seq<Block>, s: seq<Range>)
    requires s != [] && Sorted(s) && Tiles(w, b, s[|s| - 1].lo, s[|s| - 1].hi) && s[|s| - 1].lo <= s[|s| - 1].hi
    requires SameAddresses(w, a, s[..|s| - 1]) && Ascends(w, a)
    requires Under(w, a, if |s| == 1 then -1 else s[|s| - 2].hi)
    ensures SameAddresses(w, a + b, s) && Ascends(w, a + b) && Under(w, a + b, s[|s| - 1].hi)
  {
    var n := |s| - 1;
    var r := s[n];
    TilesMeaning(w, b, r.lo, r.hi);
    TilesUnder(w, b, r.lo, r.hi);
    AscendsConcat(w, a, b, if n == 0 then -1 else s[n - 1].hi);
    assert s == s[..n] + [r];
    forall x: nat
      ensures Covers(w, a + b, x) <==> Has(s, x)
    {
      CoversConcat(w, a, b, x);
      HasAppend(s[..n], r, x);
    }
  }

  /** The print loop: every block in order, and how many there were. */
  method Print(w: nat, s: seq<Range>, on: Enabled) returns (printed: seq<Block>, total: nat)
    requires |on| == w + 1
    ensures printed == SplitAll(w, s, on) && total == |printed|
  {
    hide Split;
    printed, total := [], 0;
    for i := 0 to |s|
      invariant printed == SplitAll(w, s[..i], on) && total == |printed|
    {
      assert s[..i + 1][..i] == s[..i];
      var blocks := Split(w, 0, 0, s[i].lo, s[i].hi, on);
      printed, total := printed + blocks, total + |blocks|;
    }
    assert s[..|s|] == s;
  }
}
