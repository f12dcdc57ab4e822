/**
 The greedy prefix reduction (src/ipset_reduce.c): prefix lengths are disabled one by one
 while the predicted number of printed blocks stays acceptable.
 */
module CidrReduce {
  import opened Cidr
  import opened CidrMinimal
  import opened CidrPrint
  import opened Ranges
  import opened IpSets

  // ----- counting blocks by prefix length

  function CountOf(bs: seq<Block>, p: nat): nat {
    if bs == [] then 0 else CountOf(bs[..|bs| - 1], p) + if bs[|bs| - 1].prefix == p then 1 else 0
  }

  lemma {:induction false} CountConcat(a: seq<Block>, b: seq<Block>, p: nat)
    ensures CountOf(a + b, p) == CountOf(a, p) + CountOf(b, p)
  {
    if b == [] {
      assert a + b == a;
    } else {
      CountConcat(a, b[..|b| - 1], p);
      assert (a + b)[..|a + b| - 1] == a + b[..|b| - 1];
    }
  }

  lemma CountOne(b: Block, p: nat)
    ensures CountOf([b], p) == if b.prefix == p then 1 else 0
  {
    assert [b][..0] == [];
  }

  /** What the reduction predicts when `p` is merged into `q`. */
  function Predicted(bs: seq<Block>, p: nat, q: nat, r: nat): nat
    requires p < q
  {
    if r == p then 0
    else if r == q then CountOf(bs, q) + CountOf(bs, p) * Pow2(q - p)
    else CountOf(bs, r)
  }

  lemma PredictedConcat(a: seq<Block>, b: seq<Block>, p: nat, q: nat, r: nat)
    requires p < q
    ensures Predicted(a + b, p, q, r) == Predicted(a, p, q, r) + Predicted(b, p, q, r)
  {
    CountConcat(a, b, p);
    CountConcat(a, b, r);
    var m := Pow2(q - p);
    assert (CountOf(a, p) + CountOf(b, p)) * m == CountOf(a, p) * m + CountOf(b, p) * m;
  }

  // ----- disabling one prefix length

  /** `q` is the next enabled length after `p`. */
  predicate NextOn(on: Enabled, p: nat, q: nat) {
    p < q < |on| && on[q] && forall r :: p < r < q ==> !on[r]
  }

  /** A whole block is printed entirely at the next enabled length. */
  lemma {:induction false} WholeSplit(w: nat, addr: nat, prefix: nat, on: Enabled, q: nat, r: nat)
    requires |on| == w + 1 && Aligned(w, addr, prefix) && prefix <= q <= w && on[q]
    requires forall t {:trigger on[t]} :: prefix <= t < q ==> !on[t]
    ensures InBlock(w, addr, prefix, addr, addr + Span(w, prefix) - 1)
    ensures Complete(w, addr, prefix, addr, addr + Span(w, prefix) - 1, on)
    ensures CountOf(Split(w, addr, prefix, addr, addr + Span(w, prefix) - 1, on), r) == if r == q then Pow2(q - prefix) else 0
    decreases q - prefix
  {
    hide Split, SetBit, Broadcast;
    var hi := addr + Span(w, prefix) - 1;
    SplitTurn(w, addr, prefix, addr, hi, on);
    if prefix == q {
      CountOne(Block(addr, prefix), r);
    } else {
      Halves(w, addr, prefix);
      var upper := addr + Span(w, prefix + 1);
      WholeSplit(w, addr, prefix + 1, on, q, r);
      WholeSplit(w, upper, prefix + 1, on, q, r);
      CountConcat(Split(w, addr, prefix + 1, addr, upper - 1, on), Split(w, upper, prefix + 1, upper, hi, on), r);
    }
  }

  /** Merging a length into the next enabled one multiplies its blocks and moves no other. */
  lemma {:induction false} DisableOne(w: nat, addr: nat, prefix: nat, lo: nat, hi: nat, on: Enabled, p: nat, q: nat, r: nat)
    requires |on| == w + 1 && InBlock(w, addr, prefix, lo, hi) && Complete(w, addr, prefix, lo, hi, on)
    requires NextOn(on, p, q)
    ensures Complete(w, addr, prefix, lo, hi, on[p := false])
    ensures CountOf(Split(w, addr, prefix, lo, hi, on[p := false]), r) == Predicted(Split(w, addr, prefix, lo, hi, on), p, q, r)
    decreases w - prefix
  {
    hide Split, Complete, Pow2, CountOf, Predicted, NextOn;
    Next(on, p, q);
    var off := on[p := false];
    SplitTurn(w, addr, prefix, lo, hi, on);
    SplitTurn(w, addr, prefix, lo, hi, off);
    CompleteTurn(w, addr, prefix, lo, hi, on);
    CompleteTurn(w, addr, prefix, lo, hi, off);
    if Whole(w, addr, prefix, lo, hi) && on[prefix] {
      DisableBlock(w, addr, prefix, on, p, q, r);
    } else {
      var upper := addr + Span(w, prefix + 1);
      if hi < upper {
        DisableOne(w, addr, prefix + 1, lo, hi, on, p, q, r);
      } else if lo >= upper {
        DisableOne(w, upper, prefix + 1, lo, hi, on, p, q, r);
      } else {
        DisableOne(w, addr, prefix + 1, lo, upper - 1, on, p, q, r);
        DisableOne(w, upper, prefix + 1, upper, hi, on, p, q, r);
        CountConcat(Split(w, addr, prefix + 1, lo, upper - 1, off), Split(w, upper, prefix + 1, upper, hi, off), r);
        PredictedConcat(Split(w, addr, prefix + 1, lo, upper - 1, on), Split(w, upper, prefix + 1, upper, hi, on), p, q, r);
      }
    }
  }

  lemma DisableBlock(w: nat, addr: nat, prefix: nat, on: Enabled, p: nat, q: nat, r: nat)
    requires |on| == w + 1 && Aligned(w, addr, prefix) && on[prefix] && NextOn(on, p, q)
    ensures InBlock(w, addr, prefix, addr, addr + Span(w, prefix) - 1)
    ensures Complete(w, addr, prefix, addr, addr + Span(w, prefix) - 1, on[p := false])
    ensures CountOf(Split(w, addr, prefix, addr, addr + Span(w, prefix) - 1, on[p := false]), r) == Predicted([Block(addr, prefix)], p, q, r)
  {
    hide Split, SetBit, Broadcast;
    var off := on[p := false];
    CountOne(Block(addr, prefix), p);
    CountOne(Block(addr, prefix), r);
    if prefix == p {
      WholeSplit(w, addr, p, off, q, r);
      CountOne(Block(addr, prefix), q);
      assert 1 * Pow2(q - p) == Pow2(q - p);
    } else {
      SplitTurn(w, addr, prefix, addr, addr + Span(w, prefix) - 1, off);
      assert 0 * Pow2(q - p) == 0;
    }
  }

  /** Disabling a length that is not printed changes nothing. */
  lemma {:induction false} DisableUnused(w: nat, addr: nat, prefix: nat, lo: nat, hi: nat, on: Enabled, p: nat)
    requires |on| == w + 1 && InBlock(w, addr, prefix, lo, hi) && Complete(w, addr, prefix, lo, hi, on)
    requires p <= w && CountOf(Split(w, addr, prefix, lo, hi, on), p) == 0
    ensures Complete(w, addr, prefix, lo, hi, on[p := false])
    ensures Split(w, addr, prefix, lo, hi, on[p := false]) == Split(w, addr, prefix, lo, hi, on)
    decreases w - prefix
  {
    hide Split, Complete, Pow2, CountOf;
    SplitTurn(w, addr, prefix, lo, hi, on);
    SplitTurn(w, addr, prefix, lo, hi, on[p := false]);
    CompleteTurn(w, addr, prefix, lo, hi, on);
    CompleteTurn(w, addr, prefix, lo, hi, on[p := false]);
    if Whole(w, addr, prefix, lo, hi) && on[prefix] {
      CountOne(Block(addr, prefix), p);
    } else {
      var upper := addr + Span(w, prefix + 1);
      if hi < upper {
        DisableUnused(w, addr, prefix + 1, lo, hi, on, p);
      } else if lo >= upper {
        DisableUnused(w, upper, prefix + 1, lo, hi, on, p);
      } else {
        CountConcat(Split(w, addr, prefix + 1, lo, upper - 1, on), Split(w, upper, prefix + 1, upper, hi, on), p);
        DisableUnused(w, addr, prefix + 1, lo, upper - 1, on, p);
        DisableUnused(w, upper, prefix + 1, upper, hi, on, p);
      }
    }
  }

  // ----- over the whole set

  lemma {:induction false} DisableAll(w: nat, s: seq<Range>, on: Enabled, p: nat, q: nat, r: nat)
    requires |on| == w + 1 && CompleteAll(w, s, on) && NextOn(on, p, q)
    ensures CompleteAll(w, s, on[p := false])
    ensures CountOf(SplitAll(w, s, on[p := false]), r) == Predicted(SplitAll(w, s, on), p, q, r)
    decreases |s|
  {
    hide Split, Complete, Predicted, NextOn;
    if s == [] {
      PredictedNone(p, q, r, on);
    } else {
      var n := |s| - 1;
      Next(on, p, q);
      DisableAll(w, s[..n], on, p, q, r);
      DisableOne(w, 0, 0, s[n].lo, s[n].hi, on, p, q, r);
      OneMore(w, s, on[p := false]);
      CountConcat(SplitAll(w, s[..n], on[p := false]), Split(w, 0, 0, s[n].lo, s[n].hi, on[p := false]), r);
      PredictedConcat(SplitAll(w, s[..n], on), Split(w, 0, 0, s[n].lo, s[n].hi, on), p, q, r);
    }
  }

  lemma Next(on: Enabled, p: nat, q: nat)
    requires NextOn(on, p, q)
    ensures p < q < |on|
  {
  }

  lemma PredictedNone(p: nat, q: nat, r: nat, on: Enabled)
    requires NextOn(on, p, q)
    ensures Predicted([], p, q, r) == 0
  {
  }

  lemma OneMore(w: nat, s: seq<Range>, on: Enabled)
    requires |on| == w + 1 && s != [] && CompleteAll(w, s[..|s| - 1], on)
    requires InBlock(w, 0, 0, s[|s| - 1].lo, s[|s| - 1].hi) && Complete(w, 0, 0, s[|s| - 1].lo, s[|s| - 1].hi, on)
    ensures CompleteAll(w, s, on)
  {
    hide Complete;
    forall i | 0 <= i < |s|
      ensures InBlock(w, 0, 0, s[i].lo, s[i].hi) && Complete(w, 0, 0, s[i].lo, s[i].hi, on)
    {
      assert i < |s| - 1 ==> s[i] == s[..|s| - 1][i];
    }
  }

  lemma {:induction false} DropAll(w: nat, s: seq<Range>, on: Enabled, p: nat)
    requires |on| == w + 1 && CompleteAll(w, s, on) && p <= w && CountOf(SplitAll(w, s, on), p) == 0
    ensures CompleteAll(w, s, on[p := false]) && SplitAll(w, s, on[p := false]) == SplitAll(w, s, on)
    decreases |s|
  {
    hide Split, Complete;
    if s != [] {
      var n := |s| - 1;
      CountConcat(SplitAll(w, s[..n], on), Split(w, 0, 0, s[n].lo, s[n].hi, on), p);
      DropAll(w, s[..n], on, p);
      DisableUnused(w, 0, 0, s[n].lo, s[n].hi, on, p);
      OneMore(w, s, on[p := false]);
    }
  }

  lemma {:induction false} PrintedOn(w: nat, s: seq<Range>, on: Enabled)
    requires |on| == w + 1 && CompleteAll(w, s, on)
    ensures UsesOnly(SplitAll(w, s, on), on, 0)
    decreases |s|
  {
    hide Split, Complete;
    if s != [] {
      var n := |s| - 1;
      PrintedOn(w, s[..n], on);
      SplitTiles(w, 0, 0, s[n].lo, s[n].hi, on);
    }
  }

  lemma {:induction false} CountedIsOn(bs: seq<Block>, on: Enabled, p: nat)
    requires UsesOnly(bs, on, 0) && CountOf(bs, p) > 0
    ensures p < |on| && on[p]
  {
    var last := |bs| - 1;
    if bs[last].prefix != p {
      CountedIsOn(bs[..last], on, p);
    }
  }

  // ----- the sum of the counters

  function Sum(counters: seq<nat>): nat {
    if counters == [] then 0 else Sum(counters[..|counters| - 1]) + counters[|counters| - 1]
  }

  lemma {:induction false} SumUpdate(counters: seq<nat>, i: nat, v: nat)
    requires i < |counters|
    ensures Sum(counters[i := v]) == Sum(counters) - counters[i] + v
  {
    var n := |counters| - 1;
    if i < n {
      SumUpdate(counters[..n], i, v);
      assert counters[i := v][..n] == counters[..n][i := v];
    } else {
      assert counters[i := v][..n] == counters[..n];
    }
  }

  /** The counters hold what printing with the enabled lengths would count. */
  ghost predicate Counting(counters: seq<nat>, bs: seq<Block>) {
    forall p {:trigger counters[p]} :: 0 <= p < |counters| ==> counters[p] == CountOf(bs, p)
  }

  lemma {:induction false} SumIsLength(counters: seq<nat>, bs: seq<Block>, on: Enabled)
    requires Counting(counters, bs) && UsesOnly(bs, on, 0) && |on| == |counters|
    ensures Sum(counters) == |bs|
    decreases |bs|
  {
    if bs == [] {
      SumZero(counters);
    } else {
      var n := |bs| - 1;
      var p := bs[n].prefix;
      var fewer := counters[p := counters[p] - 1];
      SumIsLength(fewer, bs[..n], on);
      SumUpdate(counters, p, counters[p] - 1);
    }
  }

  lemma {:induction false} SumZero(counters: seq<nat>)
    requires forall p {:trigger counters[p]} :: 0 <= p < |counters| ==> counters[p] == 0
    ensures Sum(counters) == 0
  {
    if counters != [] {
      SumZero(counters[..|counters| - 1]);
    }
  }

  // ----- the reduction

  /** One past the largest size_t. */
  const SIZE: nat := 0x1_0000_0000_0000_0000

  function Increase(counters: seq<nat>, i: nat, j: nat): nat
    requires i < j && i < |counters|
  {
    counters[i] * (Pow2(j - i) - 1)
  }

  /** `i` is in use and `j` is the next length in use. */
  predicate Candidate(counters: seq<nat>, i: nat, j: nat) {
    i < j < |counters| && counters[i] > 0 && counters[j] > 0 && forall r :: i < r < j ==> counters[r] == 0
  }

  /** The candidate of least increase, the coarsest one among equals. */
  ghost predicate Least(counters: seq<nat>, i: nat, j: nat) {
    && Candidate(counters, i, j)
    && (forall k: nat, l: nat :: Candidate(counters, k, l) ==> Increase(counters, i, j) <= Increase(counters, k, l))
    && (forall k: nat, l: nat :: Candidate(counters, k, l) && k < i ==> Increase(counters, i, j) < Increase(counters, k, l))
  }

  method NextUsed(counters: seq<nat>, i: nat) returns (j: nat, multiplier: nat)
    requires i < |counters|
    ensures i < j <= |counters| && multiplier == Pow2(j - i)
    ensures forall r :: i < r < j ==> counters[r] == 0
    ensures j < |counters| ==> counters[j] > 0
  {
    j, multiplier := i + 1, 2;
    while j < |counters| && counters[j] == 0
      invariant i < j <= |counters| && multiplier == Pow2(j - i) && forall r :: i < r < j ==> counters[r] == 0
    {
      j, multiplier := j + 1, multiplier * 2;
    }
  }

  /** The pair of least increase below a limit, if there is one. */
  method FindLeast(counters: seq<nat>, on: Enabled, limit: nat) returns (found: bool, min: nat, to: nat)
    requires |on| == |counters| && counters != [] && forall p {:trigger on[p]} :: 0 <= p < |on| ==> (on[p] <==> counters[p] > 0)
    ensures found ==> Least(counters, min, to) && Increase(counters, min, to) < limit
    ensures found ==> forall i: nat, j: nat :: Candidate(counters, i, j) ==>
      Increase(counters, min, to) <= Increase(counters, i, j) && (i < min ==> Increase(counters, min, to) < Increase(counters, i, j))
    ensures !found ==> forall i: nat, j: nat :: Candidate(counters, i, j) ==> limit <= Increase(counters, i, j)
  {
    hide Increase;
    found, min, to := false, 0, 0;
    var least := limit;
    for i := 0 to |counters| - 1
      invariant found ==> Candidate(counters, min, to) && Increase(counters, min, to) == least < limit
      invariant !found ==> least == limit
      invariant forall k: nat, j: nat :: Candidate(counters, k, j) && k < i ==> least <= Increase(counters, k, j)
      invariant found ==> forall k: nat, j: nat :: Candidate(counters, k, j) && k < min ==> least < Increase(counters, k, j)
    {
      if counters[i] == 0 || !on[i] {
        continue;
      }
      var j, multiplier := NextUsed(counters, i);
      if j < |counters| {
        OnlyNext(counters, i, j);
        var increase := counters[i] * (multiplier - 1);
        IncreaseIs(counters, i, j);
        if increase < least {
          found, min, to, least := true, i, j, increase;
        }
      }
    }
  }

  lemma IncreaseIs(counters: seq<nat>, i: nat, j: nat)
    requires i < j && i < |counters|
    ensures Increase(counters, i, j) == counters[i] * (Pow2(j - i) - 1)
  {
  }

  lemma OnlyNext(counters: seq<nat>, i: nat, j: nat)
    requires i < j < |counters| && counters[i] > 0 && counters[j] > 0 && forall r :: i < r < j ==> counters[r] == 0
    ensures Candidate(counters, i, j) && forall k: nat :: Candidate(counters, i, k) ==> k == j
  {
  }

  // ----- when the reduction goes as far as it may

  /** The counters once `i` is merged into `j`. */
  function AfterMerge(counters: seq<nat>, i: nat, j: nat): seq<nat>
    requires i < j < |counters|
  {
    counters[j := counters[j] + Increase(counters, i, j) + counters[i]][i := 0]
  }

  function Used(counters: seq<nat>): nat {
    if counters == [] then 0 else Used(counters[..|counters| - 1]) + if counters[|counters| - 1] > 0 then 1 else 0
  }

  lemma {:induction false} UsedUpdate(counters: seq<nat>, i: nat, v: nat)
    requires i < |counters|
    ensures Used(counters[i := v]) == Used(counters) - (if counters[i] > 0 then 1 else 0) + if v > 0 then 1 else 0
  {
    var n := |counters| - 1;
    if i < n {
      UsedUpdate(counters[..n], i, v);
      assert counters[i := v][..n] == counters[..n][i := v];
    } else {
      assert counters[i := v][..n] == counters[..n];
    }
  }

  lemma FewerUsed(counters: seq<nat>, i: nat, j: nat)
    requires Candidate(counters, i, j)
    ensures Used(AfterMerge(counters, i, j)) < Used(counters)
  {
    hide Used, Increase;
    var more := counters[j := counters[j] + Increase(counters, i, j) + counters[i]];
    UsedUpdate(counters, j, counters[j] + Increase(counters, i, j) + counters[i]);
    UsedUpdate(more, i, 0);
  }

  /** Merging always least first and as long as the total allows, every merge adds less than `threshold`. */
  ghost predicate MergesBelow(counters: seq<nat>, total: nat, acceptable: nat, threshold: nat)
    decreases Used(counters)
  {
    if i: nat, j: nat :| Least(counters, i, j) && total + Increase(counters, i, j) <= acceptable then
      FewerUsed(counters, i, j);
      && Increase(counters, i, j) < threshold
      && MergesBelow(AfterMerge(counters, i, j), total + Increase(counters, i, j), acceptable, threshold)
    else true
  }

  /** No further merge keeps the total acceptable. */
  ghost predicate NothingFits(counters: seq<nat>, total: nat, acceptable: nat) {
    forall i: nat, j: nat :: Candidate(counters, i, j) ==> acceptable < total + Increase(counters, i, j)
  }

  /** The counters when merges are made, least first, while they add less than the threshold and stay acceptable. */
  ghost function Greedy(counters: seq<nat>, total: nat, acceptable: nat, threshold: nat): seq<nat>
    decreases Used(counters)
  {
    if i: nat, j: nat :| Least(counters, i, j) && Increase(counters, i, j) < threshold && total + Increase(counters, i, j) <= acceptable then
      FewerUsed(counters, i, j);
      Greedy(AfterMerge(counters, i, j), total + Increase(counters, i, j), acceptable, threshold)
    else counters
  }

  lemma GreedyStep(counters: seq<nat>, i: nat, j: nat, total: nat, acceptable: nat, threshold: nat)
    requires Least(counters, i, j) && Increase(counters, i, j) < threshold && total + Increase(counters, i, j) <= acceptable
    ensures Greedy(counters, total, acceptable, threshold) ==
      Greedy(AfterMerge(counters, i, j), total + Increase(counters, i, j), acceptable, threshold)
  {
    hide Increase, AfterMerge, Used;
    forall k: nat, l: nat | Least(counters, k, l) ensures k == i && l == j { OneLeast(counters, i, j, k, l); }
  }

  lemma GreedyStops(counters: seq<nat>, total: nat, acceptable: nat, threshold: nat)
    requires forall i: nat, j: nat :: Candidate(counters, i, j) ==>
      threshold <= Increase(counters, i, j) || acceptable < total + Increase(counters, i, j)
    ensures Greedy(counters, total, acceptable, threshold) == counters
  {
    hide Increase, Used, AfterMerge;
  }

  lemma OneLeast(counters: seq<nat>, i: nat, j: nat, k: nat, l: nat)
    requires Least(counters, i, j) && Least(counters, k, l)
    ensures i == k && j == l
  {
    hide Increase;
  }

  lemma Positive(counters: seq<nat>, i: nat, j: nat)
    requires Candidate(counters, i, j)
    ensures Increase(counters, i, j) > 0
  {
    assert Pow2(j - i) == 2 * Pow2(j - i - 1);
  }

  lemma {:induction false} LeastExists(counters: seq<nat>, k: nat, l: nat) returns (i: nat, j: nat)
    requires Candidate(counters, k, l)
    ensures Least(counters, i, j)
    decreases Increase(counters, k, l), k
  {
    hide Increase;
    if m: nat, n: nat :| Candidate(counters, m, n) && Increase(counters, m, n) < Increase(counters, k, l) {
      i, j := LeastExists(counters, m, n);
    } else if m: nat, n: nat :| Candidate(counters, m, n) && Increase(counters, m, n) == Increase(counters, k, l) && m < k {
      i, j := LeastExists(counters, m, n);
    } else {
      return k, l;
    }
  }

  /** One turn of the unlimited reduction. */
  lemma MergeStep(counters: seq<nat>, i: nat, j: nat, total: nat, acceptable: nat, threshold: nat)
    requires Least(counters, i, j) && total + Increase(counters, i, j) <= acceptable
    ensures MergesBelow(counters, total, acceptable, threshold) <==>
      && Increase(counters, i, j) < threshold
      && MergesBelow(AfterMerge(counters, i, j), total + Increase(counters, i, j), acceptable, threshold)
  {
    hide Increase, AfterMerge, Used;
    forall k: nat, l: nat | Least(counters, k, l) ensures k == i && l == j { OneLeast(counters, i, j, k, l); }
  }

  lemma NothingLeft(counters: seq<nat>, total: nat, acceptable: nat, threshold: nat)
    requires NothingFits(counters, total, acceptable)
    ensures MergesBelow(counters, total, acceptable, threshold)
  {
    hide Increase, Used;
  }

  /** Where the code stops, nothing fits if and only if no merge of the unlimited reduction reaches the threshold. */
  lemma StopExact(counters: seq<nat>, total: nat, acceptable: nat, threshold: nat)
    requires forall i: nat, j: nat :: Candidate(counters, i, j) ==>
      threshold <= Increase(counters, i, j) || acceptable < total + Increase(counters, i, j)
    ensures NothingFits(counters, total, acceptable) <==> MergesBelow(counters, total, acceptable, threshold)
  {
    hide Increase, Used, MergesBelow;
    if NothingFits(counters, total, acceptable) {
      NothingLeft(counters, total, acceptable, threshold);
    } else {
      var k: nat, l: nat :| Candidate(counters, k, l) && total + Increase(counters, k, l) <= acceptable;
      var i, j := LeastExists(counters, k, l);
      MergeStep(counters, i, j, total, acceptable, threshold);
    }
  }

  lemma FullExact(counters: seq<nat>, total: nat, acceptable: nat, threshold: nat)
    requires acceptable <= total
    ensures NothingFits(counters, total, acceptable) && MergesBelow(counters, total, acceptable, threshold)
  {
    hide Increase, MergesBelow;
    forall i: nat, j: nat | Candidate(counters, i, j) ensures acceptable < total + Increase(counters, i, j) { Positive(counters, i, j); }
    NothingLeft(counters, total, acceptable, threshold);
  }

  lemma GreedyFull(counters: seq<nat>, total: nat, acceptable: nat, threshold: nat)
    requires acceptable <= total
    ensures Greedy(counters, total, acceptable, threshold) == counters
  {
    hide Increase, Greedy;
    forall i: nat, j: nat | Candidate(counters, i, j) ensures acceptable < total + Increase(counters, i, j) { Positive(counters, i, j); }
    GreedyStops(counters, total, acceptable, threshold);
  }

  /** A threshold above the acceptable total holds no merge back. */
  lemma {:induction false} HighThreshold(counters: seq<nat>, total: nat, acceptable: nat, threshold: nat)
    requires acceptable < threshold
    ensures MergesBelow(counters, total, acceptable, threshold)
    decreases Used(counters)
  {
    hide Increase, Used;
    if i: nat, j: nat :| Least(counters, i, j) && total + Increase(counters, i, j) <= acceptable {
      FewerUsed(counters, i, j);
      HighThreshold(AfterMerge(counters, i, j), total + Increase(counters, i, j), acceptable, threshold);
      MergeStep(counters, i, j, total, acceptable, threshold);
    }
  }

  /** So a threshold that does not wrap holds no merge back. */
  lemma Unwrapped(counters: seq<nat>, total: nat, acceptable: nat)
    requires acceptable * 10 < SIZE
    ensures MergesBelow(counters, total, acceptable, acceptable * 10 % SIZE)
  {
    hide MergesBelow;
    if acceptable == 0 {
      FullExact(counters, total, acceptable, 0);
    } else {
      HighThreshold(counters, total, acceptable, acceptable * 10);
    }
  }

  /** The counters of a list of blocks. */
  function Counts(w: nat, bs: seq<Block>): seq<nat> {
    seq(w + 1, p requires 0 <= p <= w => CountOf(bs, p))
  }

  // ----- an input whose threshold wraps

  lemma {:induction false} FirstBlock(w: nat, addr: nat, prefix: nat, p: nat, on: Enabled)
    requires |on| == w + 1 && Aligned(w, addr, prefix) && prefix <= p <= w && on[p]
    ensures Split(w, addr, prefix, addr, addr + Span(w, p) - 1, on) == [Block(addr, p)] && Span(w, p) <= Span(w, prefix)
    decreases p - prefix
  {
    hide Split, SetBit, Broadcast, Pow2;
    var hi := addr + Span(w, p) - 1;
    if prefix < p {
      Halves(w, addr, prefix);
      FirstBlock(w, addr, prefix + 1, p, on);
    }
    SplitTurn(w, addr, prefix, addr, hi, on);
  }

  /** 0.0.0.0/24 and 128.0.0.0/32. */
  function TwoEntries(): seq<Range> {
    [Range(0, 255), Range(0x8000_0000, 0x8000_0000)]
  }

  lemma Sizes()
    ensures Pow2(8) == 256 && Pow2(0) == 1 && Pow2(31) == 0x8000_0000 && Pow2(32) == 0x1_0000_0000
  {
    assert Pow2(4) == 16 && Pow2(0) == 1;
    PowSum(4, 4);
    PowSum(8, 8);
    PowSum(16, 8);
    PowSum(24, 4);
    assert Pow2(29) == 2 * Pow2(28);
    assert Pow2(31) == 2 * Pow2(30) && Pow2(30) == 2 * Pow2(29);
    assert Pow2(32) == 2 * Pow2(31);
  }

  lemma TwoBlocks(on: Enabled)
    requires AllOn(32, on)
    ensures SplitAll(32, TwoEntries(), on) == [Block(0, 24), Block(0x8000_0000, 32)]
  {
    hide Split, SetBit, Broadcast, Pow2;
    var s, top := TwoEntries(), 0x8000_0000;
    Sizes();
    FirstBlock(32, 0, 0, 24, on);
    Halves(32, 0, 0);
    SplitTurn(32, 0, 0, top, top, on);
    FirstBlock(32, top, 1, 32, on);
    assert Split(32, 0, 0, 0, 255, on) == [Block(0, 24)];
    assert Split(32, 0, 0, top, top, on) == [Block(top, 32)];
    assert s[..1] == [Range(0, 255)] && [Range(0, 255)][..0] == [];
    assert SplitAll(32, [Range(0, 255)], on) == SplitAll(32, [], on) + Split(32, 0, 0, 0, 255, on);
  }

  /**
   Asked for 1844674407370955162 entries the code computes a threshold of 4 and leaves these two
   entries as they are, although the merge of the /24 into 256 addresses is acceptable.
   */
  lemma WrappedThreshold(on: Enabled)
    requires AllOn(32, on)
    ensures RangesOk(TwoEntries(), Last(32)) && Sorted(TwoEntries())
    ensures 1844674407370955162 * 10 % SIZE == 4
    ensures !MergesBelow(Counts(32, SplitAll(32, TwoEntries(), on)), 2, 1844674407370955162, 4)
  {
    hide Split, SplitAll, MergesBelow, Pow2;
    Sizes();
    TwoBlocks(on);
    var bs := [Block(0, 24), Block(0x8000_0000, 32)];
    var counters := Counts(32, bs);
    forall p | 0 <= p <= 32 ensures counters[p] == if p == 24 || p == 32 then 1 else 0 {
      assert bs[..1] == [Block(0, 24)];
      CountOne(Block(0, 24), p);
    }
    assert Least(counters, 24, 32);
    MergeStep(counters, 24, 32, 2, 1844674407370955162, 4);
  }

  method Multiplier(min: nat, to: nat) returns (multiplier: nat)
    requires min <= to
    ensures multiplier == Pow2(to - min)
  {
    multiplier := 1;
    for x := min to to
      invariant multiplier == Pow2(x - min)
    {
      multiplier := multiplier * 2;
    }
  }

  /** The global arrays prefix_counters and prefix_enabled. */
  class Prefixes {
    const w: nat
    var counters: seq<nat>
    var enabled: Enabled

    constructor (w: nat, enabled: Enabled)
      requires |enabled| == w + 1
      ensures this.w == w && this.enabled == enabled && |counters| == w + 1
    {
      this.w, this.enabled, this.counters := w, enabled, seq(w + 1, _ => 0);
    }

    /** The counters are what printing the set now would count. */
    ghost predicate Valid(s: seq<Range>)
      reads this
    {
      && |counters| == w + 1 && |enabled| == w + 1 && CompleteAll(w, s, enabled)
      && Counting(counters, SplitAll(w, s, enabled))
    }

    /** prefix_update_counters, called for each block. */
    method CountBlocks(blocks: seq<Block>, ghost before: seq<Block>)
      requires |counters| == |enabled| && UsesOnly(blocks, enabled, 0) && Counting(counters, before)
      modifies this`counters
      ensures |counters| == |old(counters)| && Counting(counters, before + blocks)
    {
      assert before + blocks[..0] == before;
      for i := 0 to |blocks|
        invariant |counters| == |old(counters)| && Counting(counters, before + blocks[..i])
      {
        var p := blocks[i].prefix;
        counters := counters[p := counters[p] + 1];
        ghost var more := before + blocks[..i + 1];
        assert more[..|more| - 1] == before + blocks[..i];
      }
      assert blocks[..|blocks|] == blocks;
    }

    /** Count the blocks of every entry. */
    method CountAll(s: seq<Range>)
      requires |enabled| == w + 1 && CompleteAll(w, s, enabled)
      modifies this`counters
      ensures Valid(s)
    {
      hide Split, Complete;
      counters := seq(w + 1, _ => 0);
      assert Counting(counters, []);
      for i := 0 to |s|
        invariant |counters| == w + 1 && Counting(counters, SplitAll(w, s[..i], enabled))
      {
        assert s[..i + 1][..i] == s[..i];
        var blocks := Split(w, 0, 0, s[i].lo, s[i].hi, enabled);
        SplitTiles(w, 0, 0, s[i].lo, s[i].hi, enabled);
        CountBlocks(blocks, SplitAll(w, s[..i], enabled));
      }
      assert s[..|s|] == s;
    }

    /** Add the counters up and disable the lengths that are not used. */
    method DropUnused(s: seq<Range>) returns (total: nat)
      requires Valid(s)
      modifies this`enabled
      ensures Valid(s) && SplitAll(w, s, enabled) == SplitAll(w, s, old(enabled)) && total == Sum(counters)
      ensures forall p {:trigger enabled[p]} :: 0 <= p <= w ==> (enabled[p] <==> counters[p] > 0)
      ensures forall p {:trigger enabled[p]} :: 0 <= p <= w && enabled[p] ==> old(enabled)[p]
    {
      hide Split, Complete, CountOf;
      total := 0;
      PrintedOn(w, s, enabled);
      ghost var blocks, first := SplitAll(w, s, enabled), enabled;
      for i := 0 to w + 1
        invariant Valid(s) && SplitAll(w, s, enabled) == blocks && total == Sum(counters[..i])
        invariant forall p {:trigger enabled[p]} :: 0 <= p <= w ==> enabled[p] == (first[p] && (p >= i || counters[p] > 0))
      {
        assert counters[..i + 1][..i] == counters[..i];
        if counters[i] > 0 {
          total := total + counters[i];
        } else {
          DropAll(w, s, enabled, i);
          enabled := enabled[i := false];
        }
      }
      assert counters[..w + 1] == counters;
      forall p | 0 <= p <= w && counters[p] > 0
        ensures first[p]
      {
        CountedIsOn(blocks, first, p);
      }
    }

    /** Disable `min`; its blocks reappear at length `to`. */
    method Eliminate(s: seq<Range>, min: nat, to: nat, multiplier: nat)
      requires Valid(s) && Candidate(counters, min, to) && multiplier == Pow2(to - min)
      requires forall p {:trigger enabled[p]} :: 0 <= p <= w ==> (enabled[p] <==> counters[p] > 0)
      modifies this
      ensures Valid(s) && Sum(counters) == old(Sum(counters)) + old(Increase(counters, min, to))
      ensures forall p {:trigger enabled[p]} :: 0 <= p <= w ==> (enabled[p] <==> counters[p] > 0)
      ensures enabled == old(enabled)[min := false] && old(enabled)[min]
      ensures counters == AfterMerge(old(counters), min, to)
    {
      hide Split, Complete, CountOf, Sum, Pow2;
      var increase := counters[min] * multiplier - counters[min];
      ghost var before, was := counters, enabled;
      assert NextOn(enabled, min, to);
      DisableAll(w, s, was, min, to, 0);
      SumUpdate(counters, to, counters[to] + increase + counters[min]);
      counters := counters[to := counters[to] + increase + counters[min]];
      SumUpdate(counters, min, 0);
      counters := counters[min := 0];
      enabled := enabled[min := false];
      Regrouped(before[min], multiplier);
      forall r | 0 <= r <= w
        ensures counters[r] == CountOf(SplitAll(w, s, enabled), r)
      {
        DisableAll(w, s, was, min, to, r);
        assert before[r] == CountOf(SplitAll(w, s, was), r) && before[min] == CountOf(SplitAll(w, s, was), min);
      }
    }

    /** One turn of the loop: merge the pair of least increase, unless that is too much. */
    method Round(s: seq<Range>, total: nat, acceptable: nat) returns (stop: bool, increase: nat)
      requires Valid(s) && total == Sum(counters)
      requires forall p {:trigger enabled[p]} :: 0 <= p <= w ==> (enabled[p] <==> counters[p] > 0)
      modifies this
      ensures Valid(s)
      ensures forall p {:trigger enabled[p]} :: 0 <= p <= w ==> (enabled[p] <==> counters[p] > 0)
      ensures stop ==> counters == old(counters) && enabled == old(enabled)
      ensures !stop ==> total + increase == Sum(counters) <= acceptable && Enableds(enabled) < old(Enableds(enabled))
      ensures forall p {:trigger enabled[p]} :: 0 <= p <= w && enabled[p] ==> old(enabled)[p]
      ensures !stop ==> forall i: nat, j: nat :: Candidate(old(counters), i, j) ==> increase <= Increase(old(counters), i, j)
      ensures stop ==> forall i: nat, j: nat :: Candidate(counters, i, j) ==>
        acceptable * 10 % SIZE <= Increase(counters, i, j) || acceptable < total + Increase(counters, i, j)
      ensures stop ==>
        (NothingFits(counters, total, acceptable) <==> MergesBelow(counters, total, acceptable, acceptable * 10 % SIZE))
      ensures var threshold := acceptable * 10 % SIZE;
        Greedy(old(counters), total, acceptable, threshold) == if stop then counters else Greedy(counters, total + increase, acceptable, threshold)
      ensures !stop ==>
        (MergesBelow(old(counters), total, acceptable, acceptable * 10 % SIZE) <==>
         MergesBelow(counters, total + increase, acceptable, acceptable * 10 % SIZE))
    {
      hide Split, Complete, CountOf, Sum, Pow2, Increase, Counting, SplitAll, CompleteAll, Enableds, AfterMerge, MergesBelow, NothingFits, Greedy;
      ghost var threshold := acceptable * 10 % SIZE;
      var found, min, to := FindLeast(counters, enabled, acceptable * 10 % SIZE);
      if !found {
        StopExact(counters, total, acceptable, threshold);
        GreedyStops(counters, total, acceptable, threshold);
        return true, 0;
      }
      var multiplier := Multiplier(min, to);
      increase := counters[min] * multiplier - counters[min];
      Regrouped(counters[min], multiplier);
      IncreaseIs(counters, min, to);
      if total + increase > acceptable {
        StopExact(counters, total, acceptable, threshold);
        GreedyStops(counters, total, acceptable, threshold);
        return true, 0;
      }
      MergeStep(counters, min, to, total, acceptable, threshold);
      GreedyStep(counters, min, to, total, acceptable, threshold);
      FewerOn(enabled, min);
      Eliminate(s, min, to, multiplier);
      stop := false;
    }

    /**
     Reduce the enabled lengths. Printing afterwards gives exactly `total` blocks, still
     holds exactly the addresses of the set, and `total` stays within the larger of the
     first total and the acceptable one. What is left is what merging least first, the coarsest
     among equals, leaves, and exactly the lengths in use stay enabled. At the end no further merge would fit, if and only
     if no merge of the reduction without a threshold reaches 10 * acceptable as a size_t.
     */
    method Reduce(s: seq<Range>, acceptableIncrease: nat, minAccepted: nat) returns (total: nat, initial: nat, acceptable: nat)
      requires |enabled| == w + 1 && enabled[w] && RangesOk(s, Last(w)) && Sorted(s)
      modifies this
      ensures |enabled| == w + 1 && initial == |SplitAll(w, s, old(enabled))| && total == |SplitAll(w, s, enabled)|
      ensures SameAddresses(w, SplitAll(w, s, enabled), s) && Ascends(w, SplitAll(w, s, enabled))
      ensures initial <= total && (total <= initial || total <= acceptable)
      ensures forall p {:trigger enabled[p]} :: 0 <= p <= w && enabled[p] ==> old(enabled)[p]
      ensures acceptable == if initial * acceptableIncrease % SIZE / 100 < minAccepted then minAccepted else initial * acceptableIncrease % SIZE / 100
      ensures counters == seq(w + 1, _ => 0)
      ensures NothingFits(Counts(w, SplitAll(w, s, enabled)), total, acceptable) <==>
        MergesBelow(Counts(w, SplitAll(w, s, old(enabled))), initial, acceptable, acceptable * 10 % SIZE)
      ensures Counts(w, SplitAll(w, s, enabled)) == Greedy(Counts(w, SplitAll(w, s, old(enabled))), initial, acceptable, acceptable * 10 % SIZE)
      ensures forall p {:trigger enabled[p]} :: 0 <= p <= w ==> (enabled[p] <==> Counts(w, SplitAll(w, s, enabled))[p] > 0)
    {
      hide Split, Complete, CountOf, Sum, Pow2, Sorted, RangesOk, Increase, Counting, SameAddresses, Ascends, SplitAll, CompleteAll, Candidate, Enableds,
        MergesBelow, NothingFits, AfterMerge, Least, Counts, Greedy;
      AllComplete(w, s, enabled);
      CountAll(s);
      total := DropUnused(s);
      ghost var first := counters;
      Counted(s);
      initial := total;
      Summed(s);
      acceptable := total * acceptableIncrease % SIZE / 100;
      if acceptable < minAccepted {
        acceptable := minAccepted;
      }
      while total < acceptable
        invariant Valid(s) && total == Sum(counters)
        invariant initial <= total && (total <= initial || total <= acceptable)
        invariant forall p {:trigger enabled[p]} :: 0 <= p <= w ==> (enabled[p] <==> counters[p] > 0)
        invariant forall p {:trigger enabled[p]} :: 0 <= p <= w && enabled[p] ==> old(enabled)[p]
        invariant MergesBelow(counters, total, acceptable, acceptable * 10 % SIZE) ==
          MergesBelow(first, initial, acceptable, acceptable * 10 % SIZE)
        invariant Greedy(counters, total, acceptable, acceptable * 10 % SIZE) == Greedy(first, initial, acceptable, acceptable * 10 % SIZE)
        decreases Enableds(enabled)
      {
        var stop, increase := Round(s, total, acceptable);
        if stop {
          break;
        }
        total := total + increase;
      }
      if total >= acceptable {
        FullExact(counters, total, acceptable, acceptable * 10 % SIZE);
        GreedyFull(counters, total, acceptable, acceptable * 10 % SIZE);
      }
      Summed(s);
      Counted(s);
      PrintedExactly(w, s, enabled);
      counters := seq(w + 1, _ => 0);
    }

    /** ipset_reduce: an unoptimized set is optimized first. */
    method ReduceSet(ips: IpSet, acceptableIncrease: nat, minAccepted: nat) returns (total: nat, initial: nat, acceptable: nat)
      requires ips.Valid() && ips.max == Last(w) && |enabled| == w + 1 && enabled[w]
      modifies this, ips
      ensures ips.Valid() && ips.optimized && forall a: nat :: Has(ips.entries, a) <==> Has(old(ips.entries), a)
      ensures |enabled| == w + 1 && initial == |SplitAll(w, ips.entries, old(enabled))| && total == |SplitAll(w, ips.entries, enabled)|
      ensures SameAddresses(w, SplitAll(w, ips.entries, enabled), ips.entries) && initial <= total && (total <= initial || total <= acceptable)
    {
      hide SplitAll, SameAddresses, Ascends, Greedy, MergesBelow, NothingFits, Counts, Normal;
      if !ips.optimized {
        ips.Optimize();
      }
      total, initial, acceptable := Reduce(ips.entries, acceptableIncrease, minAccepted);
    }

    lemma Counted(s: seq<Range>)
      requires Valid(s)
      ensures counters == Counts(w, SplitAll(w, s, enabled))
    {
    }

    lemma Summed(s: seq<Range>)
      requires Valid(s)
      ensures Sum(counters) == |SplitAll(w, s, enabled)|
    {
      PrintedOn(w, s, enabled);
      SumIsLength(counters, SplitAll(w, s, enabled), enabled);
    }
  }

  function Enableds(on: Enabled): nat {
    if on == [] then 0 else Enableds(on[..|on| - 1]) + if on[|on| - 1] then 1 else 0
  }

  lemma {:induction false} FewerOn(on: Enabled, p: nat)
    requires p < |on| && on[p]
    ensures Enableds(on[p := false]) == Enableds(on) - 1
  {
    var n := |on| - 1;
    if p < n {
      FewerOn(on[..n], p);
      assert on[p := false][..n] == on[..n][p := false];
    } else {
      assert on[p := false][..n] == on[..n];
    }
  }

  lemma Regrouped(a: nat, m: nat)
    requires m >= 1
    ensures a * m - a == a * (m - 1)
  {
  }

  // ----- the counters cannot overflow

  function Spans(w: nat, bs: seq<Block>): nat
    requires BlocksOk(w, bs)
  {
    if bs == [] then 0 else Spans(w, bs[..|bs| - 1]) + Span(w, bs[|bs| - 1].prefix)
  }

  lemma {:induction false} SpansConcat(w: nat, a: seq<Block>, b: seq<Block>)
    requires BlocksOk(w, a) && BlocksOk(w, b)
    ensures BlocksOk(w, a + b) && Spans(w, a + b) == Spans(w, a) + Spans(w, b)
  {
    if b == [] {
      assert a + b == a;
    } else {
      SpansConcat(w, a, b[..|b| - 1]);
      assert (a + b)[..|a + b| - 1] == a + b[..|b| - 1];
      assert BlocksOk(w, a + b);
    }
  }

  lemma {:induction false} TilesSpan(w: nat, bs: seq<Block>, lo: nat, hi: nat)
    requires Tiles(w, bs, lo, hi)
    ensures BlocksOk(w, bs) && Spans(w, bs) == hi - lo + 1
    decreases |bs|
  {
    TilesMeaning(w, bs, lo, hi);
    assert Spans(w, [bs[0]]) == Span(w, bs[0].prefix) by { assert [bs[0]][..0] == []; }
    if |bs| == 1 {
      assert bs == [bs[0]];
    } else {
      TilesSpan(w, bs[1..], End(w, bs[0]) + 1, hi);
      SpansConcat(w, [bs[0]], bs[1..]);
      assert bs == [bs[0]] + bs[1..];
    }
  }

  lemma {:induction false} PrintedSpan(w: nat, s: seq<Range>, on: Enabled)
    requires |on| == w + 1 && CompleteAll(w, s, on) && RangesOk(s, Last(w))
    ensures BlocksOk(w, SplitAll(w, s, on)) && Spans(w, SplitAll(w, s, on)) == Total(s, Last(w))
    decreases |s|
  {
    hide Split, Complete, Tiles;
    if s != [] {
      var n := |s| - 1;
      PrintedSpan(w, s[..n], on);
      SplitTiles(w, 0, 0, s[n].lo, s[n].hi, on);
      TilesSpan(w, Split(w, 0, 0, s[n].lo, s[n].hi, on), s[n].lo, s[n].hi);
      SpansConcat(w, SplitAll(w, s[..n], on), Split(w, 0, 0, s[n].lo, s[n].hi, on));
    }
  }

  lemma {:induction false} CountSpan(w: nat, bs: seq<Block>, p: nat)
    requires BlocksOk(w, bs) && p <= w
    ensures CountOf(bs, p) * Span(w, p) <= Spans(w, bs)
  {
    hide Span;
    if bs != [] {
      CountSpan(w, bs[..|bs| - 1], p);
    }
  }

  /** Every product the reduction forms is at most the number of blocks of that length there are. */
  lemma ProductsFit(w: nat, s: seq<Range>, on: Enabled, p: nat, q: nat)
    requires |on| == w + 1 && CompleteAll(w, s, on) && RangesOk(s, Last(w)) && Sorted(s) && p <= q <= w
    ensures CountOf(SplitAll(w, s, on), p) * Pow2(q - p) <= Pow2(q) <= Pow2(w)
  {
    hide Split, Complete, SplitAll, CountOf, Pow2, CompleteAll, Sorted;
    var bs := SplitAll(w, s, on);
    PrintedSpan(w, s, on);
    CountSpan(w, bs, p);
    TotalFits(s, Last(w));
    PowSum(w - p, p);
    Cancel(CountOf(bs, p), Pow2(p), Pow2(w - p));
    PowSum(q - p, p);
    Scale(CountOf(bs, p), Pow2(p), Pow2(q - p));
    PowSum(w - q, q);
    Scale(1, Pow2(w - q), Pow2(q));
  }

  lemma Cancel(a: nat, b: nat, s: nat)
    requires s >= 1 && a * s <= s * b
    ensures a <= b
  {
    Steps(b, a, s);
    assert a * s == s * a;
  }

  lemma Scale(a: nat, b: nat, s: nat)
    requires a <= b
    ensures a * s <= s * b && a * s <= b * s
  {
  }
}
