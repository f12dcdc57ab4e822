/** Counting the addresses of a set that lie under a bound. */
module AddressCount {

  ghost function Cut(s: set<nat>, n: nat): set<nat> {
    set a | a in s && a < n
  }

  lemma {:induction false} CutSpan(s: set<nat>, lo: nat, hi: nat)
    requires lo <= hi && forall a :: lo <= a < hi ==> a in s
    ensures |Cut(s, hi)| == |Cut(s, lo)| + hi - lo
  {
    if lo < hi {
      CutSpan(s, lo, hi - 1);
      assert Cut(s, hi) == Cut(s, hi - 1) + {hi - 1};
    }
  }

  lemma CutGap(s: set<nat>, lo: nat, hi: nat)
    requires lo <= hi && forall a :: lo <= a < hi ==> a !in s
    ensures |Cut(s, hi)| == |Cut(s, lo)|
  {
    assert Cut(s, hi) == Cut(s, lo);
  }

  /** A stretch that lies wholly inside the set or wholly outside it. */
  lemma CutStretch(s: set<nat>, lo: nat, hi: nat, inside: bool)
    requires lo <= hi && forall a :: lo <= a < hi ==> (a in s <==> inside)
    ensures |Cut(s, hi)| == |Cut(s, lo)| + if inside then hi - lo else 0
  {
    if inside {
      CutSpan(s, lo, hi);
    } else {
      CutGap(s, lo, hi);
    }
  }
}
