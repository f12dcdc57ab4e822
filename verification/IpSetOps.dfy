/**
 The set operations that build a new range set from two
 (src/ipset_combine.c, src/ipset_common.c, src/ipset_exclude.c, src/ipset_diff.c).
 */
module IpSetOps {
  import opened Ranges
  import opened RangeAlgebra
  import opened IpSets

  /** What a loop still holds of a list: the entry in hand, perhaps shortened, and the rest. */
  function Rest(s: seq<Range>, i: nat, lo: nat, hi: nat): seq<Range> {
    if i < |s| then Cons(Range(lo, hi), s[i + 1..]) else []
  }

  lemma RestStart(s: seq<Range>, max: nat)
    requires Good(s, max)
    ensures s != [] ==> Rest(s, 0, s[0].lo, s[0].hi) == s && s[0].lo <= s[0].hi <= max
  {
  }

  /** The next entry taken in hand. */
  lemma RestNext(s: seq<Range>, i: nat, lo: nat, hi: nat, max: nat)
    requires Good(s, max) && i < |s|
    ensures Rest(s, i, lo, hi) != [] && Rest(s, i, lo, hi)[0] == Range(lo, hi)
    ensures i + 1 < |s| ==> Rest(s, i, lo, hi)[1..] == Rest(s, i + 1, s[i + 1].lo, s[i + 1].hi) && s[i + 1].lo <= s[i + 1].hi <= max
    ensures i + 1 == |s| ==> Rest(s, i, lo, hi)[1..] == []
  {
  }

  ghost predicate Ready(ips: IpSet)
    reads ips
  {
    ips.Valid() && ips.optimized
  }

  /** A result under construction: the part built so far of a known list. */
  ghost predicate Building(ips: IpSet, rest: seq<Range>, whole: seq<Range>)
    reads ips
  {
    && ips.Valid() && !ips.optimized && ips.unique == Shown(ips.counter, Total(ips.entries, ips.max)) && ips.entries + rest == whole
  }

  /** Append the next range of the result; the count stays right. */
  method Push(ips: IpSet, lo: nat, hi: nat, ghost rest: seq<Range>, ghost whole: seq<Range>)
    requires Building(ips, Cons(Range(lo, hi), rest), whole) && Good(whole, ips.max)
    modifies ips
    ensures Building(ips, rest, whole)
  {
    hide Has, Sorted, Apart;
    ghost var before := ips.entries;
    assert whole[|before|] == Range(lo, hi);
    TotalAppend(before, Range(lo, hi), ips.max);
    assert before + [Range(lo, hi)] <= whole;
    PrefixFits(before + [Range(lo, hi)], whole, ips.max);
    PlusShown(ips.counter, Total(before, ips.max), Range(lo, hi), ips.max);
    ips.AddRange(lo, hi);
    assert ips.entries + rest == before + Cons(Range(lo, hi), rest);
  }

  method Start(ips: IpSet, ghost whole: seq<Range>) returns (fresh_: IpSet)
    requires CounterOk(ips.counter, ips.max)
    ensures fresh(fresh_) && fresh_.max == ips.max && fresh_.counter == ips.counter && Building(fresh_, whole, whole)
  {
    fresh_ := new IpSet(ips.max, ips.counter);
    assert [] + whole == whole;
  }

  method Finish(ips: IpSet, ghost whole: seq<Range>)
    requires Building(ips, [], whole) && Good(whole, ips.max)
    modifies ips
    ensures Ready(ips) && ips.entries == whole
  {
    assert ips.entries + [] == ips.entries;
    ips.optimized := true;
  }

  /** Concatenation; the new set is not flagged. */
  method Combine(ips1: IpSet, ips2: IpSet) returns (ips: IpSet)
    requires ips1.Valid() && ips2.Valid() && ips1.max == ips2.max
    ensures fresh(ips) && ips.Valid() && !ips.optimized && ips.max == ips1.max && ips.counter == ips1.counter
    ensures ips.entries == ips1.entries + ips2.entries && ips.unique == 0
    ensures forall a: nat :: Has(ips.entries, a) <==> Has(ips1.entries, a) || Has(ips2.entries, a)
  {
    ips := new IpSet(ips1.max, ips1.counter);
    forall a: nat ensures Has(ips1.entries + ips2.entries, a) <==> Has(ips1.entries, a) || Has(ips2.entries, a) { HasConcat(ips1.entries, ips2.entries, a); }
    ips.entries := ips1.entries + ips2.entries;
  }

  /** Both inputs are optimized first; their addresses do not change. */
  twostate predicate Prepared(ips1: IpSet, ips2: IpSet)
    reads ips1, ips2
  {
    && Ready(ips1) && Ready(ips2)
    && ips1.entries == (if old(ips1.optimized) then old(ips1.entries) else Normal(old(ips1.entries), ips1.max))
    && ips2.entries == (if old(ips2.optimized) then old(ips2.entries) else Normal(old(ips2.entries), ips2.max))
  }

  method Prepare(ips1: IpSet, ips2: IpSet)
    requires ips1.Valid() && ips2.Valid()
    modifies ips1, ips2
    ensures Prepared(ips1, ips2) && Good(ips1.entries, ips1.max) && Good(ips2.entries, ips2.max) && CounterOk(ips1.counter, ips1.max)
  {
    if !ips1.optimized {
      ips1.Optimize();
    }
    if !ips2.optimized {
      ips2.Optimize();
    }
  }

  /** One turn of the intersection loop. */
  lemma CommonTurn(s: seq<Range>, t: seq<Range>)
    requires s != [] && t != []
    ensures CommonOf(s, t) ==
      if s[0].lo > t[0].hi then CommonOf(s, t[1..])
      else if t[0].lo > s[0].hi then CommonOf(s[1..], t)
      else if s[0].hi < t[0].hi then Cons(Range(Later(s[0].lo, t[0].lo), s[0].hi), CommonOf(s[1..], t))
      else Cons(Range(Later(s[0].lo, t[0].lo), t[0].hi), CommonOf(s, t[1..]))
  {
  }

  method CommonLoop(ips: IpSet, s: seq<Range>, t: seq<Range>)
    requires Good(s, ips.max) && Good(t, ips.max) && Building(ips, CommonOf(s, t), CommonOf(s, t)) && s != [] && t != []
    modifies ips
    ensures Building(ips, [], CommonOf(s, t))
  {
    hide Building, Good, CommonOf, Cons, Rest, From, Apart;
    ghost var max, whole := ips.max, CommonOf(s, t);
    CommonShape(s, t, max);
    RestStart(s, max);
    RestStart(t, max);
    var i1: nat, i2: nat := 0, 0;
    var lo1: nat, hi1: nat, lo2: nat, hi2: nat := s[0].lo, s[0].hi, t[0].lo, t[0].hi;
    while i1 < |s| && i2 < |t|
      invariant i1 <= |s| && i2 <= |t|
      invariant Building(ips, CommonOf(Rest(s, i1, lo1, hi1), Rest(t, i2, lo2, hi2)), whole)
      decreases |s| - i1 + |t| - i2
    {
      RestNext(s, i1, lo1, hi1, max);
      RestNext(t, i2, lo2, hi2, max);
      RestEnd(s);
      RestEnd(t);
      CommonTurn(Rest(s, i1, lo1, hi1), Rest(t, i2, lo2, hi2));
      if lo1 > hi2 {
        i2 := i2 + 1;
        if i2 < |t| {
          lo2, hi2 := t[i2].lo, t[i2].hi;
        }
        continue;
      }
      if lo2 > hi1 {
        i1 := i1 + 1;
        if i1 < |s| {
          lo1, hi1 := s[i1].lo, s[i1].hi;
        }
        continue;
      }
      var lo, hi := if lo1 > lo2 then lo1 else lo2, hi2;
      if hi1 < hi2 {
        hi := hi1;
        i1 := i1 + 1;
        if i1 < |s| {
          lo1, hi1 := s[i1].lo, s[i1].hi;
        }
      } else {
        i2 := i2 + 1;
        if i2 < |t| {
          lo2, hi2 := t[i2].lo, t[i2].hi;
        }
      }
      Push(ips, lo, hi, CommonOf(Rest(s, i1, lo1, hi1), Rest(t, i2, lo2, hi2)), whole);
    }
    CommonDone(Rest(s, i1, lo1, hi1), Rest(t, i2, lo2, hi2));
    RestOver(s, i1, lo1, hi1);
    RestOver(t, i2, lo2, hi2);
  }

  lemma CommonDone(s: seq<Range>, t: seq<Range>)
    ensures s == [] || t == [] ==> CommonOf(s, t) == []
  {
  }

  lemma RestEnd(s: seq<Range>)
    ensures forall lo: nat, hi: nat {:trigger Rest(s, |s|, lo, hi)} :: Rest(s, |s|, lo, hi) == []
  {
  }

  lemma RestOver(s: seq<Range>, i: nat, lo: nat, hi: nat)
    ensures i >= |s| ==> Rest(s, i, lo, hi) == []
  {
  }

  /** Intersection. */
  method Common(ips1: IpSet, ips2: IpSet) returns (ips: IpSet)
    requires ips1.Valid() && ips2.Valid() && ips1.max == ips2.max
    modifies ips1, ips2
    ensures Prepared(ips1, ips2) && fresh(ips) && Ready(ips) && ips.max == ips1.max && ips.counter == ips1.counter
    ensures ips.entries == CommonOf(ips1.entries, ips2.entries)
  {
    hide Prepared, Building, Good, CommonOf, Ready, From, Apart;
    Prepare(ips1, ips2);
    var s, t := ips1.entries, ips2.entries;
    CommonShape(s, t, ips1.max);
    ips := Start(ips1, CommonOf(s, t));
    if s == [] || t == [] {
      CommonDone(s, t);
      Finish(ips, CommonOf(s, t));
      return;
    }
    CommonLoop(ips, s, t);
    Finish(ips, CommonOf(s, t));
  }

  /** Copy the entries left in a list. */
  method CopyRest(ips: IpSet, s: seq<Range>, start: nat, ghost whole: seq<Range>)
    requires start <= |s| && Building(ips, s[start..], whole) && Good(whole, ips.max)
    modifies ips
    ensures Building(ips, [], whole)
  {
    hide Building, Good;
    for i := start to |s|
      invariant Building(ips, s[i..], whole)
    {
      assert s[i..] == Cons(Range(s[i].lo, s[i].hi), s[i + 1..]);
      Push(ips, s[i].lo, s[i].hi, s[i + 1..], whole);
    }
    assert s[|s|..] == [];
  }

  /** What the difference is once the part before an overlap is set aside. */
  function ExcludeOverlap(s: seq<Range>, t: seq<Range>): seq<Range>
    requires s != [] && t != []
  {
    if s[0].hi == t[0].hi then ExcludeOf(s[1..], t[1..])
    else if s[0].hi < t[0].hi then ExcludeOf(s[1..], t)
    else ExcludeOf(Cons(Range(t[0].hi + 1, s[0].hi), s[1..]), t[1..])
  }

  lemma ExcludeTurn(s: seq<Range>, t: seq<Range>)
    requires s != [] && t != []
    ensures ExcludeOf(s, t) ==
      if s[0].lo > t[0].hi then ExcludeOf(s, t[1..])
      else if t[0].lo > s[0].hi then Cons(s[0], ExcludeOf(s[1..], t))
      else Lead(s[0], t[0]) + ExcludeOverlap(s, t)
  {
  }

  lemma ExcludeDone(s: seq<Range>, t: seq<Range>)
    ensures s == [] ==> ExcludeOf(s, t) == []
    ensures t == [] ==> ExcludeOf(s, t) == s
  {
  }

  method ExcludeLoop(ips: IpSet, s: seq<Range>, t: seq<Range>)
    requires Good(s, ips.max) && Good(t, ips.max) && Building(ips, ExcludeOf(s, t), ExcludeOf(s, t)) && s != [] && t != []
    modifies ips
    ensures Building(ips, [], ExcludeOf(s, t))
  {
    hide Building, Good, ExcludeOf, ExcludeOverlap, Cons, Rest, From, Apart, Lead;
    ghost var max, whole := ips.max, ExcludeOf(s, t);
    ExcludeShape(s, t, max);
    RestStart(s, max);
    RestStart(t, max);
    var i1: nat, i2: nat := 0, 0;
    var lo1: nat, hi1: nat, lo2: nat, hi2: nat := s[0].lo, s[0].hi, t[0].lo, t[0].hi;
    while i1 < |s| && i2 < |t|
      invariant i1 <= |s| && i2 <= |t|
      invariant Building(ips, ExcludeOf(Rest(s, i1, lo1, hi1), Rest(t, i2, lo2, hi2)), whole)
      decreases |s| - i1 + |t| - i2
    {
      ghost var a, b := Rest(s, i1, lo1, hi1), Rest(t, i2, lo2, hi2);
      RestNext(s, i1, lo1, hi1, max);
      RestNext(t, i2, lo2, hi2, max);
      RestEnd(s);
      RestEnd(t);
      ExcludeTurn(a, b);
      if lo1 > hi2 {
        i2 := i2 + 1;
        if i2 < |t| {
          lo2, hi2 := t[i2].lo, t[i2].hi;
        }
        continue;
      }
      if lo2 > hi1 {
        Push(ips, lo1, hi1, ExcludeOf(a[1..], b), whole);
        i1 := i1 + 1;
        if i1 < |s| {
          lo1, hi1 := s[i1].lo, s[i1].hi;
        }
        continue;
      }
      LeadIs(Range(lo1, hi1), Range(lo2, hi2), ExcludeOverlap(a, b));
      if lo1 < lo2 {
        Push(ips, lo1, lo2 - 1, ExcludeOverlap(a, b), whole);
        lo1 := lo2;
      }
      ExcludeOverlapIs(a, b);
      if hi1 == hi2 {
        i1 := i1 + 1;
        if i1 < |s| {
          lo1, hi1 := s[i1].lo, s[i1].hi;
        }
        i2 := i2 + 1;
        if i2 < |t| {
          lo2, hi2 := t[i2].lo, t[i2].hi;
        }
      } else if hi1 < hi2 {
        i1 := i1 + 1;
        if i1 < |s| {
          lo1, hi1 := s[i1].lo, s[i1].hi;
        }
      } else {
        RestShort(s, i1, a[0].lo, hi2 + 1, hi1);
        lo1 := hi2 + 1;
        i2 := i2 + 1;
        if i2 < |t| {
          lo2, hi2 := t[i2].lo, t[i2].hi;
        }
      }
    }
    ExcludeDone(Rest(s, i1, lo1, hi1), Rest(t, i2, lo2, hi2));
    RestOver(s, i1, lo1, hi1);
    RestOver(t, i2, lo2, hi2);
    if i1 < |s| {
      RestIs(s, i1, lo1, hi1);
      Push(ips, lo1, hi1, s[i1 + 1..], whole);
      CopyRest(ips, s, i1 + 1, whole);
    }
  }

  lemma ExcludeOverlapIs(s: seq<Range>, t: seq<Range>)
    requires s != [] && t != []
    ensures ExcludeOverlap(s, t) ==
      if s[0].hi == t[0].hi then ExcludeOf(s[1..], t[1..])
      else if s[0].hi < t[0].hi then ExcludeOf(s[1..], t)
      else ExcludeOf(Cons(Range(t[0].hi + 1, s[0].hi), s[1..]), t[1..])
  {
  }

  lemma LeadIs(r: Range, q: Range, rest: seq<Range>)
    ensures Lead(r, q) + rest == if r.lo < q.lo then Cons(Range(r.lo, q.lo - 1), rest) else rest
  {
  }

  /** The entry in hand shortened from below. */
  lemma RestShort(s: seq<Range>, i: nat, lo: nat, x: nat, hi: nat)
    requires i < |s|
    ensures Rest(s, i, lo, hi) != [] && Cons(Range(x, hi), Rest(s, i, lo, hi)[1..]) == Rest(s, i, x, hi)
  {
  }

  lemma RestIs(s: seq<Range>, i: nat, lo: nat, hi: nat)
    requires i < |s|
    ensures Rest(s, i, lo, hi) == Cons(Range(lo, hi), s[i + 1..])
  {
  }

  /** Difference. */
  method Exclude(ips1: IpSet, ips2: IpSet) returns (ips: IpSet)
    requires ips1.Valid() && ips2.Valid() && ips1.max == ips2.max
    modifies ips1, ips2
    ensures Prepared(ips1, ips2) && fresh(ips) && Ready(ips) && ips.max == ips1.max && ips.counter == ips1.counter
    ensures ips.entries == ExcludeOf(ips1.entries, ips2.entries)
  {
    hide Prepared, Building, Good, ExcludeOf, Ready, From, Apart;
    Prepare(ips1, ips2);
    var s, t := ips1.entries, ips2.entries;
    ExcludeShape(s, t, ips1.max);
    ExcludeDone(s, t);
    ips := Start(ips1, ExcludeOf(s, t));
    if s == [] {
      Finish(ips, ExcludeOf(s, t));
      return;
    }
    if t == [] {
      assert s[0..] == s;
      CopyRest(ips, s, 0, ExcludeOf(s, t));
      Finish(ips, ExcludeOf(s, t));
      return;
    }
    ExcludeLoop(ips, s, t);
    Finish(ips, ExcludeOf(s, t));
  }

  /** What the symmetric difference is once the part before an overlap is set aside. */
  function DiffOverlap(s: seq<Range>, t: seq<Range>): seq<Range>
    requires s != [] && t != []
  {
    if s[0].hi > t[0].hi then DiffOf(Cons(Range(t[0].hi + 1, s[0].hi), s[1..]), t[1..])
    else if t[0].hi > s[0].hi then DiffOf(s[1..], Cons(Range(s[0].hi + 1, t[0].hi), t[1..]))
    else DiffOf(s[1..], t[1..])
  }

  lemma DiffTurn(s: seq<Range>, t: seq<Range>)
    requires s != [] && t != []
    ensures DiffOf(s, t) ==
      if s[0].lo > t[0].hi then Cons(t[0], DiffOf(s, t[1..]))
      else if t[0].lo > s[0].hi then Cons(s[0], DiffOf(s[1..], t))
      else Ahead(s[0], t[0]) + DiffOverlap(s, t)
  {
  }

  lemma DiffOverlapIs(s: seq<Range>, t: seq<Range>)
    requires s != [] && t != []
    ensures DiffOverlap(s, t) ==
      if s[0].hi > t[0].hi then DiffOf(Cons(Range(t[0].hi + 1, s[0].hi), s[1..]), t[1..])
      else if t[0].hi > s[0].hi then DiffOf(s[1..], Cons(Range(s[0].hi + 1, t[0].hi), t[1..]))
      else DiffOf(s[1..], t[1..])
  {
  }

  lemma AheadIs(r: Range, q: Range, rest: seq<Range>)
    ensures Ahead(r, q) + rest ==
      if r.lo > q.lo then Cons(Range(q.lo, r.lo - 1), rest)
      else if q.lo > r.lo then Cons(Range(r.lo, q.lo - 1), rest)
      else rest
  {
  }

  lemma DiffDone(s: seq<Range>, t: seq<Range>)
    ensures s == [] ==> DiffOf(s, t) == t
    ensures t == [] ==> DiffOf(s, t) == s
  {
  }

  method DiffLoop(ips: IpSet, s: seq<Range>, t: seq<Range>)
    requires Good(s, ips.max) && Good(t, ips.max) && Building(ips, DiffOf(s, t), DiffOf(s, t)) && s != [] && t != []
    modifies ips
    ensures Building(ips, [], DiffOf(s, t))
  {
    hide Building, Good, DiffOf, DiffOverlap, Cons, Rest, From, AfterBoth, Ahead;
    ghost var max, whole := ips.max, DiffOf(s, t);
    DiffShape(s, t, max);
    RestStart(s, max);
    RestStart(t, max);
    var i1: nat, i2: nat := 0, 0;
    var lo1: nat, hi1: nat, lo2: nat, hi2: nat := s[0].lo, s[0].hi, t[0].lo, t[0].hi;
    while i1 < |s| && i2 < |t|
      invariant i1 <= |s| && i2 <= |t|
      invariant Building(ips, DiffOf(Rest(s, i1, lo1, hi1), Rest(t, i2, lo2, hi2)), whole)
      decreases |s| - i1 + |t| - i2
    {
      ghost var a, b := Rest(s, i1, lo1, hi1), Rest(t, i2, lo2, hi2);
      RestNext(s, i1, lo1, hi1, max);
      RestNext(t, i2, lo2, hi2, max);
      RestEnd(s);
      RestEnd(t);
      DiffTurn(a, b);
      if lo1 > hi2 {
        Push(ips, lo2, hi2, DiffOf(a, b[1..]), whole);
        i2 := i2 + 1;
        if i2 < |t| {
          lo2, hi2 := t[i2].lo, t[i2].hi;
        }
        continue;
      }
      if lo2 > hi1 {
        Push(ips, lo1, hi1, DiffOf(a[1..], b), whole);
        i1 := i1 + 1;
        if i1 < |s| {
          lo1, hi1 := s[i1].lo, s[i1].hi;
        }
        continue;
      }
      AheadIs(Range(lo1, hi1), Range(lo2, hi2), DiffOverlap(a, b));
      if lo1 > lo2 {
        Push(ips, lo2, lo1 - 1, DiffOverlap(a, b), whole);
      } else if lo2 > lo1 {
        Push(ips, lo1, lo2 - 1, DiffOverlap(a, b), whole);
      }
      DiffOverlapIs(a, b);
      if hi1 > hi2 {
        RestShort(s, i1, lo1, hi2 + 1, hi1);
        lo1 := hi2 + 1;
        i2 := i2 + 1;
        if i2 < |t| {
          lo2, hi2 := t[i2].lo, t[i2].hi;
        }
      } else if hi2 > hi1 {
        RestShort(t, i2, lo2, hi1 + 1, hi2);
        lo2 := hi1 + 1;
        i1 := i1 + 1;
        if i1 < |s| {
          lo1, hi1 := s[i1].lo, s[i1].hi;
        }
      } else {
        i1 := i1 + 1;
        if i1 < |s| {
          lo1, hi1 := s[i1].lo, s[i1].hi;
        }
        i2 := i2 + 1;
        if i2 < |t| {
          lo2, hi2 := t[i2].lo, t[i2].hi;
        }
      }
    }
    DiffDone(Rest(s, i1, lo1, hi1), Rest(t, i2, lo2, hi2));
    RestOver(s, i1, lo1, hi1);
    RestOver(t, i2, lo2, hi2);
    if i1 < |s| {
      RestIs(s, i1, lo1, hi1);
      Push(ips, lo1, hi1, s[i1 + 1..], whole);
      CopyRest(ips, s, i1 + 1, whole);
    } else if i2 < |t| {
      RestIs(t, i2, lo2, hi2);
      Push(ips, lo2, hi2, t[i2 + 1..], whole);
      CopyRest(ips, t, i2 + 1, whole);
    }
  }

  /** Symmetric difference. */
  method Diff(ips1: IpSet, ips2: IpSet) returns (ips: IpSet)
    requires ips1.Valid() && ips2.Valid() && ips1.max == ips2.max
    modifies ips1, ips2
    ensures Prepared(ips1, ips2) && fresh(ips) && Ready(ips) && ips.max == ips1.max && ips.counter == ips1.counter
    ensures ips.entries == DiffOf(ips1.entries, ips2.entries)
  {
    hide Prepared, Building, Good, DiffOf, Ready, AfterBoth;
    Prepare(ips1, ips2);
    var s, t := ips1.entries, ips2.entries;
    DiffShape(s, t, ips1.max);
    DiffDone(s, t);
    ips := Start(ips1, DiffOf(s, t));
    if s == [] {
      assert t[0..] == t;
      CopyRest(ips, t, 0, DiffOf(s, t));
      Finish(ips, DiffOf(s, t));
      return;
    }
    if t == [] {
      assert s[0..] == s;
      CopyRest(ips, s, 0, DiffOf(s, t));
      Finish(ips, DiffOf(s, t));
      return;
    }
    DiffLoop(ips, s, t);
    Finish(ips, DiffOf(s, t));
  }
}
