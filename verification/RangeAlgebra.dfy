/**
 The two-pointer set operations as recursion over range lists whose heads shrink
 (src/ipset_common.c, src/ipset_exclude.c, src/ipset_diff.c), and what they denote.
 */
module RangeAlgebra {
  import opened Ranges

  function Cons(r: Range, s: seq<Range>): seq<Range> {
    [r] + s
  }

  lemma HasCons(r: Range, s: seq<Range>, a: nat)
    ensures Has(Cons(r, s), a) <==> r.lo <= a <= r.hi || Has(s, a)
  {
    HasConcat([r], s, a);
    assert At([r], 0, a) <==> r.lo <= a <= r.hi;
  }

  lemma HasTail(s: seq<Range>, a: nat)
    requires s != []
    ensures Has(s, a) <==> s[0].lo <= a <= s[0].hi || Has(s[1..], a)
  {
    assert s == Cons(s[0], s[1..]);
    HasCons(s[0], s[1..], a);
  }

  /** Every range starts at `x` or later. */
  predicate From(s: seq<Range>, x: nat) {
    forall i {:trigger s[i]} :: 0 <= i < |s| ==> x <= s[i].lo
  }

  lemma FromHas(s: seq<Range>, x: nat, a: nat)
    requires From(s, x) && a < x
    ensures !Has(s, a)
  {
  }

  /** A range list as the loops hold it: well formed and sorted. */
  predicate Good(s: seq<Range>, max: nat) {
    RangesOk(s, max) && Sorted(s)
  }

  lemma GoodTail(s: seq<Range>, max: nat)
    requires Good(s, max) && s != []
    ensures Good(s[1..], max) && From(s[1..], s[0].hi + 1) && (Apart(s) ==> Apart(s[1..]) && From(s[1..], s[0].hi + 2)) && From(s, s[0].lo)
  {
  }

  lemma GoodCons(r: Range, s: seq<Range>, max: nat)
    requires RangeOk(r, max) && Good(s, max) && From(s, r.hi + 1)
    ensures Good(Cons(r, s), max) && From(Cons(r, s), r.lo)
    ensures Apart(s) && From(s, r.hi + 2) ==> Apart(Cons(r, s))
  {
  }

  function Later(a: nat, b: nat): nat {
    if a > b then a else b
  }

  function Earlier(a: nat, b: nat): nat {
    if a < b then a else b
  }

  // ----- intersection

  function CommonOf(s: seq<Range>, t: seq<Range>): seq<Range>
    decreases |s| + |t|
  {
    if s == [] || t == [] then []
    else if s[0].lo > t[0].hi then CommonOf(s, t[1..])
    else if t[0].lo > s[0].hi then CommonOf(s[1..], t)
    else if s[0].hi < t[0].hi then Cons(Range(Later(s[0].lo, t[0].lo), s[0].hi), CommonOf(s[1..], t))
    else Cons(Range(Later(s[0].lo, t[0].lo), t[0].hi), CommonOf(s, t[1..]))
  }

  lemma {:induction false} CommonShape(s: seq<Range>, t: seq<Range>, max: nat)
    requires Good(s, max) && Good(t, max)
    ensures Good(CommonOf(s, t), max)
    ensures s != [] ==> From(CommonOf(s, t), s[0].lo)
    ensures t != [] ==> From(CommonOf(s, t), t[0].lo)
    ensures Apart(s) && Apart(t) ==> Apart(CommonOf(s, t))
    decreases |s| + |t|
  {
    hide Sorted, Apart;
    if s != [] && t != [] {
      GoodTail(s, max);
      GoodTail(t, max);
      if s[0].lo > t[0].hi {
        CommonShape(s, t[1..], max);
      } else if t[0].lo > s[0].hi {
        CommonShape(s[1..], t, max);
      } else if s[0].hi < t[0].hi {
        CommonShape(s[1..], t, max);
        Starts(CommonOf(s[1..], t), s[1..], t, s[0].hi + 1);
        if Apart(s) { Starts(CommonOf(s[1..], t), s[1..], t, s[0].hi + 2); }
        GoodCons(Range(Later(s[0].lo, t[0].lo), s[0].hi), CommonOf(s[1..], t), max);
      } else {
        CommonShape(s, t[1..], max);
        Starts(CommonOf(s, t[1..]), t[1..], s, t[0].hi + 1);
        if Apart(t) { Starts(CommonOf(s, t[1..]), t[1..], s, t[0].hi + 2); }
        GoodCons(Range(Later(s[0].lo, t[0].lo), t[0].hi), CommonOf(s, t[1..]), max);
      }
    } else {
      Nothing(max);
    }
  }

  lemma Nothing(max: nat)
    ensures Good([], max) && Apart([])
  {
  }

  lemma Starts(r: seq<Range>, s: seq<Range>, t: seq<Range>, x: nat)
    requires From(s, x) && (s == [] || t == [] ==> r == []) && (s != [] ==> From(r, s[0].lo))
    ensures From(r, x)
  {
  }

  lemma {:induction false} CommonMeans(s: seq<Range>, t: seq<Range>, a: nat, max: nat)
    requires Good(s, max) && Good(t, max)
    ensures Has(CommonOf(s, t), a) <==> Has(s, a) && Has(t, a)
    decreases |s| + |t|
  {
    hide Has, Sorted;
    if s == [] || t == [] {
      NoneHeld(a);
    } else {
      GoodTail(s, max);
      GoodTail(t, max);
      HasTail(s, a);
      HasTail(t, a);
      Before(s, a);
      Before(t, a);
      Before(s[1..], a);
      Before(t[1..], a);
      if s[0].lo > t[0].hi {
        CommonMeans(s, t[1..], a, max);
      } else if t[0].lo > s[0].hi {
        CommonMeans(s[1..], t, a, max);
      } else if s[0].hi < t[0].hi {
        CommonMeans(s[1..], t, a, max);
        HasCons(Range(Later(s[0].lo, t[0].lo), s[0].hi), CommonOf(s[1..], t), a);
        FromEither(s[1..], s[0].hi + 1, a);
        FromEither(t[1..], t[0].hi + 1, a);
      } else {
        CommonMeans(s, t[1..], a, max);
        HasCons(Range(Later(s[0].lo, t[0].lo), t[0].hi), CommonOf(s, t[1..]), a);
        FromEither(s[1..], s[0].hi + 1, a);
        FromEither(t[1..], t[0].hi + 1, a);
      }
    }
  }

  lemma NoneHeld(a: nat)
    ensures !Has([], a)
  {
  }

  lemma FromEither(s: seq<Range>, x: nat, a: nat)
    requires From(s, x)
    ensures a < x ==> !Has(s, a)
  {
    if a < x {
      FromHas(s, x, a);
    }
  }

  lemma Before(s: seq<Range>, a: nat)
    requires Sorted(s)
    ensures s != [] && a < s[0].lo && s[0].lo <= s[0].hi ==> !Has(s, a)
  {
  }

  // ----- difference

  /** The part of the first range before the second. */
  function Lead(r: Range, q: Range): seq<Range> {
    if r.lo < q.lo then [Range(r.lo, q.lo - 1)] else []
  }

  function ExcludeOf(s: seq<Range>, t: seq<Range>): seq<Range>
    decreases |s| + |t|
  {
    if s == [] then []
    else if t == [] then s
    else if s[0].lo > t[0].hi then ExcludeOf(s, t[1..])
    else if t[0].lo > s[0].hi then Cons(s[0], ExcludeOf(s[1..], t))
    else if s[0].hi == t[0].hi then Lead(s[0], t[0]) + ExcludeOf(s[1..], t[1..])
    else if s[0].hi < t[0].hi then Lead(s[0], t[0]) + ExcludeOf(s[1..], t)
    else Lead(s[0], t[0]) + ExcludeOf(Cons(Range(t[0].hi + 1, s[0].hi), s[1..]), t[1..])
  }

  /** What remains of a range list once its head is shortened from below. */
  lemma GoodRest(s: seq<Range>, lo: nat, max: nat)
    requires Good(s, max) && s != [] && s[0].lo <= lo <= s[0].hi
    ensures Good(Cons(Range(lo, s[0].hi), s[1..]), max) && From(Cons(Range(lo, s[0].hi), s[1..]), lo)
    ensures Apart(s) ==> Apart(Cons(Range(lo, s[0].hi), s[1..]))
  {
    hide Apart, Sorted;
    GoodTail(s, max);
    GoodCons(Range(lo, s[0].hi), s[1..], max);
  }

  lemma LeadShape(r: Range, q: Range, rest: seq<Range>, max: nat)
    requires RangeOk(r, max) && RangeOk(q, max) && q.lo <= r.hi && r.lo <= q.hi
    requires Good(rest, max) && From(rest, Earlier(r.hi, q.hi) + 1)
    ensures Good(Lead(r, q) + rest, max) && From(Lead(r, q) + rest, r.lo)
    ensures Apart(rest) ==> Apart(Lead(r, q) + rest)
  {
    hide Apart, Sorted;
    if r.lo < q.lo {
      GoodCons(Range(r.lo, q.lo - 1), rest, max);
    } else {
      assert Lead(r, q) + rest == rest;
    }
  }

  lemma LeadMeans(r: Range, q: Range, rest: seq<Range>, a: nat)
    requires q.lo <= r.hi
    ensures Has(Lead(r, q) + rest, a) <==> (r.lo <= a < q.lo && a <= r.hi) || Has(rest, a)
  {
    hide Has;
    if r.lo < q.lo {
      HasCons(Range(r.lo, q.lo - 1), rest, a);
    } else {
      assert Lead(r, q) + rest == rest;
    }
  }

  lemma {:induction false} ExcludeShape(s: seq<Range>, t: seq<Range>, max: nat)
    requires Good(s, max) && Good(t, max)
    ensures Good(ExcludeOf(s, t), max)
    ensures if s != [] then From(ExcludeOf(s, t), s[0].lo) else ExcludeOf(s, t) == []
    ensures Apart(s) ==> Apart(ExcludeOf(s, t))
    decreases |s| + |t|
  {
    hide Sorted, Apart;
    if s == [] {
      Nothing(max);
    } else if t == [] {
      GoodTail(s, max);
    } else {
      GoodTail(s, max);
      GoodTail(t, max);
      if s[0].lo > t[0].hi {
        ExcludeShape(s, t[1..], max);
      } else if t[0].lo > s[0].hi {
        ExcludeShape(s[1..], t, max);
        Follows(ExcludeOf(s[1..], t), s[1..], s[0].hi + 1);
        if Apart(s) { Follows(ExcludeOf(s[1..], t), s[1..], s[0].hi + 2); }
        GoodCons(s[0], ExcludeOf(s[1..], t), max);
      } else if s[0].hi == t[0].hi {
        ExcludeShape(s[1..], t[1..], max);
        Follows(ExcludeOf(s[1..], t[1..]), s[1..], s[0].hi + 1);
        LeadShape(s[0], t[0], ExcludeOf(s[1..], t[1..]), max);
      } else if s[0].hi < t[0].hi {
        ExcludeShape(s[1..], t, max);
        Follows(ExcludeOf(s[1..], t), s[1..], s[0].hi + 1);
        LeadShape(s[0], t[0], ExcludeOf(s[1..], t), max);
      } else {
        var rest := Cons(Range(t[0].hi + 1, s[0].hi), s[1..]);
        GoodRest(s, t[0].hi + 1, max);
        ExcludeShape(rest, t[1..], max);
        LeadShape(s[0], t[0], ExcludeOf(rest, t[1..]), max);
      }
    }
  }

  lemma Follows(r: seq<Range>, s: seq<Range>, x: nat)
    requires From(s, x) && if s != [] then From(r, s[0].lo) else r == []
    ensures From(r, x)
  {
  }

  lemma {:induction false} ExcludeMeans(s: seq<Range>, t: seq<Range>, a: nat, max: nat)
    requires Good(s, max) && Good(t, max)
    ensures Has(ExcludeOf(s, t), a) <==> Has(s, a) && !Has(t, a)
    decreases |s| + |t|
  {
    hide Has, Sorted;
    NoneHeld(a);
    if s != [] && t != [] {
      GoodTail(s, max);
      GoodTail(t, max);
      HasTail(s, a);
      HasTail(t, a);
      FromEither(s[1..], s[0].hi + 1, a);
      FromEither(t[1..], t[0].hi + 1, a);
      if s[0].lo > t[0].hi {
        FromEither(s, s[0].lo, a);
        ExcludeMeans(s, t[1..], a, max);
      } else if t[0].lo > s[0].hi {
        FromEither(t, t[0].lo, a);
        ExcludeMeans(s[1..], t, a, max);
        HasCons(s[0], ExcludeOf(s[1..], t), a);
      } else if s[0].hi == t[0].hi {
        ExcludeMeans(s[1..], t[1..], a, max);
        LeadMeans(s[0], t[0], ExcludeOf(s[1..], t[1..]), a);
      } else if s[0].hi < t[0].hi {
        ExcludeMeans(s[1..], t, a, max);
        LeadMeans(s[0], t[0], ExcludeOf(s[1..], t), a);
      } else {
        var rest := Cons(Range(t[0].hi + 1, s[0].hi), s[1..]);
        GoodRest(s, t[0].hi + 1, max);
        HasCons(Range(t[0].hi + 1, s[0].hi), s[1..], a);
        ExcludeMeans(rest, t[1..], a, max);
        LeadMeans(s[0], t[0], ExcludeOf(rest, t[1..]), a);
      }
    }
  }

  // ----- symmetric difference

  /** The part of either range before both meet. */
  function Ahead(r: Range, q: Range): seq<Range> {
    if r.lo > q.lo then [Range(q.lo, r.lo - 1)]
    else if q.lo > r.lo then [Range(r.lo, q.lo - 1)]
    else []
  }

  function DiffOf(s: seq<Range>, t: seq<Range>): seq<Range>
    decreases |s| + |t|
  {
    if s == [] then t
    else if t == [] then s
    else if s[0].lo > t[0].hi then Cons(t[0], DiffOf(s, t[1..]))
    else if t[0].lo > s[0].hi then Cons(s[0], DiffOf(s[1..], t))
    else if s[0].hi > t[0].hi then Ahead(s[0], t[0]) + DiffOf(Cons(Range(t[0].hi + 1, s[0].hi), s[1..]), t[1..])
    else if t[0].hi > s[0].hi then Ahead(s[0], t[0]) + DiffOf(s[1..], Cons(Range(s[0].hi + 1, t[0].hi), t[1..]))
    else Ahead(s[0], t[0]) + DiffOf(s[1..], t[1..])
  }

  lemma AheadShape(r: Range, q: Range, rest: seq<Range>, max: nat)
    requires RangeOk(r, max) && RangeOk(q, max) && q.lo <= r.hi && r.lo <= q.hi
    requires Good(rest, max) && From(rest, Earlier(r.hi, q.hi) + 1)
    ensures Good(Ahead(r, q) + rest, max) && From(Ahead(r, q) + rest, Earlier(r.lo, q.lo))
  {
    hide Sorted;
    if r.lo == q.lo {
      assert Ahead(r, q) + rest == rest;
    } else {
      GoodCons(Ahead(r, q)[0], rest, max);
      assert Ahead(r, q) + rest == Cons(Ahead(r, q)[0], rest);
    }
  }

  lemma AheadMeans(r: Range, q: Range, rest: seq<Range>, a: nat)
    ensures Has(Ahead(r, q) + rest, a) <==> Earlier(r.lo, q.lo) <= a < Later(r.lo, q.lo) || Has(rest, a)
  {
    hide Has;
    if r.lo == q.lo {
      assert Ahead(r, q) + rest == rest;
    } else {
      HasCons(Ahead(r, q)[0], rest, a);
      assert Ahead(r, q) + rest == Cons(Ahead(r, q)[0], rest);
    }
  }

  /** The result starts no earlier than either list. */
  predicate AfterBoth(r: seq<Range>, s: seq<Range>, t: seq<Range>) {
    if s == [] && t == [] then r == []
    else if s == [] then From(r, t[0].lo)
    else if t == [] then From(r, s[0].lo)
    else From(r, Earlier(s[0].lo, t[0].lo))
  }

  lemma After(r: seq<Range>, s: seq<Range>, t: seq<Range>, x: nat)
    requires AfterBoth(r, s, t) && From(s, x) && From(t, x)
    ensures From(r, x)
  {
  }

  lemma {:induction false} DiffShape(s: seq<Range>, t: seq<Range>, max: nat)
    requires Good(s, max) && Good(t, max)
    ensures Good(DiffOf(s, t), max) && AfterBoth(DiffOf(s, t), s, t)
    decreases |s| + |t|
  {
    hide Sorted;
    if s == [] {
      if t != [] { GoodTail(t, max); }
    } else if t == [] {
      GoodTail(s, max);
    } else {
      GoodTail(s, max);
      GoodTail(t, max);
      if s[0].lo > t[0].hi {
        DiffShape(s, t[1..], max);
        After(DiffOf(s, t[1..]), s, t[1..], t[0].hi + 1);
        GoodCons(t[0], DiffOf(s, t[1..]), max);
      } else if t[0].lo > s[0].hi {
        DiffShape(s[1..], t, max);
        After(DiffOf(s[1..], t), s[1..], t, s[0].hi + 1);
        GoodCons(s[0], DiffOf(s[1..], t), max);
      } else if s[0].hi > t[0].hi {
        var rest := Cons(Range(t[0].hi + 1, s[0].hi), s[1..]);
        GoodRest(s, t[0].hi + 1, max);
        DiffShape(rest, t[1..], max);
        After(DiffOf(rest, t[1..]), rest, t[1..], t[0].hi + 1);
        AheadShape(s[0], t[0], DiffOf(rest, t[1..]), max);
      } else if t[0].hi > s[0].hi {
        var rest := Cons(Range(s[0].hi + 1, t[0].hi), t[1..]);
        GoodRest(t, s[0].hi + 1, max);
        DiffShape(s[1..], rest, max);
        After(DiffOf(s[1..], rest), s[1..], rest, s[0].hi + 1);
        AheadShape(s[0], t[0], DiffOf(s[1..], rest), max);
      } else {
        DiffShape(s[1..], t[1..], max);
        After(DiffOf(s[1..], t[1..]), s[1..], t[1..], s[0].hi + 1);
        AheadShape(s[0], t[0], DiffOf(s[1..], t[1..]), max);
      }
    }
  }

  lemma {:induction false} DiffMeans(s: seq<Range>, t: seq<Range>, a: nat, max: nat)
    requires Good(s, max) && Good(t, max)
    ensures Has(DiffOf(s, t), a) <==> (Has(s, a) <==> !Has(t, a))
    decreases |s| + |t|
  {
    hide Has, Sorted;
    NoneHeld(a);
    if s != [] && t != [] {
      GoodTail(s, max);
      GoodTail(t, max);
      HasTail(s, a);
      HasTail(t, a);
      FromEither(s[1..], s[0].hi + 1, a);
      FromEither(t[1..], t[0].hi + 1, a);
      if s[0].lo > t[0].hi {
        FromEither(s, s[0].lo, a);
        DiffMeans(s, t[1..], a, max);
        HasCons(t[0], DiffOf(s, t[1..]), a);
      } else if t[0].lo > s[0].hi {
        FromEither(t, t[0].lo, a);
        DiffMeans(s[1..], t, a, max);
        HasCons(s[0], DiffOf(s[1..], t), a);
      } else if s[0].hi > t[0].hi {
        var rest := Cons(Range(t[0].hi + 1, s[0].hi), s[1..]);
        GoodRest(s, t[0].hi + 1, max);
        HasCons(Range(t[0].hi + 1, s[0].hi), s[1..], a);
        DiffMeans(rest, t[1..], a, max);
        AheadMeans(s[0], t[0], DiffOf(rest, t[1..]), a);
      } else if t[0].hi > s[0].hi {
        var rest := Cons(Range(s[0].hi + 1, t[0].hi), t[1..]);
        GoodRest(t, s[0].hi + 1, max);
        HasCons(Range(s[0].hi + 1, t[0].hi), t[1..], a);
        DiffMeans(s[1..], rest, a, max);
        AheadMeans(s[0], t[0], DiffOf(s[1..], rest), a);
      } else {
        DiffMeans(s[1..], t[1..], a, max);
        AheadMeans(s[0], t[0], DiffOf(s[1..], t[1..]), a);
      }
    }
  }

  /** Symmetric difference may leave two ranges touching: it never joins what it appends. */
  lemma DiffTouches()
    ensures
      var s, t := [Range(0, 1)], [Range(2, 3)];
      Good(s, 3) && Good(t, 3) && Apart(s) && Apart(t) && DiffOf(s, t) == [Range(0, 1), Range(2, 3)] && !Apart(DiffOf(s, t))
  {
    var s, t := [Range(0, 1)], [Range(2, 3)];
    assert DiffOf(s[1..], t) == t;
    var r := DiffOf(s, t);
    assert r == [Range(0, 1), Range(2, 3)];
    assert r[0].hi + 1 == r[1].lo;
  }

  // ----- exactly when the symmetric difference has touching ranges

  /** No range of one list ends just before a range of the other starts. */
  predicate NoSeam(s: seq<Range>, t: seq<Range>) {
    forall i, j {:trigger s[i], t[j]} :: 0 <= i < |s| && 0 <= j < |t| ==> s[i].hi + 1 != t[j].lo && t[j].hi + 1 != s[i].lo
  }

  lemma NoSeamRest(s: seq<Range>, t: seq<Range>, lo: nat, max: nat)
    requires Good(s, max) && Good(t, max) && NoSeam(s, t) && s != [] && t != []
    requires Apart(t) && s[0].lo <= lo <= s[0].hi && lo == t[0].hi + 1
    ensures NoSeam(Cons(Range(lo, s[0].hi), s[1..]), t[1..])
  {
    var rest := Cons(Range(lo, s[0].hi), s[1..]);
    forall i, j | 0 <= i < |rest| && 0 <= j < |t[1..]|
      ensures rest[i].hi + 1 != t[1..][j].lo && t[1..][j].hi + 1 != rest[i].lo
    {
      assert rest[i].hi == s[i].hi && t[1..][j] == t[j + 1] && (i > 0 ==> rest[i] == s[i]);
      assert t[0].hi + 1 < t[j + 1].lo;
    }
  }

  lemma NoSeamSwap(s: seq<Range>, t: seq<Range>)
    requires NoSeam(s, t)
    ensures NoSeam(t, s)
  {
  }

  lemma NoSeamTail(s: seq<Range>, t: seq<Range>)
    requires NoSeam(s, t)
    ensures s != [] ==> NoSeam(s[1..], t)
    ensures t != [] ==> NoSeam(s, t[1..])
    ensures s != [] && t != [] ==> NoSeam(s[1..], t[1..])
  {
  }

  lemma AheadApart(r: Range, q: Range, rest: seq<Range>, max: nat)
    requires RangeOk(r, max) && RangeOk(q, max) && q.lo <= r.hi && r.lo <= q.hi
    requires Good(rest, max) && From(rest, Earlier(r.hi, q.hi) + 1) && Apart(rest)
    ensures Apart(Ahead(r, q) + rest)
  {
    hide Sorted, Apart;
    if r.lo == q.lo {
      assert Ahead(r, q) + rest == rest;
    } else {
      GoodCons(Ahead(r, q)[0], rest, max);
      assert Ahead(r, q) + rest == Cons(Ahead(r, q)[0], rest);
    }
  }

  lemma {:induction false} SeamlessApart(s: seq<Range>, t: seq<Range>, max: nat)
    requires Good(s, max) && Good(t, max) && Apart(s) && Apart(t) && NoSeam(s, t)
    ensures Apart(DiffOf(s, t))
    decreases |s| + |t|
  {
    hide Sorted, Apart;
    if s != [] && t != [] {
      GoodTail(s, max);
      GoodTail(t, max);
      NoSeamTail(s, t);
      if s[0].lo > t[0].hi {
        SeamlessApart(s, t[1..], max);
        DiffShape(s, t[1..], max);
        After(DiffOf(s, t[1..]), s, t[1..], t[0].hi + 2);
        GoodCons(t[0], DiffOf(s, t[1..]), max);
      } else if t[0].lo > s[0].hi {
        SeamlessApart(s[1..], t, max);
        DiffShape(s[1..], t, max);
        After(DiffOf(s[1..], t), s[1..], t, s[0].hi + 2);
        GoodCons(s[0], DiffOf(s[1..], t), max);
      } else if s[0].hi > t[0].hi {
        var rest := Cons(Range(t[0].hi + 1, s[0].hi), s[1..]);
        GoodRest(s, t[0].hi + 1, max);
        NoSeamRest(s, t, t[0].hi + 1, max);
        SeamlessApart(rest, t[1..], max);
        DiffShape(rest, t[1..], max);
        After(DiffOf(rest, t[1..]), rest, t[1..], t[0].hi + 1);
        AheadApart(s[0], t[0], DiffOf(rest, t[1..]), max);
      } else if t[0].hi > s[0].hi {
        var rest := Cons(Range(s[0].hi + 1, t[0].hi), t[1..]);
        GoodRest(t, s[0].hi + 1, max);
        NoSeamSwap(s, t);
        NoSeamRest(t, s, s[0].hi + 1, max);
        NoSeamSwap(rest, s[1..]);
        SeamlessApart(s[1..], rest, max);
        DiffShape(s[1..], rest, max);
        After(DiffOf(s[1..], rest), s[1..], rest, s[0].hi + 1);
        AheadApart(s[0], t[0], DiffOf(s[1..], rest), max);
      } else {
        SeamlessApart(s[1..], t[1..], max);
        DiffShape(s[1..], t[1..], max);
        After(DiffOf(s[1..], t[1..]), s[1..], t[1..], s[0].hi + 1);
        AheadApart(s[0], t[0], DiffOf(s[1..], t[1..]), max);
      }
    }
  }

  /** Within each range of the list, membership in `s` does not change. */
  ghost predicate Pure(r: seq<Range>, s: seq<Range>) {
    forall k: nat, a: nat {:trigger At(r, k, a)} :: At(r, k, a) ==> (Has(s, a) <==> Has(s, r[k].lo))
  }

  lemma PureCons(q: Range, r: seq<Range>, s: seq<Range>, held: bool)
    requires Pure(r, s) && forall a: nat :: q.lo <= a <= q.hi ==> (Has(s, a) <==> held)
    ensures Pure(Cons(q, r), s)
  {
    forall k: nat, a: nat | At(Cons(q, r), k, a)
      ensures Has(s, a) <==> Has(s, Cons(q, r)[k].lo)
    {
      if k > 0 {
        assert At(r, k - 1, a);
      }
    }
  }

  /** Two lists that agree from `x` on divide the later ranges alike. */
  lemma PureFrom(r: seq<Range>, s: seq<Range>, t: seq<Range>, x: nat, max: nat)
    requires Pure(r, s) && From(r, x) && RangesOk(r, max)
    requires forall a: nat :: a >= x ==> (Has(s, a) <==> Has(t, a))
    ensures Pure(r, t)
  {
    hide Has;
    forall k: nat, a: nat | At(r, k, a)
      ensures Has(t, a) <==> Has(t, r[k].lo)
    {
      assert r[k].lo <= a && x <= r[k].lo;
      assert Has(s, a) <==> Has(s, r[k].lo);
    }
  }

  lemma PureAhead(r: Range, q: Range, rest: seq<Range>, s: seq<Range>, max: nat)
    requires Good(s, max) && s != [] && s[0] == r && q.lo <= r.hi && r.lo <= r.hi && Pure(rest, s)
    ensures Pure(Ahead(r, q) + rest, s)
  {
    hide Has;
    GoodTail(s, max);
    if r.lo == q.lo {
      assert Ahead(r, q) + rest == rest;
    } else {
      var lead := Ahead(r, q)[0];
      forall a: nat | lead.lo <= a <= lead.hi
        ensures Has(s, a) <==> r.lo < q.lo
      {
        HasTail(s, a);
        FromEither(s[1..], r.hi + 1, a);
      }
      PureCons(lead, rest, s, r.lo < q.lo);
      assert Ahead(r, q) + rest == Cons(lead, rest);
    }
  }

  lemma SameAfter(s: seq<Range>, lo: nat, a: nat)
    requires s != [] && s[0].lo <= lo <= s[0].hi && lo <= a
    ensures Has(Cons(Range(lo, s[0].hi), s[1..]), a) <==> Has(s, a)
  {
    HasTail(s, a);
    HasCons(Range(lo, s[0].hi), s[1..], a);
  }

  lemma SameTail(s: seq<Range>, a: nat)
    requires s != [] && s[0].hi < a
    ensures Has(s[1..], a) <==> Has(s, a)
  {
    HasTail(s, a);
  }

  lemma {:induction false} DiffPure(s: seq<Range>, t: seq<Range>, max: nat)
    requires Good(s, max) && Good(t, max)
    ensures Pure(DiffOf(s, t), s)
    decreases |s| + |t|
  {
    hide Has, Sorted, Pure;
    if s == [] {
      PureNone(t);
    } else if t == [] {
      PureSelf(s, max);
    } else {
      GoodTail(s, max);
      GoodTail(t, max);
      if s[0].lo > t[0].hi {
        DiffPure(s, t[1..], max);
        forall a: nat | t[0].lo <= a <= t[0].hi ensures !Has(s, a) { FromEither(s, s[0].lo, a); }
        PureCons(t[0], DiffOf(s, t[1..]), s, false);
      } else if t[0].lo > s[0].hi {
        DiffPure(s[1..], t, max);
        DiffShape(s[1..], t, max);
        After(DiffOf(s[1..], t), s[1..], t, s[0].hi + 1);
        Rebase(DiffOf(s[1..], t), s[1..], s, s[0].hi + 1, max);
        forall a: nat | s[0].lo <= a <= s[0].hi ensures Has(s, a) { HasTail(s, a); }
        PureCons(s[0], DiffOf(s[1..], t), s, true);
      } else {
        DiffPureOverlap(s, t, max);
      }
    }
  }

  lemma PureNone(t: seq<Range>)
    ensures Pure(t, [])
  {
  }

  lemma PureSelf(s: seq<Range>, max: nat)
    requires RangesOk(s, max)
    ensures Pure(s, s)
  {
    forall k: nat, a: nat | At(s, k, a)
      ensures Has(s, a) <==> Has(s, s[k].lo)
    {
      assert At(s, k, s[k].lo);
    }
  }

  lemma Rebase(r: seq<Range>, rest: seq<Range>, s: seq<Range>, x: nat, max: nat)
    requires Good(s, max) && s != [] && Pure(r, rest) && From(r, x) && RangesOk(r, max)
    requires (rest == s[1..] && x > s[0].hi) || (rest == Cons(Range(x, s[0].hi), s[1..]) && s[0].lo <= x <= s[0].hi)
    ensures Pure(r, s)
  {
    hide Has;
    forall a: nat | a >= x
      ensures Has(rest, a) <==> Has(s, a)
    {
      if rest == s[1..] && x > s[0].hi {
        SameTail(s, a);
      } else {
        SameAfter(s, x, a);
      }
    }
    PureFrom(r, rest, s, x, max);
  }

  lemma {:induction false} DiffPureOverlap(s: seq<Range>, t: seq<Range>, max: nat)
    requires Good(s, max) && Good(t, max) && s != [] && t != [] && s[0].lo <= t[0].hi && t[0].lo <= s[0].hi
    ensures Pure(DiffOf(s, t), s)
    decreases |s| + |t|, 0
  {
    hide Has, Sorted, Pure;
    GoodTail(s, max);
    GoodTail(t, max);
    if s[0].hi > t[0].hi {
      var rest := Cons(Range(t[0].hi + 1, s[0].hi), s[1..]);
      GoodRest(s, t[0].hi + 1, max);
      DiffPure(rest, t[1..], max);
      DiffShape(rest, t[1..], max);
      After(DiffOf(rest, t[1..]), rest, t[1..], t[0].hi + 1);
      Rebase(DiffOf(rest, t[1..]), rest, s, t[0].hi + 1, max);
      PureAhead(s[0], t[0], DiffOf(rest, t[1..]), s, max);
    } else {
      var rest := if t[0].hi > s[0].hi then Cons(Range(s[0].hi + 1, t[0].hi), t[1..]) else t[1..];
      if t[0].hi > s[0].hi { GoodRest(t, s[0].hi + 1, max); }
      DiffPure(s[1..], rest, max);
      DiffShape(s[1..], rest, max);
      After(DiffOf(s[1..], rest), s[1..], rest, s[0].hi + 1);
      Rebase(DiffOf(s[1..], rest), s[1..], s, s[0].hi + 1, max);
      PureAhead(s[0], t[0], DiffOf(s[1..], rest), s, max);
    }
  }

  /** For inputs without touching ranges: the result has none if and only if the inputs have no seam. */
  lemma DiffApart(s: seq<Range>, t: seq<Range>, max: nat)
    requires Good(s, max) && Good(t, max) && Apart(s) && Apart(t)
    ensures Apart(DiffOf(s, t)) <==> NoSeam(s, t)
  {
    if NoSeam(s, t) {
      SeamlessApart(s, t, max);
    } else {
      var i, j :| 0 <= i < |s| && 0 <= j < |t| && (s[i].hi + 1 == t[j].lo || t[j].hi + 1 == s[i].lo);
      SeamTouches(s, t, i, j, max);
    }
  }

  lemma SeamTouches(s: seq<Range>, t: seq<Range>, i: nat, j: nat, max: nat)
    requires Good(s, max) && Good(t, max) && Apart(s) && Apart(t) && i < |s| && j < |t|
    requires s[i].hi + 1 == t[j].lo || t[j].hi + 1 == s[i].lo
    ensures !Apart(DiffOf(s, t))
  {
    hide Has, Sorted, Pure, Apart, DiffOf, AfterBoth;
    var x := if s[i].hi + 1 == t[j].lo then s[i].hi else t[j].hi;
    OnlyHere(s, i, x, max);
    OnlyHere(t, j, x, max);
    OnlyHere(s, i, x + 1, max);
    OnlyHere(t, j, x + 1, max);
    DiffMeans(s, t, x, max);
    DiffMeans(s, t, x + 1, max);
    DiffPure(s, t, max);
    DiffShape(s, t, max);
    TouchingPair(DiffOf(s, t), s, x, max);
  }

  lemma TouchingPair(r: seq<Range>, s: seq<Range>, x: nat, max: nat)
    requires RangesOk(r, max) && Pure(r, s) && Has(r, x) && Has(r, x + 1) && Has(s, x) != Has(s, x + 1)
    ensures !Apart(r)
  {
    var k: nat :| At(r, k, x);
    var l: nat :| At(r, l, x + 1);
    hide Has;
    assert k != l;
    assert r[k].lo <= x <= r[k].hi && r[l].lo <= x + 1 <= r[l].hi;
  }

  /** Near range `i` of an apart list, membership is decided by that range alone. */
  lemma OnlyHere(s: seq<Range>, i: nat, a: nat, max: nat)
    requires RangesOk(s, max) && Apart(s) && i < |s| && s[i].lo <= a + 1 && a <= s[i].hi + 1
    ensures Has(s, a) <==> s[i].lo <= a <= s[i].hi
  {
    if Has(s, a) {
      var k: nat :| At(s, k, a);
      assert s[k].lo <= a <= s[k].hi;
    }
    assert s[i].lo <= a <= s[i].hi ==> At(s, i, a);
  }
}
