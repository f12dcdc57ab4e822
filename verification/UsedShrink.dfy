/**
 Lowering the limit of a dictionary-ID namespace to its highest used ID plus one
 (v4/go/internal/bitmap/used_shrink.go).
 */
module UsedShrink {
  import opened BitmapLayout
  import opened BitmapStore
  import opened BitmapBits
  import opened UsedSearch
  import opened UsedEdit

  // ----- trimming whole root levels

  lemma TrimSingle(s: Store, v: View, used: set<nat>, g: nat, limit: nat)
    requires Tree(s, v) && Denotes(s, v, used) && v.root != 0 && v.top > 0
    requires g in used && g < limit && (forall b :: b in used ==> b < limit) && limit <= Coverage(v.top - 1)
    ensures SingleChild(v)
  {
    hide StoreOk, Inverse, Placed, Linked, Denotes;
    var l := v.top - 1;
    SlotInterval(g, l, 0);
    if At(g, l) !in v.loc { AbsentIsUnused(s, v, used, At(g, l), g); }
    forall q | q in v.loc && q.level == l ensures q.k == 0 {
      var b := Nonempty(s, v, used, q);
      SlotInterval(b, l, 0);
    }
  }

  lemma LoweredMeaning(s: Store, v: View, used: set<nat>, limit: nat)
    requires Tree(s, v) && SingleChild(v) && Private(s, v.root) && Tree(Discard(s, v.root), Lowered(v))
    requires Denotes(s, v, used) && Exact(s, v, used, limit)
    ensures Denotes(Discard(s, v.root), Lowered(v), used) && Exact(Discard(s, v.root), Lowered(v), used, limit)
  {
    hide StoreOk, Rooted, Linked, LeafOk, Hole;
    var s' := Discard(s, v.root);
    var w := Lowered(v);
    forall b: nat ensures Has(s', w, b) <==> Has(s, v, b) {
      assert At(b, 0) in w.loc <==> At(b, 0) in v.loc;
    }
    forall q | Parent(q) in w.loc ensures Advertised(s', w, q) <==> Hole(used, q, limit) {
      assert Parent(q) in v.loc && Advertised(s', w, q) == Advertised(s, v, q);
    }
  }

  /** used_shrink.go trimRoot: drop root levels that lie entirely above the new limit. */
  method TrimRoot(s0: Store, retired0: seq<nat>, root0: nat, oldLimit: nat, newLimit: nat, ghost v0: View, ghost used: set<nat>, ghost g: nat)
    returns (s: Store, retired: seq<nat>, root: nat, ghost v: View)
    requires Cow(s0, retired0, v0) && Bitmap(s0, v0, used, oldLimit) && v0.root == root0 != 0
    requires g in used && newLimit == g + 1 <= oldLimit && forall b :: b in used ==> b < newLimit
    ensures Cow(s, retired, v) && Denotes(s, v, used) && Exact(s, v, used, oldLimit)
    ensures v.root == root != 0 && v.top == RequiredLevel(newLimit) && SameOrigin(v0, v)
  {
    hide StoreOk, Inverse, Placed, Rooted, Linked, Books, Denotes, Exact, SameData;
    s, retired, root, v := s0, retired0, root0, v0;
    var level, required := RequiredLevel(oldLimit), RequiredLevel(newLimit);
    while level > required
      invariant Cow(s, retired, v) && Denotes(s, v, used) && Exact(s, v, used, oldLimit)
      invariant v.root == root != 0 && v.top == level >= required && SameOrigin(v0, v)
      decreases level
    {
      var s1, retired1, private;
      ghost var v1;
      s1, retired1, private, v1 := TouchRoot(s, retired, root, v);
      DataDenotes(s, v, s1, v1, used);
      DataExactAll(s, v, s1, v1, used, oldLimit);
      SameShape(s, v, s1, v1);
      SameFixed(s, v, s1, v1);
      CoverageMonotone(required, level - 1);
      TrimSingle(s1, v1, used, g, newLimit);
      RootChild(s1, v1);
      var child := s1.pages[private].children[0];
      LoweredCow(s1, retired1, v1);
      LoweredMeaning(s1, v1, used, oldLimit);
      s, retired, root, v, level := Discard(s1, private), retired1, child, Lowered(v1), level - 1;
    }
  }

  lemma {:induction false} CoverageMonotone(a: nat, b: nat)
    requires a <= b
    ensures Coverage(a) <= Coverage(b)
    decreases b
  {
    if a < b { CoverageMonotone(a, b - 1); }
  }

  lemma RootChild(s: Store, v: View)
    requires Tree(s, v) && SingleChild(v)
    ensures v.root in s.pages && s.pages[v.root].Branch? && |s.pages[v.root].children| == FANOUT
    ensures s.pages[v.root].children[0] == Lowered(v).root
  {
    BranchLink(s, v, Pos(v.top, 0), 0);
  }

  lemma DataExactAll(s: Store, v: View, s': Store, v': View, used: set<nat>, limit: nat)
    requires Tree(s, v) && Tree(s', v') && SameData(s, v, s', v') && Exact(s, v, used, limit)
    ensures Exact(s', v', used, limit)
  {
    hide StoreOk, Rooted, Linked, Hole;
    forall q | Parent(q) in v'.loc ensures Parent(q) in v.loc && Advertised(s', v', q) == Advertised(s, v, q) {
    }
  }

  // ----- refreshing the summaries along the path to the highest ID

  /** Up to a level, summaries fit the new limit, except in the path pages, which still fit the old one. */
  ghost predicate Stale(s: Store, v: View, used: set<nat>, was: nat, limit: nat, g: nat, level: nat)
    requires Inverse(v) && Placed(s, v)
  {
    forall q {:trigger Advertised(s, v, q)} :: Parent(q) in v.loc && q.level < level ==>
      (Advertised(s, v, q) <==> Hole(used, q, if Parent(q) == At(g, q.level + 1) then was else limit))
  }

  /** Up to a level, summaries fit the new limit. */
  ghost predicate Fresh(s: Store, v: View, used: set<nat>, limit: nat, level: nat)
    requires Inverse(v) && Placed(s, v)
  {
    forall q {:trigger Advertised(s, v, q)} :: Parent(q) in v.loc && q.level < level ==>
      (Advertised(s, v, q) <==> Hole(used, q, limit))
  }

  /** Pages above a level keep their places and their summaries, and privacy is kept. */
  ghost predicate KeptAbove(s: Store, v: View, s': Store, v': View, level: nat)
    requires Inverse(v) && Placed(s, v) && Inverse(v') && Placed(s', v')
  {
    && v'.loc.Keys == v.loc.Keys && v'.top == v.top && v'.root == v.root && SameOrigin(v, v') && s'.txn == s.txn
    && (forall q {:trigger q in v'.loc} :: q in v'.loc && q.level >= level ==> v'.loc[q] == v.loc[q])
    && (forall x {:trigger Private(s', x)} :: Private(s, x) ==> Private(s', x))
    && (forall q {:trigger Advertised(s', v', q)} :: Parent(q) in v'.loc && q.level >= level ==> Advertised(s', v', q) == Advertised(s, v, q))
  }

  /** In one path page the summary bits before index i are done, the others still fit the old limit. */
  ghost predicate Row(s: Store, v: View, used: set<nat>, was: nat, limit: nat, g: nat, level: nat, i: nat)
    requires Inverse(v) && Placed(s, v) && level > 0
  {
    forall q {:trigger Advertised(s, v, q)} :: Parent(q) in v.loc && q.level == level - 1 ==>
      (Advertised(s, v, q) <==> Hole(used, q, if Parent(q) == At(g, level) && q.k % FANOUT >= i then was else limit))
  }

  /** The subtrees before index i are done as well. */
  ghost predicate Progress(s: Store, v: View, used: set<nat>, was: nat, limit: nat, g: nat, level: nat, i: nat)
    requires Inverse(v) && Placed(s, v) && level > 0
  {
    && Row(s, v, used, was, limit, g, level, i)
    && (if i <= ChildIndex(g, level) then Stale(s, v, used, was, limit, g, level - 1) else Fresh(s, v, used, limit, level - 1))
  }

  /** A span below both limits has the same holes for both. */
  lemma HoleSame(used: set<nat>, q: Pos, was: nat, limit: nat)
    requires limit <= was && Base(q) + Coverage(q.level) <= limit
    ensures Hole(used, q, was) <==> Hole(used, q, limit)
  {
    if Hole(used, q, was) {
      var b: nat :| Slot(b, q.level) == q.k && FIRST <= b < was && b !in used;
      SlotInterval(b, q.level, q.k);
      assert Hole(used, q, limit);
    }
    if Hole(used, q, limit) {
      var b: nat :| Slot(b, q.level) == q.k && FIRST <= b < limit && b !in used;
      assert Hole(used, q, was);
    }
  }

  lemma NoHoleBeyond(used: set<nat>, q: Pos, limit: nat)
    requires Base(q) >= limit
    ensures !Hole(used, q, limit)
  {
    if Hole(used, q, limit) {
      var b: nat :| Slot(b, q.level) == q.k && FIRST <= b < limit && b !in used;
      SlotInterval(b, q.level, q.k);
    }
  }

  /** A page of the tree off the path to the highest ID lies entirely below it. */
  lemma OffPathBelow(s: Store, v: View, used: set<nat>, g: nat, q: Pos)
    requires Tree(s, v) && Denotes(s, v, used) && q in v.loc && q != At(g, q.level) && forall b :: b in used ==> b <= g
    ensures Base(q) + Coverage(q.level) <= g
  {
    hide StoreOk, Inverse, Placed, Linked, Denotes, Rooted;
    var b := Nonempty(s, v, used, q);
    SlotInterval(b, q.level, q.k);
    SlotInterval(g, q.level, q.k);
  }

  lemma ChildSpan(q: Pos, i: nat)
    requires q.level > 0 && i < FANOUT
    ensures Base(q) <= Base(Child(q, i)) && Base(Child(q, i)) + Coverage(q.level - 1) <= Base(q) + Coverage(q.level)
  {
    ChildBase(q, i);
    MulLe(i + 1, FANOUT, Coverage(q.level - 1));
    assert Coverage(q.level - 1) * i + Coverage(q.level - 1) == (i + 1) * Coverage(q.level - 1);
  }

  /** Only the path pages can be affected by the new limit. */
  lemma StaleStart(s: Store, v: View, used: set<nat>, was: nat, limit: nat, g: nat, level: nat)
    requires Tree(s, v) && Denotes(s, v, used) && Exact(s, v, used, was) && limit == g + 1 <= was && forall b :: b in used ==> b <= g
    ensures Stale(s, v, used, was, limit, g, level)
  {
    forall q | Parent(q) in v.loc && Parent(q) != At(g, q.level + 1) ensures Hole(used, q, was) <==> Hole(used, q, limit) {
      OffPathSame(s, v, used, was, limit, g, q);
    }
  }

  lemma OffPathSame(s: Store, v: View, used: set<nat>, was: nat, limit: nat, g: nat, q: Pos)
    requires Tree(s, v) && Denotes(s, v, used) && limit == g + 1 <= was && forall b :: b in used ==> b <= g
    requires Parent(q) in v.loc && Parent(q) != At(g, q.level + 1)
    ensures Hole(used, q, was) <==> Hole(used, q, limit)
  {
    hide StoreOk, Inverse, Placed, Linked, Denotes, Rooted, Hole;
    OffPathBelow(s, v, used, g, Parent(q));
    ChildOfParent(q);
    ChildSpan(Parent(q), q.k % FANOUT);
    HoleSame(used, q, was, limit);
  }

  /** If the span of a path page ends at or below the new limit, everything under it already fits. */
  lemma StaleIsFresh(s: Store, v: View, used: set<nat>, was: nat, limit: nat, g: nat, level: nat)
    requires Tree(s, v) && Stale(s, v, used, was, limit, g, level) && limit <= was
    requires Base(At(g, level)) + Coverage(level) <= limit
    ensures Fresh(s, v, used, limit, level)
  {
    forall q | Parent(q) in v.loc && Parent(q) == At(g, q.level + 1) && q.level < level
      ensures Hole(used, q, was) <==> Hole(used, q, limit)
    {
      UnderPathSame(used, was, limit, g, level, q);
    }
  }

  lemma UnderPathSame(used: set<nat>, was: nat, limit: nat, g: nat, level: nat, q: Pos)
    requires limit <= was && Base(At(g, level)) + Coverage(level) <= limit
    requires Parent(q) == At(g, q.level + 1) && q.level < level
    ensures Hole(used, q, was) <==> Hole(used, q, limit)
  {
    hide Hole;
    PathSpan(g, q.level + 1, level);
    ChildOfParent(q);
    ChildSpan(Parent(q), q.k % FANOUT);
    HoleSame(used, q, was, limit);
  }

  lemma {:induction false} PathSpan(g: nat, l: nat, level: nat)
    requires l <= level
    ensures Base(At(g, level)) <= Base(At(g, l)) && Base(At(g, l)) + Coverage(l) <= Base(At(g, level)) + Coverage(level)
    decreases level
  {
    if l < level {
      PathSpan(g, l, level - 1);
      ChildSpan(At(g, level), ChildIndex(g, level));
    }
  }

  /** Only the path child can be present at or above the highest ID. */
  lemma NothingBeyond(s: Store, v: View, used: set<nat>, g: nat, q: Pos)
    requires Tree(s, v) && Denotes(s, v, used) && Base(q) > g && forall b :: b in used ==> b <= g
    ensures q !in v.loc
  {
    hide StoreOk, Inverse, Placed, Linked, Denotes, Rooted;
    if q in v.loc {
      var b := Nonempty(s, v, used, q);
      SlotInterval(b, q.level, q.k);
    }
  }

  /** Rewriting one summary bit of a private page changes that bit and nothing else. */
  lemma OneBit(s: Store, v: View, used: set<nat>, q: Pos, i: nat, candidate: bool)
    requires Tree(s, v) && Denotes(s, v, used) && q in v.loc && q.level > 0 && Private(s, v.loc[q]) && i < FANOUT
    requires BranchOk(s.pages[v.loc[q]], q.level)
    ensures var p := v.loc[q];
            var page := ReplaceChild(s.pages[p], i, s.pages[p].children[i], candidate);
            && Rewritable(s, v, p, page)
            && var s' := Update(s, p, page);
            && Tree(s', v) && Denotes(s', v, used)
            && forall r {:trigger Advertised(s', v, r)} :: Parent(r) in v.loc ==>
                 Advertised(s', v, r) == if r == Child(q, i) then candidate else Advertised(s, v, r)
  {
    hide StoreOk, Rooted, Linked, LeafOk, Slot;
    var p := v.loc[q];
    var page := ReplaceChild(s.pages[p], i, s.pages[p].children[i], candidate);
    ReplaceChildCount(s.pages[p], i, s.pages[p].children[i], candidate);
    assert p in v.pos && v.pos[p] == q;
    RewriteTree(s, v, p, page);
    var s' := Update(s, p, page);
    forall b: nat ensures Has(s', v, b) <==> Has(s, v, b) {
      if At(b, 0) in v.loc { assert v.loc[At(b, 0)] in v.pos; }
    }
    forall r | Parent(r) in v.loc ensures Advertised(s', v, r) == if r == Child(q, i) then candidate else Advertised(s, v, r) {
      assert v.loc[Parent(r)] in v.pos;
      ChildOfParent(r);
    }
  }

  /** One child of a path page has been brought to the new limit, its summary bit included. */
  lemma ProgressStep(s: Store, v: View, used: set<nat>, was: nat, limit: nat, g: nat, level: nat, i: nat, candidate: bool)
    requires Tree(s, v) && Denotes(s, v, used) && level > 0 && At(g, level) in v.loc && Private(s, v.loc[At(g, level)]) && i < FANOUT
    requires Row(s, v, used, was, limit, g, level, i)
    requires if i < ChildIndex(g, level) then Stale(s, v, used, was, limit, g, level - 1) else Fresh(s, v, used, limit, level - 1)
    requires candidate <==> Hole(used, Child(At(g, level), i), limit)
    requires BranchOk(s.pages[v.loc[At(g, level)]], level)
    ensures var p := v.loc[At(g, level)];
            var page := ReplaceChild(s.pages[p], i, s.pages[p].children[i], candidate);
            && Rewritable(s, v, p, page)
            && var s' := Update(s, p, page);
            && Tree(s', v) && Denotes(s', v, used) && Progress(s', v, used, was, limit, g, level, i + 1)
            && KeptAbove(s, v, s', v, level)
  {
    hide StoreOk, Inverse, Placed, Rooted, Linked, Hole, Denotes, ChildIndex, PageOk;
    var p := v.loc[At(g, level)];
    OneBit(s, v, used, At(g, level), i, candidate);
    var s' := Update(s, p, ReplaceChild(s.pages[p], i, s.pages[p].children[i], candidate));
    RowSteps(s, v, s', used, was, limit, g, level, i, candidate);
    assert forall r {:trigger Advertised(s', v, r)} :: Parent(r) in v.loc && r.level != level - 1 ==> Advertised(s', v, r) == Advertised(s, v, r);
  }

  lemma RowSteps(s: Store, v: View, s': Store, used: set<nat>, was: nat, limit: nat, g: nat, level: nat, i: nat, candidate: bool)
    requires Tree(s, v) && Tree(s', v) && level > 0 && i < FANOUT
    requires Row(s, v, used, was, limit, g, level, i)
    requires candidate <==> Hole(used, Child(At(g, level), i), limit)
    requires forall r {:trigger Advertised(s', v, r)} :: Parent(r) in v.loc ==>
               Advertised(s', v, r) == if r == Child(At(g, level), i) then candidate else Advertised(s, v, r)
    ensures Row(s', v, used, was, limit, g, level, i + 1)
  {
    hide StoreOk, Inverse, Placed, Rooted, Linked, Hole, Slot;
    forall q | Parent(q) in v.loc && q.level == level - 1
      ensures Advertised(s', v, q) <==> Hole(used, q, if Parent(q) == At(g, level) && q.k % FANOUT >= i + 1 then was else limit)
    {
      ChildOfParent(q);
    }
  }

  /** A child whose span already fits needs no work. */
  lemma ProgressSkip(s: Store, v: View, used: set<nat>, was: nat, limit: nat, g: nat, level: nat, i: nat)
    requires Tree(s, v) && level > 0 && i < FANOUT && limit == g + 1 <= was
    requires Progress(s, v, used, was, limit, g, level, i)
    requires Base(Child(At(g, level), i)) + Coverage(level - 1) <= limit
    ensures Progress(s, v, used, was, limit, g, level, i + 1)
  {
    hide StoreOk, Rooted, Linked, Inverse, Placed, Hole, Slot, Row, Stale, Fresh, Coverage;
    SiblingSpan(g, level, i);
    if i == ChildIndex(g, level) {
      StaleIsFresh(s, v, used, was, limit, g, level - 1);
    }
    RowSkips(s, v, used, was, limit, g, level, i);
  }

  lemma RowSkips(s: Store, v: View, used: set<nat>, was: nat, limit: nat, g: nat, level: nat, i: nat)
    requires Tree(s, v) && level > 0 && i < FANOUT && limit <= was
    requires Row(s, v, used, was, limit, g, level, i)
    requires Base(Child(At(g, level), i)) + Coverage(level - 1) <= limit
    ensures Row(s, v, used, was, limit, g, level, i + 1)
  {
    hide StoreOk, Inverse, Placed, Rooted, Linked, Hole, Slot, Coverage, Base;
    HoleSame(used, Child(At(g, level), i), was, limit);
    forall q | Parent(q) in v.loc && q.level == level - 1
      ensures Advertised(s, v, q) <==> Hole(used, q, if Parent(q) == At(g, level) && q.k % FANOUT >= i + 1 then was else limit)
    {
      ChildOfParent(q);
    }
  }

  lemma {:induction false} KeptTransitive(s0: Store, v0: View, s1: Store, v1: View, s2: Store, v2: View, level: nat)
    requires Tree(s0, v0) && Tree(s1, v1) && Tree(s2, v2)
    requires KeptAbove(s0, v0, s1, v1, level) && KeptAbove(s1, v1, s2, v2, level)
    ensures KeptAbove(s0, v0, s2, v2, level)
  {
    hide StoreOk, Rooted, Linked, Inverse, Placed;
    forall x | Private(s0, x) ensures Private(s2, x) { assert Private(s1, x); }
    forall q | q in v2.loc && q.level >= level ensures v2.loc[q] == v0.loc[q] { assert q in v1.loc; }
    forall q | Parent(q) in v2.loc && q.level >= level ensures Advertised(s2, v2, q) == Advertised(s0, v0, q) {
      assert Parent(q) in v1.loc && Advertised(s2, v2, q) == Advertised(s1, v1, q);
    }
  }

  lemma KeptWeaken(s: Store, v: View, s': Store, v': View, level: nat, level': nat)
    requires Tree(s, v) && Tree(s', v') && KeptAbove(s, v, s', v', level) && level <= level'
    ensures KeptAbove(s, v, s', v', level')
  {
    hide StoreOk, Rooted, Linked, Inverse, Placed;
  }

  /** Touching the path child leaves everything at or above it in place. */
  lemma TouchKept(s: Store, v: View, s': Store, v': View, q: Pos)
    requires Tree(s, v) && Tree(s', v') && SameData(s, v, s', v') && v'.root == v.root
    requires forall r {:trigger r in v'.loc} :: r in v'.loc && r != q ==> v'.loc[r] == v.loc[r]
    requires forall x {:trigger Private(s', x)} :: Private(s, x) ==> Private(s', x)
    ensures KeptAbove(s, v, s', v', q.level + 1)
    ensures forall r {:trigger Advertised(s', v', r)} :: Parent(r) in v'.loc ==> Parent(r) in v.loc && Advertised(s', v', r) == Advertised(s, v, r)
  {
    hide StoreOk, Rooted, Linked;
    forall r | Parent(r) in v'.loc ensures Parent(r) in v.loc && Advertised(s', v', r) == Advertised(s, v, r) {
    }
  }

  lemma StaleTouched(s: Store, v: View, s': Store, v': View, used: set<nat>, was: nat, limit: nat, g: nat, level: nat)
    requires Tree(s, v) && Tree(s', v') && v'.loc.Keys == v.loc.Keys
    requires forall r {:trigger Advertised(s', v', r)} :: Parent(r) in v'.loc ==> Parent(r) in v.loc && Advertised(s', v', r) == Advertised(s, v, r)
    requires Stale(s, v, used, was, limit, g, level)
    ensures Stale(s', v', used, was, limit, g, level)
  {
    hide StoreOk, Rooted, Linked, Inverse, Placed, Hole;
  }

  /** After the subtree of the path child has been refreshed, only that child's own bit is left to do. */
  lemma ProgressInside(s: Store, v: View, s': Store, v': View, used: set<nat>, was: nat, limit: nat, g: nat, level: nat)
    requires Tree(s, v) && Tree(s', v') && level > 0
    requires Row(s, v, used, was, limit, g, level, ChildIndex(g, level))
    requires KeptAbove(s, v, s', v', level - 1)
    ensures Row(s', v', used, was, limit, g, level, ChildIndex(g, level))
  {
    hide StoreOk, Rooted, Linked, Inverse, Placed, Hole, ChildIndex;
    forall q | Parent(q) in v'.loc && q.level == level - 1 ensures Parent(q) in v.loc && Advertised(s', v', q) == Advertised(s, v, q) {
    }
  }

  /** used_shrink.go refreshChild: bring one child of a path page, and its summary bit, to the new limit. */
  method RefreshChild(s0: Store, retired0: seq<nat>, page: nat, index: nat, level: nat, base: nat, limit: nat,
                      ghost v0: View, ghost used: set<nat>, ghost was: nat, ghost g: nat)
    returns (s: Store, retired: seq<nat>, ghost v: View)
    requires Cow(s0, retired0, v0) && Denotes(s0, v0, used) && 0 < level <= v0.top && index < FANOUT
    requires g in used && limit == g + 1 <= was && forall b :: b in used ==> b <= g
    requires At(g, level) in v0.loc && v0.loc[At(g, level)] == page && Private(s0, page) && base == Base(At(g, level))
    requires Progress(s0, v0, used, was, limit, g, level, index)
    ensures Cow(s, retired, v) && Denotes(s, v, used) && KeptAbove(s0, v0, s, v, level)
    ensures Progress(s, v, used, was, limit, g, level, index + 1)
    decreases level, 0
  {
    hide StoreOk, Inverse, Placed, Rooted, Linked, Books, Denotes, Hole, SameData, Row, Stale, Fresh, KeptAbove, PageHole;
    var span := Coverage(level - 1);
    var childBase := base + span * index;
    ghost var q := Child(At(g, level), index);
    ChildBase(At(g, level), index);
    SiblingSpan(g, level, index);
    BranchLink(s0, v0, At(g, level), index);
    KeptSelf(s0, v0, level);
    if childBase >= limit {
      NothingBeyond(s0, v0, used, g, q);
      NoHoleBeyond(used, q, limit);
      ProgressStep(s0, v0, used, was, limit, g, level, index, false);
      s, retired, v := Update(s0, page, ReplaceChild(s0.pages[page], index, 0, false)), retired0, v0;
      RewriteCow(s0, retired, v0, page, ReplaceChild(s0.pages[page], index, 0, false));
      return;
    }
    if childBase + span <= limit {
      ProgressSkip(s0, v0, used, was, limit, g, level, index);
      return s0, retired0, v0;
    }
    assert q == At(g, level - 1);
    if q !in v0.loc { AbsentIsUnused(s0, v0, used, q, g); }
    var s1, retired1, child, s2;
    ghost var v1, v2;
    s1, retired1, child, v1 := TouchChild(s0, retired0, page, index, q, v0);
    SameShape(s0, v0, s1, v1);
    DataDenotes(s0, v0, s1, v1, used);
    TouchKept(s0, v0, s1, v1, q);
    StaleTouched(s0, v0, s1, v1, used, was, limit, g, level - 1);
    s2, retired, v2 := RefreshPage(s1, retired1, child, level - 1, childBase, limit, v1, used, was, g);
    RowTouched(s0, v0, s1, v1, used, was, limit, g, level);
    ProgressInside(s1, v1, s2, v2, used, was, limit, g, level);
    KeptWeaken(s1, v1, s2, v2, level - 1, level);
    KeptTransitive(s0, v0, s1, v1, s2, v2, level);
    KeptPlace(s1, v1, s2, v2, level - 1, q);
    KeptPlace(s1, v1, s2, v2, level - 1, At(g, level));
    FreshOwn(s2, v2, used, limit, q);
    PageHoleMeaning(s2, v2, used, limit, q);
    var candidate := PageHasCandidate(s2.pages[child], level - 1, childBase, limit);
    BranchLink(s2, v2, At(g, level), index);
    ProgressStep(s2, v2, used, was, limit, g, level, index, candidate);
    RewriteCow(s2, retired, v2, page, ReplaceChild(s2.pages[page], index, child, candidate));
    s, v := Update(s2, page, ReplaceChild(s2.pages[page], index, child, candidate)), v2;
    KeptTransitive(s0, v0, s2, v2, s, v, level);
  }

  /** used_shrink.go refreshPage: bring a private path page and everything under it to the new limit. */
  method RefreshPage(s0: Store, retired0: seq<nat>, page: nat, level: nat, base: nat, limit: nat,
                     ghost v0: View, ghost used: set<nat>, ghost was: nat, ghost g: nat)
    returns (s: Store, retired: seq<nat>, ghost v: View)
    requires Cow(s0, retired0, v0) && Denotes(s0, v0, used) && level <= v0.top
    requires g in used && limit == g + 1 <= was && forall b :: b in used ==> b <= g
    requires At(g, level) in v0.loc && v0.loc[At(g, level)] == page && Private(s0, page) && base == Base(At(g, level))
    requires Stale(s0, v0, used, was, limit, g, level)
    ensures Cow(s, retired, v) && Denotes(s, v, used) && KeptAbove(s0, v0, s, v, level)
    ensures Fresh(s, v, used, limit, level)
    decreases level, 1
  {
    hide StoreOk, Inverse, Placed, Rooted, Linked, Books, Denotes, Hole, Row, Stale, Fresh, KeptAbove, ChildIndex;
    s, retired, v := s0, retired0, v0;
    KeptSelf(s0, v0, level);
    if level == 0 {
      FreshZero(s, v, used, limit);
      return;
    }
    ProgressStart(s, v, used, was, limit, g, level);
    var index := 0;
    while index < FANOUT
      invariant 0 <= index <= FANOUT
      invariant Cow(s, retired, v) && Denotes(s, v, used) && KeptAbove(s0, v0, s, v, level)
      invariant Progress(s, v, used, was, limit, g, level, index)
    {
      KeptPlace(s0, v0, s, v, level, At(g, level));
      var s1, retired1;
      ghost var v1;
      s1, retired1, v1 := RefreshChild(s, retired, page, index, level, base, limit, v, used, was, g);
      KeptTransitive(s0, v0, s, v, s1, v1, level);
      s, retired, v, index := s1, retired1, v1, index + 1;
    }
    ProgressEnd(s, v, used, was, limit, g, level);
  }

  lemma KeptSelf(s: Store, v: View, level: nat)
    requires Tree(s, v)
    ensures KeptAbove(s, v, s, v, level)
  {
  }

  lemma KeptPlace(s: Store, v: View, s': Store, v': View, level: nat, q: Pos)
    requires Tree(s, v) && Tree(s', v') && KeptAbove(s, v, s', v', level) && q in v.loc && q.level >= level
    ensures q in v'.loc && v'.loc[q] == v.loc[q] && (Private(s, v.loc[q]) ==> Private(s', v.loc[q])) && v'.top == v.top
  {
  }

  lemma RowTouched(s: Store, v: View, s': Store, v': View, used: set<nat>, was: nat, limit: nat, g: nat, level: nat)
    requires Tree(s, v) && Tree(s', v') && level > 0 && v'.loc.Keys == v.loc.Keys
    requires forall r {:trigger Advertised(s', v', r)} :: Parent(r) in v'.loc ==> Parent(r) in v.loc && Advertised(s', v', r) == Advertised(s, v, r)
    requires Row(s, v, used, was, limit, g, level, ChildIndex(g, level))
    ensures Row(s', v', used, was, limit, g, level, ChildIndex(g, level))
  {
    hide StoreOk, Rooted, Linked, Inverse, Placed, Hole, ChildIndex;
  }

  lemma FreshOwn(s: Store, v: View, used: set<nat>, limit: nat, q: Pos)
    requires Tree(s, v) && Fresh(s, v, used, limit, q.level)
    ensures forall i {:trigger Child(q, i)} :: q.level > 0 && 0 <= i < FANOUT && Parent(Child(q, i)) in v.loc ==>
              (Advertised(s, v, Child(q, i)) <==> Hole(used, Child(q, i), limit))
  {
    hide StoreOk, Rooted, Linked, Inverse, Placed, Hole;
  }

  lemma FreshZero(s: Store, v: View, used: set<nat>, limit: nat)
    requires Tree(s, v)
    ensures Fresh(s, v, used, limit, 0)
  {
  }

  lemma ProgressStart(s: Store, v: View, used: set<nat>, was: nat, limit: nat, g: nat, level: nat)
    requires Tree(s, v) && level > 0 && Stale(s, v, used, was, limit, g, level)
    ensures Progress(s, v, used, was, limit, g, level, 0)
  {
    hide StoreOk, Rooted, Linked, Inverse, Placed, Hole;
  }

  lemma ProgressEnd(s: Store, v: View, used: set<nat>, was: nat, limit: nat, g: nat, level: nat)
    requires Tree(s, v) && level > 0 && Progress(s, v, used, was, limit, g, level, FANOUT)
    ensures Fresh(s, v, used, limit, level)
  {
    hide StoreOk, Rooted, Linked, Inverse, Placed, Hole;
  }

  /** used_shrink.go shrink: the limit becomes the highest used ID plus one, or one. */
  method Shrink(s0: Store, retired0: seq<nat>, root0: nat, oldLimit: nat, ghost v0: View, ghost used: set<nat>)
    returns (newLimit: nat, s: Store, retired: seq<nat>, root: nat, ghost v: View)
    requires Cow(s0, retired0, v0) && Bitmap(s0, v0, used, oldLimit) && v0.root == root0
    ensures Cow(s, retired, v) && Bitmap(s, v, used, newLimit)
    ensures v.root == root && SameOrigin(v0, v)
    ensures FIRST <= newLimit <= oldLimit && (newLimit > FIRST ==> newLimit - 1 in used)
  {
    hide StoreOk, Inverse, Placed, Rooted, Linked, Books, Denotes, Exact, SameData, RequiredLevel, Stale, Fresh, KeptAbove;
    var ok, id := Greatest(s0, root0, oldLimit, v0, used);
    newLimit := if ok then id + 1 else 1;
    if newLimit == oldLimit || root0 == 0 {
      if root0 == 0 {
        EmptyTree(s0, v0, used);
        EmptyExactAll(s0, v0, used, newLimit);
      }
      return newLimit, s0, retired0, root0, v0;
    }
    ghost var some := SomeUsed(s0, v0, used);
    var s1, retired1, root1, s2, retired2;
    ghost var v1, v2;
    s1, retired1, root1, v1 := TrimRoot(s0, retired0, root0, oldLimit, newLimit, v0, used, id);
    var required := RequiredLevel(newLimit);
    s2, retired2, root, v2 := TouchRoot(s1, retired1, root1, v1);
    DataDenotes(s1, v1, s2, v2, used);
    DataExactAll(s1, v1, s2, v2, used, oldLimit);
    SameShape(s1, v1, s2, v2);
    SameFixed(s1, v1, s2, v2);
    BitmapStore.RootAt(s2, v2);
    TopCoversAll(id, newLimit);
    StaleStart(s2, v2, used, oldLimit, newLimit, id, required);
    s, retired, v := RefreshPage(s2, retired2, root, required, 0, newLimit, v2, used, oldLimit, id);
    FreshAll(s2, v2, s, v, used, newLimit);
  }

  lemma SomeUsed(s: Store, v: View, used: set<nat>) returns (b: nat)
    requires Tree(s, v) && Denotes(s, v, used) && v.root != 0
    ensures b in used
  {
    BitmapStore.RootAt(s, v);
    b := Nonempty(s, v, used, Pos(v.top, 0));
  }

  lemma EmptyExactAll(s: Store, v: View, used: set<nat>, limit: nat)
    requires Tree(s, v) && v.root == 0
    ensures Exact(s, v, used, limit)
  {
  }

  lemma FreshAll(s0: Store, v0: View, s: Store, v: View, used: set<nat>, limit: nat)
    requires Tree(s0, v0) && Tree(s, v) && KeptAbove(s0, v0, s, v, v0.top) && Fresh(s, v, used, limit, v0.top)
    ensures Exact(s, v, used, limit) && v.root == v0.root && v.top == v0.top && SameOrigin(v0, v)
  {
    hide StoreOk, Linked, PageOk, Hole;
    forall q | Parent(q) in v.loc ensures Advertised(s, v, q) <==> Hole(used, q, limit) {
      assert v.loc[Parent(q)] in v.pos;
    }
  }
}
