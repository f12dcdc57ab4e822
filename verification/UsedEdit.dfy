/**
 Single-ID edits of the dictionary-ID bitmaps (v4/go/internal/bitmap/used.go, used_tree.go):
 mark an unused ID used, release an ID.
 */
module UsedEdit {
  import opened Collections
  import opened BitmapLayout
  import opened BitmapStore
  import opened BitmapBits
  import opened UsedSearch

  lemma DataExact(s: Store, v: View, s': Store, v': View, used: set<nat>, limit: nat, bit: nat, level: nat)
    requires Tree(s, v) && Tree(s', v') && SameData(s, v, s', v') && ExactBelow(s, v, used, limit, bit, level)
    ensures ExactBelow(s', v', used, limit, bit, level)
  {
    hide StoreOk, Rooted, Linked, Hole;
    forall q | Parent(q) in v'.loc ensures Parent(q) in v.loc && Advertised(s', v', q) == Advertised(s, v, q) {
    }
  }

  /** The page above a position, with the position's summary bit rewritten. */
  ghost function Stamped(s: Store, v: View, q: Pos, candidate: bool): Page
    requires Tree(s, v) && q in v.loc && q.level < v.top
  {
    ParentLink(s, v, q);
    var page := s.pages[v.loc[Parent(q)]];
    ReplaceChild(page, q.k % FANOUT, page.children[q.k % FANOUT], candidate)
  }

  lemma StampedRewritable(s: Store, v: View, q: Pos, candidate: bool)
    requires Tree(s, v) && q in v.loc && q.level < v.top && Parent(q) in v.loc && Private(s, v.loc[Parent(q)])
    ensures Rewritable(s, v, v.loc[Parent(q)], Stamped(s, v, q, candidate))
  {
    hide StoreOk, Linked, LeafOk;
    ParentLink(s, v, q);
    var p := v.loc[Parent(q)];
    assert p in v.pos && v.pos[p] == Parent(q);
    ReplaceChildCount(s.pages[p], q.k % FANOUT, s.pages[p].children[q.k % FANOUT], candidate);
  }

  lemma StampedExact(s: Store, v: View, used: set<nat>, limit: nat, bit: nat, level: nat, candidate: bool)
    requires Tree(s, v) && Denotes(s, v, used) && ExactBelow(s, v, used, limit, bit, level)
    requires level < v.top && At(bit, level) in v.loc && At(bit, level + 1) in v.loc && Private(s, v.loc[At(bit, level + 1)])
    requires candidate <==> Hole(used, At(bit, level), limit)
    requires var p := v.loc[At(bit, level + 1)]; Rewritable(s, v, p, Stamped(s, v, At(bit, level), candidate))
    ensures var p := v.loc[At(bit, level + 1)];
            var s' := Update(s, p, Stamped(s, v, At(bit, level), candidate));
            Tree(s', v) && Denotes(s', v, used) && ExactBelow(s', v, used, limit, bit, level + 1)
  {
    hide StoreOk, Linked, LeafOk, Hole, Rooted, ChildIndex;
    var q := At(bit, level);
    var p := v.loc[At(bit, level + 1)];
    var page := Stamped(s, v, q, candidate);
    var s' := Update(s, p, page);
    RewriteTree(s, v, p, page);
    assert p in v.pos && v.pos[p] == Parent(q);
    forall b: nat ensures Has(s', v, b) <==> Has(s, v, b) {
      if At(b, 0) in v.loc { assert v.loc[At(b, 0)] in v.pos; }
    }
    forall r | Parent(r) in v.loc && (r.level < level + 1 || r != At(bit, r.level))
      ensures Advertised(s', v, r) <==> Hole(used, r, limit)
    {
      if r == q {
        assert s'.pages[p].summary[q.k % FANOUT] == candidate;
      } else {
        assert v.loc[Parent(r)] in v.pos;
        if Parent(r) == Parent(q) { assert r.level == q.level && r.k % FANOUT != q.k % FANOUT; }
        assert Advertised(s', v, r) == Advertised(s, v, r);
      }
    }
  }

  /**
   used_tree.go propagateInner: recompute the summary bit of every ancestor, deepest first.
   The first one may be known already.
   */
  method Propagate(s0: Store, ghost retired: seq<nat>, path: seq<Frame>, child0: nat, level0: nat, base0: nat, limit: nat,
                   known: Option<bool>, ghost v: View, ghost bit: nat, ghost used: set<nat>)
    returns (s: Store)
    requires Cow(s0, retired, v) && Denotes(s0, v, used) && ExactBelow(s0, v, used, limit, bit, level0)
    requires PathOk(s0, v, bit, path, level0)
    requires At(bit, level0) in v.loc && v.loc[At(bit, level0)] == child0 && base0 == Base(At(bit, level0))
    requires known.Some? ==> (known.value <==> Hole(used, At(bit, level0), limit))
    ensures Cow(s, retired, v) && Denotes(s, v, used) && Exact(s, v, used, limit)
  {
    hide StoreOk, Placed, Rooted, Linked, Inverse, Books, Denotes, ExactBelow, Hole;
    s := s0;
    var child, level, base, hint, depth := child0, level0, base0, known, |path|;
    while depth > 0
      invariant 0 <= depth <= |path| && level + depth == v.top
      invariant Cow(s, retired, v) && Denotes(s, v, used) && ExactBelow(s, v, used, limit, bit, level)
      invariant PathOk(s, v, bit, path, level0)
      invariant At(bit, level) in v.loc && v.loc[At(bit, level)] == child && base == Base(At(bit, level))
      invariant hint.Some? ==> (hint.value <==> Hole(used, At(bit, level), limit))
    {
      depth := depth - 1;
      var f := path[depth];
      ghost var q := At(bit, level);
      assert FrameOk(s, v, bit, f, level + 1);
      assert Parent(q) == At(bit, level + 1);
      ParentLink(s, v, q);
      var candidate;
      if hint.Some? {
        candidate, hint := hint.value, None;
      } else {
        OwnSummaries(s, v, used, limit, bit, level);
        PageHoleMeaning(s, v, used, limit, q);
        candidate := PageHasCandidate(s.pages[child], level, base, limit);
      }
      var page := s.pages[f.page];
      ghost var s1 := s;
      StampedRewritable(s, v, q, candidate);
      StampedExact(s, v, used, limit, bit, level, candidate);
      RewriteCow(s, retired, v, f.page, Stamped(s, v, q, candidate));
      s := Update(s, f.page, ReplaceChild(page, f.index, page.children[f.index], candidate));
      PathKept(s1, v, s, bit, path, level0);
      ChildBase(At(bit, level + 1), f.index);
      child, level, base := f.page, level + 1, f.childBase - Coverage(level) * f.index;
    }
    NothingExempt(s, v, used, limit, bit);
  }

  lemma OwnSummaries(s: Store, v: View, used: set<nat>, limit: nat, bit: nat, level: nat)
    requires Tree(s, v) && ExactBelow(s, v, used, limit, bit, level)
    ensures var q := At(bit, level);
            forall i {:trigger Child(q, i)} :: level > 0 && 0 <= i < FANOUT && Parent(Child(q, i)) in v.loc ==>
              (Advertised(s, v, Child(q, i)) <==> Hole(used, Child(q, i), limit))
  {
    hide StoreOk, Placed, Rooted, Linked, Hole;
  }

  lemma NothingExempt(s: Store, v: View, used: set<nat>, limit: nat, bit: nat)
    requires Tree(s, v) && ExactBelow(s, v, used, limit, bit, v.top)
    ensures Exact(s, v, used, limit)
  {
    forall q | Parent(q) in v.loc ensures Advertised(s, v, q) <==> Hole(used, q, limit) {
      assert v.loc[Parent(q)] in v.pos;
    }
  }

  // ----- setting and clearing one bit of a leaf

  lemma LeafKeepsSummaries(s: Store, v: View, p: nat, page: Page, used: set<nat>, limit: nat, bit: nat, level: nat)
    requires Tree(s, v) && Rewritable(s, v, p, page) && v.pos[p].level == 0 && ExactBelow(s, v, used, limit, bit, level)
    ensures Tree(Update(s, p, page), v) && ExactBelow(Update(s, p, page), v, used, limit, bit, level)
  {
    hide StoreOk, Linked, Rooted, Hole;
    var s' := Update(s, p, page);
    RewriteTree(s, v, p, page);
    forall q | Parent(q) in v.loc ensures Advertised(s', v, q) == Advertised(s, v, q) {
      assert v.loc[Parent(q)] != p;
    }
  }

  /** used.go wordHasCandidate: a zero bit in the eligible part of one word. */
  predicate WordHasCandidate(word: set<nat>, index: nat, base: nat, limit: nat) {
    var wordBase := base + index * 64;
    var first := if wordBase > FIRST then wordBase else FIRST;
    var end := if limit < wordBase + 64 then limit else wordBase + 64;
    first < end && Zeros(word, first - wordBase, end - wordBase) != {}
  }

  lemma WordHole(s: Store, v: View, used: set<nat>, limit: nat, bit: nat)
    requires Tree(s, v) && Denotes(s, v, used) && At(bit, 0) in v.loc
    requires var index := (bit % LEAF_BITS) / 64;
             LeafOk(s.pages[v.loc[At(bit, 0)]]) && WordHasCandidate(s.pages[v.loc[At(bit, 0)]].words[index], index, Base(At(bit, 0)), limit)
    ensures Hole(used, At(bit, 0), limit)
  {
    hide StoreOk, Linked, Rooted, Placed, Inverse;
    LeafAt(s, v, At(bit, 0), bit);
    var index := (bit % LEAF_BITS) / 64;
    var base := Base(At(bit, 0));
    var wordBase := base + index * 64;
    var first := if wordBase > FIRST then wordBase else FIRST;
    var end := if limit < wordBase + 64 then limit else wordBase + 64;
    var k :| k in Zeros(s.pages[v.loc[At(bit, 0)]].words[index], first - wordBase, end - wordBase);
    var b := wordBase + k;
    WordPosition(base, index, k);
    assert Slot(b, 0) == Slot(bit, 0);
    LeafAt(s, v, At(bit, 0), b);
    BitMeaning(s, v, used, b);
  }

  /** used.go setLeaf. */
  method SetLeaf(s0: Store, ghost retired: seq<nat>, path: seq<Frame>, page: nat, base: nat, limit: nat, bit: nat, dense: bool,
                 ghost v: View, ghost used: set<nat>)
    returns (s: Store)
    requires Cow(s0, retired, v) && Denotes(s0, v, used) && bit !in used
    requires ExactBelow(s0, v, used + {bit}, limit, bit, 0) && (dense ==> AllUsed(used + {bit}, FIRST, limit))
    requires PathOk(s0, v, bit, path, 0)
    requires At(bit, 0) in v.loc && v.loc[At(bit, 0)] == page && Private(s0, page) && base == Base(At(bit, 0))
    ensures Cow(s, retired, v) && Denotes(s, v, used + {bit}) && Exact(s, v, used + {bit}, limit)
  {
    hide StoreOk, Placed, Rooted, Linked, Inverse, Books, Denotes, ExactBelow, Exact;
    LeafAt(s0, v, At(bit, 0), bit);
    BitMeaning(s0, v, used, bit);
    PosOf(s0, v, At(bit, 0));
    var leaf := s0.pages[page];
    var index := (bit % LEAF_BITS) / 64;
    var word := leaf.words[index] + {bit % 64};
    SetWordCount(leaf, index, word);
    WithWordRewritable(s0, v, bit, word);
    WithWordMeaning(s0, v, used, bit, word, used + {bit});
    LeafKeepsSummaries(s0, v, page, WithWord(s0, v, bit, word), used + {bit}, limit, bit, 0);
    RewriteCow(s0, retired, v, page, WithWord(s0, v, bit, word));
    s := Update(s0, page, SetWord(leaf, index, word));
    PathKept(s0, v, s, bit, path, 0);
    var candidate := false;
    if !dense {
      LeafAt(s, v, At(bit, 0), bit);
      candidate := WordHasCandidate(word, index, base, limit);
      if candidate {
        WordHole(s, v, used + {bit}, limit, bit);
      } else {
        PageHoleMeaning(s, v, used + {bit}, limit, At(bit, 0));
        candidate := PageHasCandidate(s.pages[page], 0, base, limit);
      }
    }
    s := Propagate(s, retired, path, page, 0, base, limit, Some(candidate), v, bit, used + {bit});
  }

  // ----- fresh subtrees

  /** used_tree.go coverageIntersects: [base, base + span) meets [FIRST, limit). */
  predicate CoverageIntersects(base: nat, span: nat, limit: nat) {
    var lo := if FIRST > base then FIRST else base;
    var hi := if limit < base + span then limit else base + span;
    lo < hi
  }

  lemma IntersectsIsHole(q: Pos, limit: nat, used: set<nat>)
    requires forall b {:trigger Slot(b, q.level)} :: b in used ==> Slot(b, q.level) != q.k
    ensures CoverageIntersects(Base(q), Coverage(q.level), limit) <==> Hole(used, q, limit)
  {
    var b := if FIRST > Base(q) then FIRST else Base(q);
    if CoverageIntersects(Base(q), Coverage(q.level), limit) {
      SlotInterval(b, q.level, q.k);
      assert Hole(used, q, limit);
    }
    if Hole(used, q, limit) {
      var c: nat :| Slot(c, q.level) == q.k && FIRST <= c < limit && c !in used;
      SlotInterval(c, q.level, q.k);
    }
  }

  /** used_tree.go initializeSummary: one summary bit per child span. */
  method InitializeSummary(base: nat, span: nat, limit: nat) returns (summary: seq<bool>)
    ensures |summary| == FANOUT
    ensures forall i :: 0 <= i < FANOUT ==> summary[i] == CoverageIntersects(base + span * i, span, limit)
  {
    summary := [];
    for i := 0 to FANOUT
      invariant |summary| == i
      invariant forall j :: 0 <= j < i ==> summary[j] == CoverageIntersects(base + span * j, span, limit)
    {
      summary := summary + [CoverageIntersects(base + span * i, span, limit)];
    }
  }

  /** A fresh limb holds `bit` and nothing else, and its summaries say so. */
  ghost predicate LimbHolds(s: Store, bit: nat, sub: seq<nat>, limit: nat)
    requires Limb(s, bit, sub) && |sub| > 0
  {
    && LimbLeaf(s, bit, sub)
    && (forall l, i {:trigger s.pages[sub[l]].summary[i]} :: 0 < l < |sub| && 0 <= i < FANOUT ==>
          (s.pages[sub[l]].summary[i] <==> Hole({bit}, Child(At(bit, l), i), limit)))
  }

  lemma LimbPageHole(s: Store, bit: nat, sub: seq<nat>, limit: nat)
    requires |sub| > 0 && Limb(s, bit, sub) && LimbHolds(s, bit, sub, limit)
    ensures var q := At(bit, |sub| - 1);
            PageHole(s.pages[sub[|sub| - 1]], Base(q), limit) <==> Hole({bit}, q, limit)
  {
    hide ChildIndex, StoreOk;
    var q := At(bit, |sub| - 1);
    var page := s.pages[sub[|sub| - 1]];
    if |sub| == 1 {
      forall b: nat | Base(q) <= b < Base(q) + LEAF_BITS ensures Slot(b, 0) == q.k && (b == bit <==> LeafHas(page.words, b)) {
      }
      if Hole({bit}, q, limit) {
        var b: nat :| Slot(b, q.level) == q.k && FIRST <= b < limit && b !in {bit};
        assert !LeafHas(page.words, b);
      }
    } else {
      HoleOfChildren({bit}, q, limit);
      assert forall i :: 0 <= i < FANOUT ==> (page.summary[i] <==> Hole({bit}, Child(q, i), limit));
    }
  }

  /** Summaries of a fresh branch: the spans of the absent children, and the known child. */
  lemma FreshSummary(bit: nat, level: nat, limit: nat, summary: seq<bool>, candidate: bool, i: nat)
    requires level > 0 && |summary| == FANOUT && i < FANOUT
    requires forall j :: 0 <= j < FANOUT ==>
               summary[j] == CoverageIntersects(Base(At(bit, level)) + Coverage(level - 1) * j, Coverage(level - 1), limit)
    requires candidate <==> Hole({bit}, At(bit, level - 1), limit)
    ensures summary[ChildIndex(bit, level) := candidate][i] <==> Hole({bit}, Child(At(bit, level), i), limit)
  {
    hide Hole, CoverageIntersects;
    var r := Child(At(bit, level), i);
    ChildBase(At(bit, level), i);
    if i != ChildIndex(bit, level) {
      assert Slot(bit, level - 1) != r.k;
      IntersectsIsHole(r, limit, {bit});
    }
  }

  lemma LimbStarts(s: Store, bit: nat, p: nat, limit: nat)
    requires StoreOk(s) && p in s.pages && s.pages[p] == SingleLeaf(s.txn, bit)
    ensures Limb(s, bit, [p]) && LimbHolds(s, bit, [p], limit)
  {
    hide ChildIndex, Hole, LeafOk;
    SingleLeafOk(s.txn, bit);
  }

  /** One more branch page on top of a limb. */
  ghost predicate Topped(s: Store, bit: nat, sub: seq<nat>, limit: nat, s': Store, p: nat, summary: seq<bool>) {
    && StoreOk(s) && |sub| > 0 && Limb(s, bit, sub) && LimbHolds(s, bit, sub, limit)
    && |summary| == FANOUT && s'.txn == s.txn && p !in s.pages
    && s'.pages == s.pages[p := Branch(s.txn, 1, |sub|, NoChildren()[ChildIndex(bit, |sub|) := sub[|sub| - 1]], summary)]
    && forall i {:trigger summary[i]} :: 0 <= i < FANOUT ==> (summary[i] <==> Hole({bit}, Child(At(bit, |sub|), i), limit))
  }

  lemma LimbGrows(s: Store, bit: nat, sub: seq<nat>, limit: nat, s': Store, p: nat, summary: seq<bool>)
    requires Topped(s, bit, sub, limit, s', p, summary)
    ensures Limb(s', bit, sub + [p])
  {
    hide Hole, Slot, ChildIndex, LimbHolds, LeafOk, BranchOk;
    var all := sub + [p];
    var n := |sub|;
    assert sub[n - 1] in s.pages;
    NoPageZero(s, sub[n - 1]);
    TopBranchOk(s.txn, n, ChildIndex(bit, n), sub[n - 1], summary);
    forall l | 0 <= l < |all|
      ensures Private(s', all[l]) && PageOk(s'.pages[all[l]], l, s'.txn) && (l < n ==> all[l] == sub[l] && s'.pages[all[l]] == s.pages[sub[l]])
    {
      if l < n { assert all[l] == sub[l] && sub[l] in s.pages; }
    }
  }

  lemma LimbGrowsHolds(s: Store, bit: nat, sub: seq<nat>, limit: nat, s': Store, p: nat, summary: seq<bool>)
    requires Topped(s, bit, sub, limit, s', p, summary) && Limb(s', bit, sub + [p])
    ensures LimbHolds(s', bit, sub + [p], limit)
  {
    hide Hole, Slot, ChildIndex, StoreOk, LeafOk;
    var all := sub + [p];
    assert forall l {:trigger all[l]} :: 0 <= l < |sub| ==> all[l] == sub[l] && sub[l] in s.pages && s'.pages[all[l]] == s.pages[sub[l]];
  }

  /** used_tree.go newUsedSubtree: the single path to a bit, with every summary filled in. */
  method NewUsedSubtree(s0: Store, level: nat, base: nat, limit: nat, bit: nat)
    returns (s: Store, page: nat, ghost sub: seq<nat>)
    requires StoreOk(s0) && base == Base(At(bit, level))
    ensures StoreOk(s) && s.txn == s0.txn
    ensures |sub| == level + 1 && sub[level] == page && Limb(s, bit, sub) && LimbHolds(s, bit, sub, limit)
    ensures forall l {:trigger sub[l]} :: 0 <= l < |sub| ==> sub[l] !in s0.pages
    ensures forall x {:trigger x in s0.pages} :: x in s0.pages ==> x in s.pages && s.pages[x] == s0.pages[x]
    ensures Conserved(s0, s) && forall x {:trigger x in s.pages} :: x in s.pages ==> x in s0.pages || x in sub
    decreases level
  {
    hide Hole, PageHole, CoverageIntersects, ChildIndex, SingleLeaf, LimbHolds, StoreOk, PageOk, Conserved;
    if level == 0 {
      var (s1, p) := Allocate(s0);
      assert SingleLeaf(s0.txn, bit).born == s0.txn by { LeafBorn(s0.txn, bit); }
      s := Update(s1, p, SingleLeaf(s0.txn, bit));
      NewPageConserves(s0, SingleLeaf(s0.txn, bit));
      LimbStarts(s, bit, p, limit);
      return s, p, [p];
    }
    var span := Coverage(level - 1);
    var index := ChildIndex(bit, level);
    var childBase := base + span * index;
    ChildBase(At(bit, level), index);
    var s1, child;
    ghost var below;
    s1, child, below := NewUsedSubtree(s0, level - 1, childBase, limit, bit);
    LimbPageHole(s1, bit, below, limit);
    LimbTopOk(s1, bit, below);
    BaseAligned(At(bit, level - 1));
    var candidate := PageHasCandidate(s1.pages[child], level - 1, childBase, limit);
    var summary := InitializeSummary(base, span, limit);
    forall i | 0 <= i < FANOUT
      ensures summary[index := candidate][i] <==> Hole({bit}, Child(At(bit, level), i), limit)
    {
      FreshSummary(bit, level, limit, summary, candidate, i);
    }
    var (s2, p) := Allocate(s1);
    var branch := SingleBranch(s0.txn, level, index, child, summary, candidate);
    s := Update(s2, p, branch);
    NewPageConserves(s1, branch);
    ConservesTransitive(s0, s1, s);
    assert s.pages == s1.pages[p := branch];
    LimbGrows(s1, bit, below, limit, s, p, summary[index := candidate]);
    LimbGrowsHolds(s1, bit, below, limit, s, p, summary[index := candidate]);
    page, sub := p, below + [p];
  }

  // ----- meaning of a tree with a fresh limb

  /** Off the path to `bit`, setting `bit` fills no hole. */
  lemma HoleOffPath(used: set<nat>, q: Pos, limit: nat, bit: nat)
    requires q != At(bit, q.level)
    ensures Hole(used + {bit}, q, limit) <==> Hole(used, q, limit)
    ensures Hole(used, q, bit + 1) <==> Hole(used, q, bit)
  {
  }

  /** With the hanging point's own summary bit set right, summaries are exact up to the hanging page. */
  lemma LimbExact(s: Store, v: View, bit: nat, sub: seq<nat>, s': Store, w: View, used: set<nat>, limit: nat)
    requires Tree(s, v) && Denotes(s, v, used) && Hung(s, v, bit, sub, s') && LimbView(v, bit, sub, w) && Tree(s', w)
    requires LimbHolds(s', bit, sub, limit) && ExactBelow(s, v, used + {bit}, limit, bit, 0)
    requires |sub| > 0 && HangsShown(s, v, bit, sub, s', Hole(used + {bit}, At(bit, |sub| - 1), limit))
    ensures ExactBelow(s', w, used + {bit}, limit, bit, if |sub| <= v.top then |sub| else v.top)
  {
    var level := if |sub| <= v.top then |sub| else v.top;
    forall q | Parent(q) in w.loc && (q.level < level || q != At(bit, q.level))
      ensures Advertised(s', w, q) <==> Hole(used + {bit}, q, limit)
    {
      if Parent(q) in v.loc {
        LimbAdvertOld(s, v, bit, sub, s', w, used, limit, q);
      } else {
        LimbAdvertNew(s, v, bit, sub, s', w, used, limit, q);
      }
    }
  }

  lemma LimbAdvertOld(s: Store, v: View, bit: nat, sub: seq<nat>, s': Store, w: View, used: set<nat>, limit: nat, q: Pos)
    requires Tree(s, v) && Hung(s, v, bit, sub, s') && LimbView(v, bit, sub, w) && Tree(s', w)
    requires ExactBelow(s, v, used + {bit}, limit, bit, 0)
    requires Parent(q) in v.loc && (q.level < |sub| || q != At(bit, q.level))
    requires |sub| > 0 && HangsShown(s, v, bit, sub, s', Hole(used + {bit}, At(bit, |sub| - 1), limit))
    ensures Parent(q) in w.loc && (Advertised(s', w, q) <==> Hole(used + {bit}, q, limit))
  {
    hide StoreOk, Rooted, Linked, Inverse, Placed, Hole, LimbView, Limb, Conserved;
    LimbOldPage(s, v, bit, sub, s', w, Parent(q));
    if q == At(bit, q.level) {
      assert Parent(q) == At(bit, q.level + 1);
      assert q.level + 1 == |sub|;
    } else {
      assert Advertised(s, v, q) <==> Hole(used + {bit}, q, limit);
      if |sub| <= v.top && Parent(q) == At(bit, |sub|) { assert q.k % FANOUT != ChildIndex(bit, |sub|); }
    }
  }

  lemma LimbAdvertNew(s: Store, v: View, bit: nat, sub: seq<nat>, s': Store, w: View, used: set<nat>, limit: nat, q: Pos)
    requires Tree(s, v) && Denotes(s, v, used) && Hung(s, v, bit, sub, s') && LimbView(v, bit, sub, w) && Tree(s', w)
    requires LimbHolds(s', bit, sub, limit)
    requires Parent(q) in w.loc && Parent(q) !in v.loc
    ensures Advertised(s', w, q) <==> Hole(used + {bit}, q, limit)
  {
    hide StoreOk, Linked, LeafOk, ChildIndex, Placed, Inverse, Denotes, Hung, LimbView, Rooted, Conserved;
    var l := q.level + 1;
    LimbNewPage(s, v, bit, sub, s', w, q);
    assert s'.pages[sub[l]].summary[q.k % FANOUT] <==> Hole({bit}, q, limit);
    forall b: nat | Slot(b, q.level) == q.k ensures b !in used {
      AbsentIsUnused(s, v, used, At(bit, l), b);
    }
  }

  // ----- marking an ID used

  /** used.go insertMissing: hang a fresh subtree where the path to the bit ends. */
  method InsertMissing(s0: Store, ghost retired: seq<nat>, path: seq<Frame>, page: nat, level: nat, base: nat, limit: nat, bit: nat,
                       dense: bool, ghost v0: View, ghost used: set<nat>)
    returns (s: Store, ghost v: View)
    requires Cow(s0, retired, v0) && Denotes(s0, v0, used)
    requires ExactBelow(s0, v0, used + {bit}, limit, bit, 0) && (dense ==> AllUsed(used + {bit}, FIRST, limit))
    requires PathOk(s0, v0, bit, path, level) && level > 0 && At(bit, level - 1) !in v0.loc
    requires At(bit, level) in v0.loc && v0.loc[At(bit, level)] == page && Private(s0, page) && base == Base(At(bit, level))
    ensures Cow(s, retired, v) && Denotes(s, v, used + {bit}) && Exact(s, v, used + {bit}, limit)
    ensures v.root == v0.root && v.top == v0.top && SameOrigin(v0, v)
  {
    hide StoreOk, Placed, Rooted, Linked, Inverse, Books, Denotes, ExactBelow, Exact, Limb, LimbView, LimbLeaf, PageHole, PageOk, Hung;
    var index := ChildIndex(bit, level);
    var childBase := base + Coverage(level - 1) * index;
    ChildBase(At(bit, level), index);
    BranchLink(s0, v0, At(bit, level), index);
    var s1, child;
    ghost var sub;
    s1, child, sub := NewUsedSubtree(s0, level - 1, childBase, limit, bit);
    var candidate := false;
    LimbPageHole(s1, bit, sub, limit);
    LimbTopOk(s1, bit, sub);
    BaseAligned(At(bit, level - 1));
    if !dense {
      candidate := PageHasCandidate(s1.pages[child], level - 1, childBase, limit);
    }
    FreshHole(s0, v0, used, limit, At(bit, level - 1), bit);
    s := Update(s1, page, ReplaceChild(s1.pages[page], index, child, candidate));
    HangingIsHung(s0, v0, bit, sub, s1, page, candidate, s);
    assert Limb(s, bit, sub) by { HungLimb(s0, v0, bit, sub, s); }
    HungHolds(s1, bit, sub, s, limit);
    LimbCow(s0, retired, v0, bit, sub, s);
    v := WithLimb(v0, bit, sub);
    LimbDenotes(s0, v0, bit, sub, s, v, used);
    LimbExact(s0, v0, bit, sub, s, v, used, limit);
    PathGrafted(s0, v0, s, v, bit, path, sub);
    s := Propagate(s, retired, path, page, level, base, limit, if dense then Some(candidate) else None, v, bit, used + {bit});
  }

  /** In an absent position only `bit` will be used. */
  lemma FreshHole(s: Store, v: View, used: set<nat>, limit: nat, q: Pos, bit: nat)
    requires Tree(s, v) && Denotes(s, v, used) && q !in v.loc && q.level <= v.top
    ensures Hole(used + {bit}, q, limit) <==> Hole({bit}, q, limit)
  {
    hide StoreOk, Placed, Rooted, Linked, Inverse, Denotes;
    forall b: nat | Slot(b, q.level) == q.k ensures b !in used {
      AbsentIsUnused(s, v, used, q, b);
    }
  }

  lemma HungHolds(s1: Store, bit: nat, sub: seq<nat>, s: Store, limit: nat)
    requires |sub| > 0 && Limb(s1, bit, sub) && LimbHolds(s1, bit, sub, limit) && Limb(s, bit, sub)
    requires forall l {:trigger sub[l]} :: 0 <= l < |sub| ==> s.pages[sub[l]] == s1.pages[sub[l]]
    ensures LimbHolds(s, bit, sub, limit)
  {
    hide Hole, Slot, ChildIndex;
  }

  /** Raising the root keeps the meaning; the new summaries are exact off the path to the appended bit. */
  lemma RaisedMeaning(s: Store, v: View, s': Store, p: nat, used: set<nat>, bit: nat, limit: nat)
    requires Tree(s, v) && RaisedBy(s, v, s', p) && Tree(s', Raised(v, p)) && Denotes(s, v, used)
    requires ExactBelow(s, v, used + {bit}, limit, bit, 0)
    requires forall i {:trigger s'.pages[p].summary[i]} :: 0 <= i < FANOUT && Pos(v.top, i) != At(bit, v.top) ==>
               (s'.pages[p].summary[i] <==> Hole(used + {bit}, Pos(v.top, i), limit))
    ensures Denotes(s', Raised(v, p), used) && ExactBelow(s', Raised(v, p), used + {bit}, limit, bit, 0)
  {
    hide StoreOk, Rooted, Linked, LeafOk, Hole, Conserved;
    var w := Raised(v, p);
    forall b: nat ensures Has(s', w, b) <==> Has(s, v, b) {
      if At(b, 0) in v.loc { assert v.loc[At(b, 0)] in v.pos; }
    }
    forall q | Parent(q) in w.loc && q != At(bit, q.level) ensures Advertised(s', w, q) <==> Hole(used + {bit}, q, limit) {
      if Parent(q) == Pos(v.top + 1, 0) {
        assert q == Pos(v.top, q.k % FANOUT);
      } else {
        assert v.loc[Parent(q)] in v.pos;
        assert Advertised(s', w, q) == Advertised(s, v, q);
      }
    }
  }

  /** The old root lies off the path to an appended bit, so its page advertises exactly its holes. */
  lemma OldRootHole(s: Store, v: View, used: set<nat>, bit: nat, limit: nat)
    requires Tree(s, v) && Denotes(s, v, used) && ExactBelow(s, v, used + {bit}, limit, bit, 0)
    requires v.root != 0 && Slot(bit, v.top) != 0
    ensures v.root in s.pages && if v.top == 0 then LeafOk(s.pages[v.root]) else BranchOk(s.pages[v.root], v.top)
    ensures PageHole(s.pages[v.root], 0, limit) <==> Hole(used + {bit}, Pos(v.top, 0), limit)
  {
    hide StoreOk, Rooted, Linked, Placed, Inverse, Denotes, PageHole, Hole;
    var q := Pos(v.top, 0);
    BitmapStore.RootAt(s, v);
    if v.top > 0 {
      forall i | 0 <= i < FANOUT && Parent(Child(q, i)) in v.loc
        ensures Advertised(s, v, Child(q, i)) <==> Hole(used, Child(q, i), limit)
      {
        assert Parent(Child(q, i)) == q;
        assert Child(q, i) != At(bit, v.top - 1);
        assert Advertised(s, v, Child(q, i)) <==> Hole(used + {bit}, Child(q, i), limit);
        HoleOffPath(used, Child(q, i), limit, bit);
      }
    }
    PageHoleMeaning(s, v, used, limit, q);
    HoleOffPath(used, q, limit, bit);
  }

  /** used_tree.go growUsedRoot: raise the root until it covers the limit. */
  method GrowUsedRoot(s0: Store, ghost retired: seq<nat>, root0: nat, required: nat, limit: nat, ghost bit: nat,
                      ghost v0: View, ghost used: set<nat>)
    returns (s: Store, root: nat, ghost v: View)
    requires Cow(s0, retired, v0) && Denotes(s0, v0, used) && ExactBelow(s0, v0, used + {bit}, limit, bit, 0)
    requires v0.root == root0 != 0 && v0.top <= required
    requires forall l {:trigger Slot(bit, l)} :: v0.top <= l < required ==> Slot(bit, l) != 0
    ensures Cow(s, retired, v) && Denotes(s, v, used) && ExactBelow(s, v, used + {bit}, limit, bit, 0)
    ensures v.root == root != 0 && v.top == required && SameOrigin(v0, v)
  {
    hide StoreOk, Rooted, Linked, Placed, Inverse, Denotes, PageHole, Hole, ExactBelow, Books, CoverageIntersects, Conserved;
    s, root, v := s0, root0, v0;
    var level := PageLevel(s, root, v);
    while level < required
      invariant Cow(s, retired, v) && Denotes(s, v, used) && ExactBelow(s, v, used + {bit}, limit, bit, 0)
      invariant v.root == root != 0 && v0.top <= v.top == level <= required && SameOrigin(v0, v)
    {
      OldRootHole(s, v, used, bit, limit);
      var candidate := PageHasCandidate(s.pages[root], level, 0, limit);
      var (s1, parent) := Allocate(s);
      var span := Coverage(level);
      var summary := InitializeSummary(0, span, limit);
      var branch := SingleBranch(s.txn, level + 1, 0, root, summary, candidate);
      TxnPositive(s);
      SingleBranchOk(s.txn, level + 1, 0, root, summary, candidate);
      var s2 := Update(s1, parent, branch);
      NewPageConserves(s, branch);
      forall i | 0 <= i < FANOUT && Pos(level, i) != At(bit, level)
        ensures summary[0 := candidate][i] <==> Hole(used + {bit}, Pos(level, i), limit)
      {
        if i > 0 { OutsideTree(s, v, used, bit, i, limit); }
      }
      RaisedCow(s, retired, v, s2, parent);
      RaisedMeaning(s, v, s2, parent, used, bit, limit);
      s, v, root, level := s2, Raised(v, parent), parent, level + 1;
    }
  }

  /** Beside the root there is nothing yet. */
  lemma OutsideTree(s: Store, v: View, used: set<nat>, bit: nat, i: nat, limit: nat)
    requires Tree(s, v) && Denotes(s, v, used) && 0 < i && Pos(v.top, i) != At(bit, v.top)
    ensures CoverageIntersects(Coverage(v.top) * i, Coverage(v.top), limit) <==> Hole(used + {bit}, Pos(v.top, i), limit)
  {
    hide CoverageIntersects, Hole, StoreOk, Linked, Placed;
    var q := Pos(v.top, i);
    assert q !in v.loc;
    forall b | b in used + {bit} ensures Slot(b, v.top) != i {
      if b != bit && Slot(b, v.top) == i { AbsentIsUnused(s, v, used, q, b); }
    }
    assert Base(q) == Coverage(v.top) * i;
    IntersectsIsHole(q, limit, used + {bit});
  }

  method FirstSubtree(s0: Store, ghost retired: seq<nat>, required: nat, limit: nat, bit: nat, ghost v0: View, ghost used: set<nat>)
    returns (s: Store, root: nat, ghost v: View)
    requires Cow(s0, retired, v0) && v0.root == 0 && Denotes(s0, v0, used) && Slot(bit, required) == 0
    ensures Cow(s, retired, v) && Denotes(s, v, used + {bit}) && Exact(s, v, used + {bit}, limit)
    ensures v.root == root != 0 && v.top == required && SameOrigin(v0, v)
  {
    hide StoreOk, Placed, Rooted, Linked, Inverse, Books, Denotes, ExactBelow, Exact, LimbLeaf, PageOk;
    EmptyRetop(s0, retired, v0, required, used);
    ghost var v1 := v0.(top := required);
    var page;
    ghost var sub;
    s, page, sub := NewUsedSubtree(s0, required, 0, limit, bit);
    root := page;
    LimbCow(s0, retired, v1, bit, sub, s);
    v := WithLimb(v1, bit, sub);
    LimbDenotes(s0, v1, bit, sub, s, v, used);
    EmptyExact(s0, v1, used + {bit}, limit, bit);
    LimbExact(s0, v1, bit, sub, s, v, used, limit);
    NothingExempt(s, v, used + {bit}, limit, bit);
    assert root >= 2 by { LimbTopOk(s, bit, sub); NoPageZero(s, page); }
  }

  lemma EmptyExact(s: Store, v: View, used: set<nat>, limit: nat, bit: nat)
    requires Tree(s, v) && v.root == 0
    ensures ExactBelow(s, v, used, limit, bit, 0)
  {
  }

  /** used.go setInner: mark one unused ID used. */
  method SetInner(s0: Store, retired0: seq<nat>, root0: nat, limit: nat, bit: nat, dense: bool, ghost v0: View, ghost used: set<nat>)
    returns (s: Store, retired: seq<nat>, root: nat, ghost v: View)
    requires Cow(s0, retired0, v0) && v0.root == root0 && Denotes(s0, v0, used)
    requires FIRST <= bit < limit <= ID_SPACE && bit !in used && forall b :: b in used ==> FIRST <= b < limit
    requires ExactBelow(s0, v0, used + {bit}, limit, bit, 0)
    requires root0 != 0 ==> v0.top <= RequiredLevel(limit) && (v0.top < RequiredLevel(limit) ==> limit == bit + 1)
    requires dense ==> AllUsed(used + {bit}, FIRST, limit)
    ensures Cow(s, retired, v) && Bitmap(s, v, used + {bit}, limit)
    ensures v.root == root && SameOrigin(v0, v)
  {
    hide StoreOk, Placed, Rooted, Linked, Inverse, Books, Denotes, ExactBelow, Exact, SameData, AllUsed;
    var level := RequiredLevel(limit);
    TopCoversAll(bit, limit);
    if root0 == 0 {
      s, root, v := FirstSubtree(s0, retired0, level, limit, bit, v0, used);
      return s, retired0, root, v;
    }
    forall l | v0.top <= l < level ensures Slot(bit, l) != 0 {
      SlotInterval(bit, l, 0);
    }
    ghost var v1, v2;
    var s1, root1 := s0, root0;
    s1, root1, v1 := GrowUsedRoot(s0, retired0, root0, level, limit, bit, v0, used);
    var s2, path, page, at, base;
    s2, retired, root, path, page, at, base, v2 := Descend(s1, retired0, root1, level, bit, v1);
    DataDenotes(s1, v1, s2, v2, used);
    DataExact(s1, v1, s2, v2, used + {bit}, limit, bit, 0);
    SameShape(s1, v1, s2, v2);
    SameFixed(s1, v1, s2, v2);
    if at > 0 {
      s, v := InsertMissing(s2, retired, path, page, at, base, limit, bit, dense, v2, used);
    } else {
      s := SetLeaf(s2, retired, path, page, base, limit, bit, dense, v2, used);
      v := v2;
    }
  }

  // ----- releasing an ID

  /** Dropping a page changes no other page's summaries. */
  lemma DropExact(s: Store, v: View, q: Pos, used: set<nat>, limit: nat, bit: nat, level: nat)
    requires Inverse(v) && Placed(s, v) && q in v.loc && Private(s, v.loc[q]) && StoreOk(s)
    requires Inverse(Without(v, q)) && Placed(Discard(s, v.loc[q]), Without(v, q))
    requires ExactBelow(s, v, used, limit, bit, level)
    ensures ExactBelow(Discard(s, v.loc[q]), Without(v, q), used, limit, bit, level)
  {
    hide StoreOk, PageOk, Hole;
    var s' := Discard(s, v.loc[q]);
    var w := Without(v, q);
    forall x | Parent(x) in w.loc ensures Parent(x) in v.loc && Advertised(s', w, x) == Advertised(s, v, x) {
    }
  }

  lemma AbsentHole(s: Store, v: View, used: set<nat>, q: Pos, limit: nat)
    requires Inverse(v) && Placed(s, v) && Rooted(v) && Denotes(s, v, used) && q !in v.loc && q.level <= v.top
    ensures CoverageIntersects(Base(q), Coverage(q.level), limit) <==> Hole(used, q, limit)
  {
    hide Inverse, Placed, Rooted, Denotes, CoverageIntersects, Hole;
    forall b | b in used ensures Slot(b, q.level) != q.k {
      if Slot(b, q.level) == q.k { AbsentIsUnused(s, v, used, q, b); }
    }
    IntersectsIsHole(q, limit, used);
  }

  /** The page above a path position, rewritten at that position's summary bit only. */
  ghost predicate BitOf(s: Store, v: View, bit: nat, level: nat, page: Page) {
    && StoreOk(s) && Inverse(v) && Placed(s, v) && At(bit, level + 1) in v.loc
    && var p := v.loc[At(bit, level + 1)];
    && Private(s, p) && page.born == s.txn && s.pages[p].Branch? && page.Branch? && |page.summary| == |s.pages[p].summary| == FANOUT
    && Placed(Update(s, p, page), v)
    && forall j :: 0 <= j < FANOUT && j != ChildIndex(bit, level + 1) ==> page.summary[j] == s.pages[p].summary[j]
  }

  lemma BitOfDenotes(s: Store, v: View, used: set<nat>, bit: nat, level: nat, page: Page)
    requires BitOf(s, v, bit, level, page) && Denotes(s, v, used)
    ensures Denotes(Update(s, v.loc[At(bit, level + 1)], page), v, used)
  {
    hide StoreOk, Slot;
    var p := v.loc[At(bit, level + 1)];
    var s' := Update(s, p, page);
    assert p in v.pos && v.pos[p] == At(bit, level + 1);
    forall b: nat ensures Has(s', v, b) <==> Has(s, v, b) {
      if At(b, 0) in v.loc { assert v.loc[At(b, 0)] in v.pos; }
    }
  }

  /** The summary bit of the dropped child is set right while the link to it is closed. */
  lemma BitOfExact(s: Store, v: View, used: set<nat>, limit: nat, bit: nat, level: nat, page: Page)
    requires BitOf(s, v, bit, level, page) && ExactBelow(s, v, used, limit, bit, level)
    requires page.summary[ChildIndex(bit, level + 1)] <==> Hole(used, At(bit, level), limit)
    ensures ExactBelow(Update(s, v.loc[At(bit, level + 1)], page), v, used, limit, bit, level + 1)
  {
    hide StoreOk, Slot, Hole, Inverse, Placed, Parent, Child, ChildIndex;
    var s' := Update(s, v.loc[At(bit, level + 1)], page);
    forall q | Parent(q) in v.loc
      ensures Advertised(s', v, q) == if q == At(bit, level) then page.summary[ChildIndex(bit, level + 1)] else Advertised(s, v, q)
    {
      UnlinkAdvert(s, v, bit, level, page, q);
    }
  }

  lemma UnlinkAdvert(s: Store, v: View, bit: nat, level: nat, page: Page, q: Pos)
    requires BitOf(s, v, bit, level, page) && Parent(q) in v.loc
    ensures var s' := Update(s, v.loc[At(bit, level + 1)], page);
            Advertised(s', v, q) == if q == At(bit, level) then page.summary[ChildIndex(bit, level + 1)] else Advertised(s, v, q)
  {
    hide StoreOk, PageOk, Slot, Parent, Child;
    ChildOfParent(q);
    assert v.loc[Parent(q)] in v.pos && v.loc[At(bit, level + 1)] in v.pos;
    ParentOfChild(At(bit, level + 1), ChildIndex(bit, level + 1));
  }

  /** used_tree.go removeEmptyPath: forget the emptied child, page by page, up to the first page that keeps one. */
  method RemoveEmptyPath(s0: Store, ghost retired: seq<nat>, root0: nat, top: nat, path: seq<Frame>, limit: nat,
                         ghost v0: View, ghost bit: nat, ghost used: set<nat>)
    returns (s: Store, root: nat, ghost v: View)
    requires CowBut(s0, retired, v0, At(bit, 0)) && At(bit, 0) !in v0.loc && v0.top == top && Slot(bit, top) == 0
    requires Denotes(s0, v0, used) && ExactBelow(s0, v0, used, limit, bit, 0)
    requires PathOk(s0, v0, bit, path, 0) && v0.root == if top == 0 then 0 else root0
    ensures Cow(s, retired, v) && Denotes(s, v, used) && Exact(s, v, used, limit)
    ensures v.root == root && v.top == v0.top && SameOrigin(v0, v)
  {
    hide StoreOk, Inverse, Placed, Rooted, Books, Denotes, ExactBelow, Exact, Hole, CoverageIntersects, Childless;
    s, v := s0, v0;
    var depth := |path|;
    ghost var level := 0;
    while depth > 0
      invariant 0 <= depth <= |path| && level + depth == top && v.top == top && SameOrigin(v0, v)
      invariant CowBut(s, retired, v, At(bit, level)) && At(bit, level) !in v.loc
      invariant Denotes(s, v, used) && ExactBelow(s, v, used, limit, bit, level)
      invariant PathOk(s, v, bit, path[..depth], level) && v.root == if depth == 0 then 0 else root0
    {
      depth := depth - 1;
      var f := path[depth];
      ghost var r := At(bit, level);
      assert FrameOk(s, v, bit, path[..depth + 1][depth], level + 1);
      assert Parent(r) == At(bit, level + 1);
      OpenParent(s, v, r);
      var candidate := CoverageIntersects(f.childBase, Coverage(f.level - 1), limit);
      AbsentHole(s, v, used, r, limit);
      ReplaceChildCount(s.pages[f.page], f.index, 0, candidate);
      var page := ReplaceChild(s.pages[f.page], f.index, 0, candidate);
      if page.count != 0 {
        UnlinkCow(s, retired, v, r, page);
        BitOfDenotes(s, v, used, bit, level, page);
        BitOfExact(s, v, used, limit, bit, level, page);
        var s1 := Update(s, f.page, page);
        PathShortens(s, v, s1, bit, path[..depth + 1], level);
        assert path[..depth + 1][..depth] == path[..depth];
        ChildBase(At(bit, level + 1), f.index);
        s := Propagate(s1, retired, path[..depth], f.page, f.level, f.childBase - Coverage(f.level - 1) * f.index, limit, None, v, bit, used);
        root := root0;
        return;
      }
      OpenOnly(s, v, r, candidate);
      DropCow(s, retired, v, r, Parent(r));
      DropBranchMeaning(s, v, Parent(r), used, limit, bit, level);
      ghost var v1 := Without(v, Parent(r));
      var s1 := Discard(s, f.page);
      PathPops(s, v, s1, v1, bit, path[..depth + 1], level);
      assert path[..depth + 1][..depth] == path[..depth];
      s, v, level := s1, v1, level + 1;
    }
    root := 0;
    AllGone(s, retired, v, At(bit, level), used, limit);
  }

  lemma DropBranchMeaning(s: Store, v: View, q: Pos, used: set<nat>, limit: nat, bit: nat, level: nat)
    requires TreeBut(s, v, At(bit, level)) && q in v.loc && q == At(bit, level + 1) && Private(s, v.loc[q])
    requires TreeBut(Discard(s, v.loc[q]), Without(v, q), q)
    requires Denotes(s, v, used) && ExactBelow(s, v, used, limit, bit, level)
    ensures Denotes(Discard(s, v.loc[q]), Without(v, q), used)
    ensures ExactBelow(Discard(s, v.loc[q]), Without(v, q), used, limit, bit, level + 1)
  {
    hide StoreOk, Placed, Inverse, Rooted, Hole;
    DropDenotes(s, v, q, used);
    DropExact(s, v, q, used, limit, bit, level);
    assert Parent(At(bit, level)) == q;
  }

  lemma AllGone(s: Store, retired: seq<nat>, v: View, r: Pos, used: set<nat>, limit: nat)
    requires CowBut(s, retired, v, r) && v.root == 0 && Denotes(s, v, used)
    ensures Cow(s, retired, v) && Exact(s, v, used, limit) && used == {}
  {
    assert Tree(s, v);
    EmptyTree(s, v, used);
  }

  lemma ExactAfterClear(s: Store, v: View, used: set<nat>, limit: nat, bit: nat)
    requires Tree(s, v) && Exact(s, v, used, limit) && bit in used
    ensures ExactBelow(s, v, used - {bit}, limit, bit, 0)
  {
    hide StoreOk, Placed, Rooted, Linked, Inverse, Hole;
    assert used - {bit} + {bit} == used;
    forall q | Parent(q) in v.loc && q != At(bit, q.level) ensures Advertised(s, v, q) <==> Hole(used - {bit}, q, limit) {
      HoleOffPath(used - {bit}, q, limit, bit);
    }
  }

  /** used.go clearLeaf, when the leaf keeps some bit. */
  method ClearInLeaf(s0: Store, ghost retired: seq<nat>, path: seq<Frame>, page: nat, base: nat, limit: nat, bit: nat,
                     ghost v: View, ghost used: set<nat>)
    returns (s: Store)
    requires Cow(s0, retired, v) && Denotes(s0, v, used) && bit in used && FIRST <= bit < limit
    requires ExactBelow(s0, v, used - {bit}, limit, bit, 0) && PathOk(s0, v, bit, path, 0)
    requires At(bit, 0) in v.loc && v.loc[At(bit, 0)] == page && Private(s0, page) && base == Base(At(bit, 0))
    requires WithWord(s0, v, bit, s0.pages[page].words[(bit % LEAF_BITS) / 64] - {bit % 64}).count > 0
    ensures Cow(s, retired, v) && Denotes(s, v, used - {bit}) && Exact(s, v, used - {bit}, limit)
  {
    hide StoreOk, Placed, Rooted, Linked, Inverse, Books, Denotes, ExactBelow, Exact;
    LeafAt(s0, v, At(bit, 0), bit);
    BitMeaning(s0, v, used, bit);
    PosOf(s0, v, At(bit, 0));
    var leaf := s0.pages[page];
    var index := (bit % LEAF_BITS) / 64;
    var word := leaf.words[index] - {bit % 64};
    SetWordCount(leaf, index, word);
    WithWordRewritable(s0, v, bit, word);
    WithWordMeaning(s0, v, used, bit, word, used - {bit});
    LeafKeepsSummaries(s0, v, page, WithWord(s0, v, bit, word), used - {bit}, limit, bit, 0);
    RewriteCow(s0, retired, v, page, WithWord(s0, v, bit, word));
    s := Update(s0, page, SetWord(leaf, index, word));
    PathKept(s0, v, s, bit, path, 0);
    assert Hole(used - {bit}, At(bit, 0), limit);
    s := Propagate(s, retired, path, page, 0, base, limit, Some(true), v, bit, used - {bit});
  }

  /** used.go clearLeaf and removeEmptyPath, when the leaf becomes empty. */
  method ClearLastBit(s0: Store, ghost retired: seq<nat>, root0: nat, top: nat, path: seq<Frame>, page: nat, limit: nat, bit: nat,
                      ghost v0: View, ghost used: set<nat>)
    returns (s: Store, root: nat, ghost v: View)
    requires Cow(s0, retired, v0) && Denotes(s0, v0, used) && bit in used && v0.top == top && v0.root == root0 && Slot(bit, top) == 0
    requires ExactBelow(s0, v0, used - {bit}, limit, bit, 0) && PathOk(s0, v0, bit, path, 0)
    requires At(bit, 0) in v0.loc && v0.loc[At(bit, 0)] == page && Private(s0, page)
    requires LeafOk(s0.pages[page]) && s0.pages[page].count == 1 && s0.pages[page].words[(bit % LEAF_BITS) / 64] == {bit % 64}
    ensures Cow(s, retired, v) && Denotes(s, v, used - {bit}) && Exact(s, v, used - {bit}, limit)
    ensures v.root == root && v.top == v0.top && SameOrigin(v0, v)
  {
    hide StoreOk, Placed, Rooted, Inverse, Linked, Books, Denotes, ExactBelow, Exact, LeafOk;
    ghost var q := At(bit, 0);
    LastBit(s0, v0, used, bit);
    OpenAny(s0, v0, q);
    DropCow(s0, retired, v0, q, q);
    ghost var v1 := Without(v0, q);
    var s1 := Discard(s0, page);
    forall b: nat ensures b in used <==> Has(s0, v0, b) { BitMeaning(s0, v0, used, b); }
    DropDenotes(s0, v0, q, used - {bit});
    DropExact(s0, v0, q, used - {bit}, limit, bit, 0);
    PathAbove(s0, v0, s1, v1, bit, path);
    s, root, v := RemoveEmptyPath(s1, retired, root0, top, path, limit, v1, bit, used - {bit});
  }

  /** used.go ClearUsed: release one ID; reports whether it was used. */
  method ClearUsed(s0: Store, retired0: seq<nat>, root0: nat, limit: nat, bit: nat, ghost v0: View, ghost used: set<nat>)
    returns (cleared: bool, s: Store, retired: seq<nat>, root: nat, ghost v: View)
    requires Cow(s0, retired0, v0) && Bitmap(s0, v0, used, limit) && v0.root == root0 && FIRST <= bit < limit
    ensures cleared <==> bit in used
    ensures Cow(s, retired, v) && Bitmap(s, v, used - {bit}, limit)
    ensures v.root == root && SameOrigin(v0, v)
  {
    hide StoreOk, Placed, Rooted, Inverse, Linked, Books, Denotes, ExactBelow, Exact, LeafOk, SameData, RequiredLevel;
    cleared := Contains(s0, root0, limit, bit, v0, used);
    if !cleared {
      assert used - {bit} == used;
      return false, s0, retired0, root0, v0;
    }
    if root0 == 0 { EmptyTree(s0, v0, used); }
    var top := RequiredLevel(limit);
    TopCoversAll(bit, limit);
    ExactAfterClear(s0, v0, used, limit, bit);
    var s1, root1, path, page, at, base;
    ghost var v1;
    s1, retired, root1, path, page, at, base, v1 := Descend(s0, retired0, root0, top, bit, v0);
    DataDenotes(s0, v0, s1, v1, used);
    DataExact(s0, v0, s1, v1, used - {bit}, limit, bit, 0);
    SameShape(s0, v0, s1, v1);
    SameFixed(s0, v0, s1, v1);
    if at > 0 { AbsentIsUnused(s1, v1, used, At(bit, at - 1), bit); }
    BitMeaning(s1, v1, used, bit);
    LeafAt(s1, v1, At(bit, 0), bit);
    var leaf := s1.pages[page];
    var index := (bit % LEAF_BITS) / 64;
    var word := leaf.words[index] - {bit % 64};
    LeafCount(leaf, index, word);
    if SetWord(leaf, index, word).count == 0 {
      s, root, v := ClearLastBit(s1, retired, root1, top, path, page, limit, bit, v1, used);
    } else {
      s := ClearInLeaf(s1, retired, path, page, base, limit, bit, v1, used);
      root, v := root1, v1;
    }
  }

}
