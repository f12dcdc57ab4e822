/**
 The free-page bitmap (v4/go/internal/bitmap/free.go): a set of page numbers with
 SetFree and TakeLowest, edited copy-on-write. Here a summary bit says that the child
 is present.
 */
module FreeBitmap {
  import opened BitmapLayout
  import opened BitmapStore
  import opened BitmapBits

  /** Summary bits equal child presence, except possibly for one position. */
  ghost predicate PresentBut(s: Store, v: View, r: Pos)
    requires Inverse(v) && Placed(s, v)
  {
    forall q {:trigger Advertised(s, v, q)} :: Parent(q) in v.loc && q != r ==> (Advertised(s, v, q) <==> q in v.loc)
  }

  ghost predicate Present(s: Store, v: View)
    requires Inverse(v) && Placed(s, v)
  {
    forall q {:trigger Advertised(s, v, q)} :: Parent(q) in v.loc ==> (Advertised(s, v, q) <==> q in v.loc)
  }

  /** The tree denotes a set of allocatable page numbers, with summaries equal to presence. */
  ghost predicate FreeSet(s: Store, v: View, free: set<nat>) {
    && Tree(s, v) && Denotes(s, v, free) && Present(s, v) && v.top <= MAX_LEVEL
    && forall b :: b in free ==> 2 <= b < ID_SPACE
  }

  /** A summary bit in numbers: the child is there, and that is when a free page lies in its span. */
  lemma PresenceLayout(s: Store, v: View, free: set<nat>, level: nat, k: nat, i: nat)
    requires FreeSet(s, v, free) && level > 0 && Pos(level, k) in v.loc && i < 256
    ensures v.loc[Pos(level, k)] in s.pages
    ensures
      var p := s.pages[v.loc[Pos(level, k)]];
      && p.Branch? && |p.summary| == |p.children| == 256
      && (p.summary[i] <==> p.children[i] != 0)
      && (p.summary[i] <==> exists b: nat :: b in free && (256 * k + i) * Coverage(level - 1) <= b < (256 * k + i + 1) * Coverage(level - 1))
  {
    hide StoreOk, Rooted, Slot, Coverage, Denotes, Present;
    var q, r := Pos(level, k), Pos(level - 1, 256 * k + i);
    assert Parent(r) == q && Child(q, i) == r;
    BranchLink(s, v, q, i);
    PresentAt(s, v, r);
    if r in v.loc {
      var b := Nonempty(s, v, free, r);
      InSpan(b, r);
    }
    if b: nat :| b in free && (256 * k + i) * Coverage(level - 1) <= b < (256 * k + i + 1) * Coverage(level - 1) {
      InSpan(b, r);
      if r !in v.loc { AbsentIsUnused(s, v, free, r, b); }
    }
  }

  lemma DataPresent(s: Store, v: View, s': Store, v': View)
    requires Tree(s, v) && Tree(s', v') && SameData(s, v, s', v') && Present(s, v)
    ensures Present(s', v')
  {
    hide StoreOk, Rooted, Linked;
    forall q | Parent(q) in v'.loc ensures Parent(q) in v.loc && Advertised(s', v', q) == Advertised(s, v, q) {
    }
  }

  lemma LeafKeepsPresence(s: Store, v: View, p: nat, page: Page)
    requires Tree(s, v) && Rewritable(s, v, p, page) && v.pos[p].level == 0 && Present(s, v)
    ensures Tree(Update(s, p, page), v) && Present(Update(s, p, page), v)
  {
    hide StoreOk, Linked, Rooted;
    var s' := Update(s, p, page);
    RewriteTree(s, v, p, page);
    forall q | Parent(q) in v.loc ensures Advertised(s', v, q) == Advertised(s, v, q) {
      assert v.loc[Parent(q)] != p;
    }
  }

  // ----- fresh subtrees

  /** A fresh limb: one bit in the leaf, and only the path advertised. */
  ghost predicate LimbMarks(s: Store, bit: nat, sub: seq<nat>)
    requires Limb(s, bit, sub) && |sub| > 0
  {
    && LimbLeaf(s, bit, sub)
    && (forall l, i {:trigger s.pages[sub[l]].summary[i]} :: 0 < l < |sub| && 0 <= i < FANOUT ==>
          (s.pages[sub[l]].summary[i] <==> i == ChildIndex(bit, l)))
  }

  function NoSummary(): (summary: seq<bool>)
    ensures |summary| == FANOUT && forall i :: 0 <= i < FANOUT ==> !summary[i]
  {
    seq(FANOUT, (i: int) => false)
  }

  lemma LimbStarts(s: Store, bit: nat, p: nat)
    requires StoreOk(s) && p in s.pages && s.pages[p] == SingleLeaf(s.txn, bit)
    ensures Limb(s, bit, [p]) && LimbMarks(s, bit, [p])
  {
    hide ChildIndex, LeafOk;
    SingleLeafOk(s.txn, bit);
  }

  ghost predicate Topped(s: Store, bit: nat, sub: seq<nat>, s': Store, p: nat) {
    && StoreOk(s) && |sub| > 0 && Limb(s, bit, sub) && LimbMarks(s, bit, sub)
    && s'.txn == s.txn && p !in s.pages
    && s'.pages == s.pages[p := SingleBranch(s.txn, |sub|, ChildIndex(bit, |sub|), sub[|sub| - 1], NoSummary(), true)]
  }

  lemma LimbGrows(s: Store, bit: nat, sub: seq<nat>, s': Store, p: nat)
    requires Topped(s, bit, sub, s', p)
    ensures Limb(s', bit, sub + [p])
  {
    hide Slot, ChildIndex, LimbMarks, LeafOk, BranchOk;
    var all := sub + [p];
    var n := |sub|;
    assert sub[n - 1] in s.pages;
    NoPageZero(s, sub[n - 1]);
    SingleBranchOk(s.txn, n, ChildIndex(bit, n), sub[n - 1], NoSummary(), true);
    forall l | 0 <= l < |all|
      ensures Private(s', all[l]) && PageOk(s'.pages[all[l]], l, s'.txn) && (l < n ==> all[l] == sub[l] && s'.pages[all[l]] == s.pages[sub[l]])
    {
      if l < n { assert all[l] == sub[l] && sub[l] in s.pages; }
    }
  }

  lemma LimbGrowsMarks(s: Store, bit: nat, sub: seq<nat>, s': Store, p: nat)
    requires Topped(s, bit, sub, s', p) && Limb(s', bit, sub + [p])
    ensures LimbMarks(s', bit, sub + [p])
  {
    hide Slot, ChildIndex, StoreOk, LeafOk;
    var all := sub + [p];
    assert forall l {:trigger all[l]} :: 0 <= l < |sub| ==> all[l] == sub[l] && sub[l] in s.pages && s'.pages[all[l]] == s.pages[sub[l]];
  }

  /** free.go newSubtree. */
  method NewSubtree(s0: Store, level: nat, bit: nat) returns (s: Store, page: nat, ghost sub: seq<nat>)
    requires StoreOk(s0)
    ensures StoreOk(s) && s.txn == s0.txn
    ensures |sub| == level + 1 && sub[level] == page && Limb(s, bit, sub) && LimbMarks(s, bit, sub)
    ensures forall l {:trigger sub[l]} :: 0 <= l < |sub| ==> sub[l] !in s0.pages
    ensures forall x {:trigger x in s0.pages} :: x in s0.pages ==> x in s.pages && s.pages[x] == s0.pages[x]
    ensures Conserved(s0, s) && forall x {:trigger x in s.pages} :: x in s.pages ==> x in s0.pages || x in sub
    decreases level
  {
    hide ChildIndex, SingleLeaf, LimbMarks, StoreOk, PageOk, Conserved;
    if level == 0 {
      var (s1, p) := Allocate(s0);
      LeafBorn(s0.txn, bit);
      NewPageConserves(s0, SingleLeaf(s0.txn, bit));
      s := Update(s1, p, SingleLeaf(s0.txn, bit));
      LimbStarts(s, bit, p);
      return s, p, [p];
    }
    var s1, child;
    ghost var below;
    s1, child, below := NewSubtree(s0, level - 1, bit);
    var (s2, p) := Allocate(s1);
    var branch := SingleBranch(s0.txn, level, ChildIndex(bit, level), child, NoSummary(), true);
    s := Update(s2, p, branch);
    NewPageConserves(s1, branch);
    ConservesTransitive(s0, s1, s);
    assert s.pages == s1.pages[p := branch];
    LimbGrows(s1, bit, below, s, p);
    LimbGrowsMarks(s1, bit, below, s, p);
    page, sub := p, below + [p];
  }

  lemma LimbPresent(s: Store, v: View, bit: nat, sub: seq<nat>, s': Store, w: View)
    requires Tree(s, v) && Present(s, v) && Hung(s, v, bit, sub, s') && LimbView(v, bit, sub, w) && Tree(s', w)
    requires LimbMarks(s', bit, sub)
    requires HangsShown(s, v, bit, sub, s', true)
    ensures Present(s', w)
  {
    forall q | Parent(q) in w.loc ensures Advertised(s', w, q) <==> q in w.loc {
      if Parent(q) in v.loc {
        LimbPresentOld(s, v, bit, sub, s', w, q);
      } else {
        LimbPresentNew(s, v, bit, sub, s', w, q);
      }
    }
  }

  lemma LimbPresentOld(s: Store, v: View, bit: nat, sub: seq<nat>, s': Store, w: View, q: Pos)
    requires Tree(s, v) && Present(s, v) && Hung(s, v, bit, sub, s') && LimbView(v, bit, sub, w) && Tree(s', w)
    requires Parent(q) in v.loc
    requires HangsShown(s, v, bit, sub, s', true)
    ensures Parent(q) in w.loc && (Advertised(s', w, q) <==> q in w.loc)
  {
    hide StoreOk, Rooted, Linked, Inverse, Placed, LimbView, Limb, Slot, Parent, Child, Conserved;
    LimbOldPage(s, v, bit, sub, s', w, Parent(q));
    ChildOfParent(q);
    PosOf(s, v, Parent(q));
    LimbEdge(s, v, bit, sub, s', w, v.loc[Parent(q)], q.k % FANOUT);
    if q in v.loc { LimbOldPage(s, v, bit, sub, s', w, q); }
    if |sub| <= v.top { SamePlace(s, v, Parent(q), At(bit, |sub|)); }
    assert Advertised(s, v, q) <==> q in v.loc;
  }

  lemma SamePlace(s: Store, v: View, q: Pos, r: Pos)
    requires Tree(s, v) && q in v.loc && r in v.loc
    ensures v.loc[q] == v.loc[r] <==> q == r
  {
  }

  lemma LimbPresentNew(s: Store, v: View, bit: nat, sub: seq<nat>, s': Store, w: View, q: Pos)
    requires Tree(s, v) && Hung(s, v, bit, sub, s') && LimbView(v, bit, sub, w) && Tree(s', w)
    requires LimbMarks(s', bit, sub) && Parent(q) in w.loc && Parent(q) !in v.loc
    ensures Advertised(s', w, q) <==> q in w.loc
  {
    hide StoreOk, Linked, LeafOk, Placed, Inverse, Hung, LimbView, Rooted, Slot, Conserved;
    var l := q.level + 1;
    LimbNewPage(s, v, bit, sub, s', w, q);
    LimbUnder(s, v, bit, sub, s', l, q);
    LimbAt(v, bit, sub, w, q);
    ChildOfIndex(bit, l, q.k % FANOUT);
    assert s'.pages[sub[l]].summary[q.k % FANOUT] <==> q.k % FANOUT == ChildIndex(bit, l);
  }

  // ----- adding a page number

  lemma RaisedPresent(s: Store, v: View, s': Store, p: nat, free: set<nat>)
    requires Tree(s, v) && RaisedBy(s, v, s', p) && Tree(s', Raised(v, p)) && Denotes(s, v, free) && Present(s, v)
    requires s'.pages[p].summary[0] && forall i :: 0 < i < FANOUT ==> !s'.pages[p].summary[i]
    ensures Denotes(s', Raised(v, p), free) && Present(s', Raised(v, p))
  {
    hide StoreOk, Linked, LeafOk, Conserved;
    var w := Raised(v, p);
    forall b: nat ensures Has(s', w, b) <==> Has(s, v, b) {
      if At(b, 0) in v.loc { assert v.loc[At(b, 0)] in v.pos; }
    }
    forall q | Parent(q) in w.loc ensures Advertised(s', w, q) <==> q in w.loc {
      if Parent(q) == Pos(v.top + 1, 0) {
        assert q == Pos(v.top, q.k % FANOUT);
      } else {
        assert v.loc[Parent(q)] in v.pos;
        assert Advertised(s', w, q) == Advertised(s, v, q);
      }
    }
  }

  /** free.go growRoot. */
  method GrowRoot(s0: Store, ghost retired: seq<nat>, root0: nat, required: nat, ghost v0: View, ghost free: set<nat>)
    returns (s: Store, root: nat, ghost v: View)
    requires Cow(s0, retired, v0) && Denotes(s0, v0, free) && Present(s0, v0) && v0.root == root0 != 0 && v0.top <= required
    ensures Cow(s, retired, v) && Denotes(s, v, free) && Present(s, v)
    ensures v.root == root != 0 && v.top == required && SameOrigin(v0, v)
  {
    hide StoreOk, Rooted, Linked, Placed, Inverse, Denotes, Present, Books, Conserved;
    s, root, v := s0, root0, v0;
    var level := PageLevel(s, root, v);
    while level < required
      invariant Cow(s, retired, v) && Denotes(s, v, free) && Present(s, v)
      invariant v.root == root != 0 && v.top == level <= required && SameOrigin(v0, v)
    {
      var (s1, parent) := Allocate(s);
      var branch := SingleBranch(s.txn, level + 1, 0, root, NoSummary(), true);
      TxnPositive(s);
      SingleBranchOk(s.txn, level + 1, 0, root, NoSummary(), true);
      var s2 := Update(s1, parent, branch);
      NewPageConserves(s, branch);
      RaisedCow(s, retired, v, s2, parent);
      RaisedPresent(s, v, s2, parent, free);
      s, v, root, level := s2, Raised(v, parent), parent, level + 1;
    }
  }

  lemma EmptyPresent(s: Store, v: View)
    requires Tree(s, v) && v.root == 0
    ensures Present(s, v)
  {
  }

  method FirstSubtree(s0: Store, ghost retired: seq<nat>, required: nat, bit: nat, ghost v0: View, ghost free: set<nat>)
    returns (s: Store, root: nat, ghost v: View)
    requires Cow(s0, retired, v0) && v0.root == 0 && Denotes(s0, v0, free) && Slot(bit, required) == 0
    ensures Cow(s, retired, v) && Denotes(s, v, free + {bit}) && Present(s, v)
    ensures v.root == root && v.top == required && SameOrigin(v0, v)
  {
    hide StoreOk, Placed, Rooted, Linked, Inverse, Books, Denotes, Present, LimbLeaf, PageOk;
    EmptyRetop(s0, retired, v0, required, free);
    ghost var v1 := v0.(top := required);
    var page;
    ghost var sub;
    s, page, sub := NewSubtree(s0, required, bit);
    root := page;
    LimbCow(s0, retired, v1, bit, sub, s);
    v := WithLimb(v1, bit, sub);
    LimbDenotes(s0, v1, bit, sub, s, v, free);
    EmptyPresent(s0, v1);
    LimbPresent(s0, v1, bit, sub, s, v);
  }

  lemma MarksKept(s1: Store, bit: nat, sub: seq<nat>, s: Store)
    requires |sub| > 0 && Limb(s1, bit, sub) && LimbMarks(s1, bit, sub) && Limb(s, bit, sub)
    requires forall l {:trigger sub[l]} :: 0 <= l < |sub| ==> s.pages[sub[l]] == s1.pages[sub[l]]
    ensures LimbMarks(s, bit, sub)
  {
    hide Slot, ChildIndex;
  }

  /** free.go descendForInsert, when the child is missing: hang a fresh subtree. */
  method InsertSubtree(s0: Store, ghost retired: seq<nat>, page: nat, level: nat, bit: nat, ghost v0: View, ghost free: set<nat>)
    returns (s: Store, ghost v: View)
    requires Cow(s0, retired, v0) && Denotes(s0, v0, free) && Present(s0, v0)
    requires 0 < level <= v0.top && At(bit, level - 1) !in v0.loc
    requires At(bit, level) in v0.loc && v0.loc[At(bit, level)] == page && Private(s0, page)
    ensures Cow(s, retired, v) && Denotes(s, v, free + {bit}) && Present(s, v)
    ensures v.root == v0.root && v.top == v0.top && SameOrigin(v0, v)
  {
    hide StoreOk, Placed, Rooted, Linked, Inverse, Books, Denotes, Present, Limb, LimbView, LimbLeaf, PageOk, Hung;
    var index := ChildIndex(bit, level);
    BranchLink(s0, v0, At(bit, level), index);
    var s1, child;
    ghost var sub;
    s1, child, sub := NewSubtree(s0, level - 1, bit);
    s := Update(s1, page, ReplaceChild(s1.pages[page], index, child, child != 0));
    assert child != 0 by { LimbTopOk(s1, bit, sub); NoPageZero(s1, child); }
    HangingIsHung(s0, v0, bit, sub, s1, page, true, s);
    assert Limb(s, bit, sub) by { HungLimb(s0, v0, bit, sub, s); }
    MarksKept(s1, bit, sub, s);
    LimbCow(s0, retired, v0, bit, sub, s);
    v := WithLimb(v0, bit, sub);
    LimbDenotes(s0, v0, bit, sub, s, v, free);
    LimbPresent(s0, v0, bit, sub, s, v);
  }

  /** free.go markLeafFree: fails when the page is already free. */
  method MarkLeaf(s0: Store, ghost retired: seq<nat>, page: nat, bit: nat, ghost v: View, ghost free: set<nat>)
    returns (already: bool, s: Store)
    requires Cow(s0, retired, v) && Denotes(s0, v, free) && Present(s0, v)
    requires At(bit, 0) in v.loc && v.loc[At(bit, 0)] == page && Private(s0, page)
    ensures already <==> bit in free
    ensures Cow(s, retired, v) && Denotes(s, v, free + {bit}) && Present(s, v)
  {
    hide StoreOk, Placed, Rooted, Linked, Inverse, Books, Denotes, Present;
    LeafAt(s0, v, At(bit, 0), bit);
    BitMeaning(s0, v, free, bit);
    PosOf(s0, v, At(bit, 0));
    var leaf := s0.pages[page];
    var index := (bit % LEAF_BITS) / 64;
    if bit % 64 in leaf.words[index] {
      assert free + {bit} == free;
      return true, s0;
    }
    var word := leaf.words[index] + {bit % 64};
    SetWordCount(leaf, index, word);
    WithWordRewritable(s0, v, bit, word);
    WithWordMeaning(s0, v, free, bit, word, free + {bit});
    LeafKeepsPresence(s0, v, page, WithWord(s0, v, bit, word));
    RewriteCow(s0, retired, v, page, WithWord(s0, v, bit, word));
    s := Update(s0, page, SetWord(leaf, index, word));
    already := false;
  }

  /** free.go SetFree on a tree no taller than the limit needs. */
  method AddFree(s0: Store, retired0: seq<nat>, root0: nat, limit: nat, bit: nat, ghost v0: View, ghost free: set<nat>)
    returns (already: bool, s: Store, retired: seq<nat>, root: nat, ghost v: View)
    requires Cow(s0, retired0, v0) && v0.root == root0 && FreeSet(s0, v0, free) && 2 <= bit < limit <= ID_SPACE
    requires root0 != 0 ==> v0.top <= RequiredLevel(limit)
    ensures already <==> bit in free
    ensures Cow(s, retired, v) && FreeSet(s, v, free + {bit})
    ensures v.root == root && v.top == RequiredLevel(limit) && SameOrigin(v0, v)
  {
    hide StoreOk, Placed, Rooted, Linked, Inverse, Books, Denotes, Present, SameData, RequiredLevel;
    var required := RequiredLevel(limit);
    assert Slot(bit, required) == 0 by { SlotInterval(bit, required, 0); assert Coverage(required) >= limit; }
    if root0 == 0 {
      EmptyTree(s0, v0, free);
      s, root, v := FirstSubtree(s0, retired0, required, bit, v0, free);
      return false, s, retired0, root, v;
    }
    ghost var v1, v2;
    var s1, root1, s2, path, page, level, base;
    s1, root1, v1 := GrowRoot(s0, retired0, root0, required, v0, free);
    s2, retired, root, path, page, level, base, v2 := Descend(s1, retired0, root1, required, bit, v1);
    DataDenotes(s1, v1, s2, v2, free);
    DataPresent(s1, v1, s2, v2);
    SameShape(s1, v1, s2, v2);
    SameFixed(s1, v1, s2, v2);
    if level > 0 {
      if bit in free { AbsentIsUnused(s2, v2, free, At(bit, level - 1), bit); }
      s, v := InsertSubtree(s2, retired, page, level, bit, v2, free);
      already := false;
    } else {
      already, s := MarkLeaf(s2, retired, page, bit, v2, free);
      v := v2;
    }
  }

  // ----- taking the lowest page number

  ghost predicate IsMin(free: set<nat>, bit: nat) {
    bit in free && forall b :: b in free ==> bit <= b
  }

  lemma {:induction false} SomeMin(free: set<nat>) returns (bit: nat)
    requires free != {}
    ensures IsMin(free, bit)
    decreases free
  {
    var x :| x in free;
    if free == {x} { return x; }
    var y := SomeMin(free - {x});
    bit := if x < y then x else y;
    forall b | b in free ensures bit <= b { assert b == x || b in free - {x}; }
  }

  /** The first advertised child is the one holding the lowest bit. */
  lemma FirstIsLowest(s: Store, v: View, free: set<nat>, bit: nat, level: nat, index: nat)
    requires Tree(s, v) && Denotes(s, v, free) && Present(s, v) && IsMin(free, bit)
    requires 0 < level <= v.top && At(bit, level) in v.loc && index < FANOUT
    requires BranchOk(s.pages[v.loc[At(bit, level)]], level)
    requires s.pages[v.loc[At(bit, level)]].summary[index] && forall i :: 0 <= i < index ==> !s.pages[v.loc[At(bit, level)]].summary[i]
    ensures index == ChildIndex(bit, level)
  {
    hide StoreOk, Placed, Rooted, Linked, Inverse, Denotes;
    var q := At(bit, level);
    var j := ChildIndex(bit, level);
    LowestIsPresent(s, v, free, bit, level - 1);
    BranchAt(s, v, q, j);
    BranchAt(s, v, q, index);
    if index < j {
      var b := Nonempty(s, v, free, Child(q, index));
      SlotInterval(b, level - 1, Child(q, index).k);
      SiblingSpan(bit, level, index);
    }
  }

  lemma LowestIsPresent(s: Store, v: View, free: set<nat>, bit: nat, level: nat)
    requires Tree(s, v) && Denotes(s, v, free) && bit in free && level <= v.top
    ensures At(bit, level) in v.loc
  {
    hide StoreOk, Placed, Rooted, Linked, Inverse, Denotes;
    if At(bit, level) !in v.loc { AbsentIsUnused(s, v, free, At(bit, level), bit); }
  }

  /** free.go descendLowest: follow the first set summary bits, making every page on the way private. */
  method DescendLowest(s0: Store, retired0: seq<nat>, root0: nat, top: nat, ghost v0: View, ghost free: set<nat>, ghost bit: nat)
    returns (s: Store, retired: seq<nat>, root: nat, path: seq<Frame>, page: nat, base: nat, ghost v: View)
    requires Cow(s0, retired0, v0) && v0.root == root0 != 0 && v0.top == top && Slot(bit, top) == 0
    requires Denotes(s0, v0, free) && Present(s0, v0) && IsMin(free, bit)
    ensures Cow(s, retired, v) && SameOrigin(v0, v) && v.root == root && v.top == top
    ensures Denotes(s, v, free) && Present(s, v) && PathOk(s, v, bit, path, 0)
    ensures At(bit, 0) in v.loc && v.loc[At(bit, 0)] == page && Private(s, page) && base == Base(At(bit, 0))
    ensures SameData(s0, v0, s, v) && MovedPath(s0, v0, s, v, bit, 0)
  {
    hide StoreOk, Placed, Rooted, Linked, Inverse, Books, SameData, Denotes, Present, IsMin, ChildIndex, MovedOnly, MovedPath;
    s, retired, root, v := TouchRoot(s0, retired0, root0, v0);
    SameShape(s0, v0, s, v);
    SameFixed(s0, v0, s, v);
    DataDenotes(s0, v0, s, v, free);
    DataPresent(s0, v0, s, v);
    RootAt(s, v);
    Levels(s0, v0);
    MovedPathStarts(s0, v0, s, v, bit);
    page, base, path := root, 0, [];
    var level: nat := top;
    while level > 0
      invariant Cow(s, retired, v) && SameOrigin(v0, v) && v.root == root && v.top == top && level <= top
      invariant Denotes(s, v, free) && Present(s, v) && PathOk(s, v, bit, path, level)
      invariant At(bit, level) in v.loc && v.loc[At(bit, level)] == page && Private(s, page) && base == Base(At(bit, level))
      invariant SameData(s0, v0, s, v) && MovedPath(s0, v0, s, v, bit, level)
      decreases level
    {
      ghost var q := At(bit, level - 1);
      LowestIsPresent(s, v, free, bit, level - 1) by { MinIsIn(free, bit); }
      BranchAt(s, v, At(bit, level), ChildIndex(bit, level));
      assert s.pages[page].summary[ChildIndex(bit, level)] by { PresentAt(s, v, q); }
      var found, index := FirstSummary(s.pages[page].summary, 0);
      FirstIsLowest(s, v, free, bit, level, index);
      ChildBase(At(bit, level), index);
      var childBase := base + Coverage(level - 1) * index;
      var f := Frame(page, index, level, childBase);
      var s1, retired1, page1;
      ghost var v1;
      s1, retired1, page1, v1 := TouchChild(s, retired, page, index, q, v);
      SameShape(s, v, s1, v1);
      SameFixed(s, v, s1, v1);
      PathMoves(s, v, s1, v1, bit, path + [f], level - 1);
      DataDenotes(s, v, s1, v1, free);
      DataPresent(s, v, s1, v1);
      SameDataTransitive(s0, v0, s, v, s1, v1);
      assert q in v0.loc && v0.loc[q] in s0.pages by { SameShape(s0, v0, s, v); ChildIsPage(s0, v0, q); }
      MovedPathGrows(s0, v0, s, v, s1, v1, bit, level - 1);
      s, retired, page, v, level, base, path := s1, retired1, page1, v1, level - 1, childBase, path + [f];
    }
  }

  lemma Levels(s: Store, v: View)
    requires Tree(s, v)
    ensures forall q {:trigger q in v.loc} :: q in v.loc ==> q.level <= v.top
  {
    hide StoreOk, Rooted, Linked, PageOk;
  }

  lemma MinIsIn(free: set<nat>, bit: nat)
    requires IsMin(free, bit)
    ensures bit in free
  {
  }

  lemma PresentAt(s: Store, v: View, q: Pos)
    requires Tree(s, v) && Present(s, v) && Parent(q) in v.loc
    ensures Advertised(s, v, q) <==> q in v.loc
  {
  }

  /** bitmap_page.go FirstLeafWord, and the lowest bit of that word. */
  method LowestSet(words: seq<set<nat>>) returns (index: nat, k: nat)
    requires |words| == LEAF_WORDS && NonzeroWords(words) != {}
    ensures index < LEAF_WORDS && k in words[index] && (forall b :: b in words[index] ==> k <= b)
    ensures forall i :: 0 <= i < index ==> words[i] == {}
  {
    ghost var some :| some in NonzeroWords(words);
    index := 0;
    while words[index] == {}
      invariant 0 <= index <= some < LEAF_WORDS
      invariant forall i :: 0 <= i < index ==> words[i] == {}
      decreases LEAF_WORDS - index
    {
      index := index + 1;
    }
    k := TrailingZeros(words[index]);
  }

  /** The lowest bit of the leaf is the lowest of the set. */
  lemma LeafLowest(s: Store, v: View, free: set<nat>, bit: nat, index: nat, k: nat)
    requires Tree(s, v) && Denotes(s, v, free) && IsMin(free, bit) && At(bit, 0) in v.loc
    requires LeafOk(s.pages[v.loc[At(bit, 0)]])
    requires var words := s.pages[v.loc[At(bit, 0)]].words;
             && index < LEAF_WORDS && k in words[index] && (forall b :: b in words[index] ==> k <= b)
             && forall i :: 0 <= i < index ==> words[i] == {}
    ensures bit == Base(At(bit, 0)) + index * 64 + k && index == (bit % LEAF_BITS) / 64 && k == bit % 64
  {
    hide StoreOk, Placed, Rooted, Linked, Inverse, Denotes;
    var base := Base(At(bit, 0));
    BitMeaning(s, v, free, bit);
    LeafAt(s, v, At(bit, 0), bit);
    Remainders(bit);
    var b := base + index * 64 + k;
    WordPosition(base, index, k);
    LeafAt(s, v, At(bit, 0), b);
    BitMeaning(s, v, free, b);
  }

  lemma DropPresent(s: Store, v: View, r: Pos, q: Pos)
    requires Inverse(v) && Placed(s, v) && q in v.loc && Private(s, v.loc[q]) && StoreOk(s)
    requires Inverse(Without(v, q)) && Placed(Discard(s, v.loc[q]), Without(v, q))
    requires PresentBut(s, v, r) && (r == q || Parent(r) == q)
    ensures PresentBut(Discard(s, v.loc[q]), Without(v, q), q)
  {
    hide StoreOk, PageOk;
    var s' := Discard(s, v.loc[q]);
    var w := Without(v, q);
    forall x | Parent(x) in w.loc ensures Parent(x) in v.loc && Advertised(s', w, x) == Advertised(s, v, x) {
    }
  }

  lemma UnlinkPresent(s: Store, v: View, bit: nat, level: nat, page: Page)
    requires StoreOk(s) && Inverse(v) && Placed(s, v) && PresentBut(s, v, At(bit, level)) && At(bit, level) !in v.loc
    requires At(bit, level + 1) in v.loc && Private(s, v.loc[At(bit, level + 1)]) && page.born == s.txn
    requires Placed(Update(s, v.loc[At(bit, level + 1)], page), v)
    requires var b := s.pages[v.loc[At(bit, level + 1)]];
             && b.Branch? && |b.summary| == FANOUT && page.Branch?
             && page.summary == b.summary[ChildIndex(bit, level + 1) := false]
    ensures Present(Update(s, v.loc[At(bit, level + 1)], page), v)
  {
    hide StoreOk, PageOk, Slot, Parent, Child;
    var p := v.loc[At(bit, level + 1)];
    var s' := Update(s, p, page);
    ParentOfChild(At(bit, level + 1), ChildIndex(bit, level + 1));
    forall q | Parent(q) in v.loc ensures Advertised(s', v, q) <==> q in v.loc {
      ChildOfParent(q);
      assert v.loc[Parent(q)] in v.pos && p in v.pos;
      if q != At(bit, level) { assert Advertised(s, v, q) <==> q in v.loc; }
    }
  }

  lemma UnlinkDenotes(s: Store, v: View, free: set<nat>, p: nat, page: Page)
    requires StoreOk(s) && Inverse(v) && Placed(s, v) && Denotes(s, v, free) && p in v.pos && v.pos[p].level > 0
    requires Private(s, p) && page.born == s.txn && Placed(Update(s, p, page), v)
    ensures Denotes(Update(s, p, page), v, free)
  {
    hide StoreOk, Slot;
    var s' := Update(s, p, page);
    forall b: nat ensures Has(s', v, b) <==> Has(s, v, b) {
      if At(b, 0) in v.loc { assert v.loc[At(b, 0)] in v.pos; }
    }
  }

  lemma DropBranch(s: Store, v: View, free: set<nat>, r: Pos)
    requires TreeBut(s, v, r) && Parent(r) in v.loc && Private(s, v.loc[Parent(r)]) && Denotes(s, v, free) && PresentBut(s, v, r)
    requires TreeBut(Discard(s, v.loc[Parent(r)]), Without(v, Parent(r)), Parent(r))
    ensures Denotes(Discard(s, v.loc[Parent(r)]), Without(v, Parent(r)), free)
    ensures PresentBut(Discard(s, v.loc[Parent(r)]), Without(v, Parent(r)), Parent(r))
  {
    hide StoreOk, Placed, Inverse, Rooted;
    DropDenotes(s, v, Parent(r), free);
    DropPresent(s, v, r, Parent(r));
  }

  /** Every position that is left has the page it had. */
  ghost predicate Remains(v0: View, v: View) {
    forall q {:trigger q in v.loc} :: q in v.loc ==> q in v0.loc && v.loc[q] == v0.loc[q]
  }

  /** free.go pruneEmptyPath: forget the emptied child, page by page, up to the first page that keeps one. */
  method PruneEmptyPath(s0: Store, ghost retired: seq<nat>, root0: nat, top: nat, path: seq<Frame>, ghost v0: View, ghost bit: nat, ghost free: set<nat>)
    returns (s: Store, root: nat, ghost v: View)
    requires CowBut(s0, retired, v0, At(bit, 0)) && At(bit, 0) !in v0.loc && v0.top == top && Slot(bit, top) == 0
    requires Denotes(s0, v0, free) && PresentBut(s0, v0, At(bit, 0))
    requires PathOk(s0, v0, bit, path, 0) && v0.root == if top == 0 then 0 else root0
    ensures Cow(s, retired, v) && Denotes(s, v, free) && Present(s, v)
    ensures v.root == root && v.top == top && SameOrigin(v0, v) && Remains(v0, v)
  {
    hide StoreOk, Inverse, Placed, Rooted, Books, Denotes, PresentBut, Present, Childless;
    s, v := s0, v0;
    var depth := |path|;
    ghost var level := 0;
    while depth > 0
      invariant 0 <= depth <= |path| && level + depth == top && v.top == top && SameOrigin(v0, v) && Remains(v0, v)
      invariant CowBut(s, retired, v, At(bit, level)) && At(bit, level) !in v.loc
      invariant Denotes(s, v, free) && PresentBut(s, v, At(bit, level))
      invariant PathOk(s, v, bit, path[..depth], level) && v.root == if depth == 0 then 0 else root0
    {
      depth := depth - 1;
      var f := path[depth];
      ghost var r := At(bit, level);
      assert FrameOk(s, v, bit, path[..depth + 1][depth], level + 1);
      assert Parent(r) == At(bit, level + 1);
      OpenParent(s, v, r);
      ReplaceChildCount(s.pages[f.page], f.index, 0, false);
      var page := ReplaceChild(s.pages[f.page], f.index, 0, false);
      if page.count != 0 {
        UnlinkCow(s, retired, v, r, page);
        assert f.page in v.pos && v.pos[f.page].level > 0 by { PageInTree(s, v, r, Parent(r)); }
        UnlinkDenotes(s, v, free, f.page, page);
        UnlinkPresent(s, v, bit, level, page);
        s, root := Update(s, f.page, page), root0;
        return;
      }
      OpenOnly(s, v, r, false);
      DropCow(s, retired, v, r, Parent(r));
      DropBranch(s, v, free, r);
      ghost var v1 := Without(v, Parent(r));
      var s1 := Discard(s, f.page);
      PathPops(s, v, s1, v1, bit, path[..depth + 1], level);
      assert path[..depth + 1][..depth] == path[..depth];
      s, v, level := s1, v1, level + 1;
    }
    root := 0;
    AllGone(s, retired, v, At(bit, level));
  }

  lemma PageInTree(s: Store, v: View, r: Pos, q: Pos)
    requires TreeBut(s, v, r) && q in v.loc
    ensures v.loc[q] in v.pos && v.pos[v.loc[q]] == q
  {
  }

  lemma AllGone(s: Store, retired: seq<nat>, v: View, r: Pos)
    requires CowBut(s, retired, v, r) && v.root == 0
    ensures Cow(s, retired, v) && Present(s, v)
  {
    assert Tree(s, v);
  }

  /** free.go clearLeafBit and pruneEmptyPath. */
  method TakeBit(s0: Store, ghost retired: seq<nat>, root0: nat, top: nat, path: seq<Frame>, page: nat, index: nat, k: nat,
                 ghost v0: View, ghost free: set<nat>, ghost bit: nat)
    returns (s: Store, root: nat, ghost v: View)
    requires Cow(s0, retired, v0) && Denotes(s0, v0, free) && Present(s0, v0) && bit in free
    requires v0.top == top && v0.root == root0 && Slot(bit, top) == 0 && PathOk(s0, v0, bit, path, 0)
    requires At(bit, 0) in v0.loc && v0.loc[At(bit, 0)] == page && Private(s0, page) && LeafOk(s0.pages[page])
    requires index == (bit % LEAF_BITS) / 64 && k == bit % 64
    ensures Cow(s, retired, v) && Denotes(s, v, free - {bit}) && Present(s, v)
    ensures v.root == root && v.top == top && SameOrigin(v0, v) && Remains(v0, v)
  {
    hide StoreOk, Placed, Rooted, Inverse, Linked, Books, Denotes, Present, PresentBut;
    BitMeaning(s0, v0, free, bit);
    LeafAt(s0, v0, At(bit, 0), bit);
    PosOf(s0, v0, At(bit, 0));
    ghost var q := At(bit, 0);
    var leaf := s0.pages[page];
    var word := leaf.words[index] - {k};
    SetWordCount(leaf, index, word);
    var next := SetWord(leaf, index, word);
    if next.count != 0 {
      WithWordRewritable(s0, v0, bit, word);
      WithWordMeaning(s0, v0, free, bit, word, free - {bit});
      LeafKeepsPresence(s0, v0, page, next);
      RewriteCow(s0, retired, v0, page, next);
      return Update(s0, page, next), root0, v0;
    }
    LastBit(s0, v0, free, bit);
    OpenAny(s0, v0, q);
    DropCow(s0, retired, v0, q, q);
    ghost var v1 := Without(v0, q);
    var s1 := Discard(s0, page);
    forall b: nat ensures b in free <==> Has(s0, v0, b) { BitMeaning(s0, v0, free, b); }
    DropDenotes(s0, v0, q, free - {bit});
    PresentAllBut(s0, v0, q);
    DropPresent(s0, v0, q, q);
    PathAbove(s0, v0, s1, v1, bit, path);
    s, root, v := PruneEmptyPath(s1, retired, root0, top, path, v1, bit, free - {bit});
  }

  lemma PresentAllBut(s: Store, v: View, r: Pos)
    requires Tree(s, v) && Present(s, v)
    ensures PresentBut(s, v, r)
  {
  }

  // ----- the free-page set of a draft

  datatype Added = Added | AlreadyFree | OutOfRange | RootTooHigh

  datatype Taken = Taken(page: nat) | Empty | BadLimit | WrongLevel | Protected(page: nat)

  /** A tree in the middle of an edit. */
  datatype Draft = Draft(store: Store, view: View)

  /**
   The tree `t` once the path to the bit of `m` is private: the same data, each page of the path
   either the private one it was or a new page of the store, and every other page where it was.
   */
  ghost predicate Reached(t: Draft, d: Draft, m: nat) {
    && Tree(t.store, t.view) && Tree(d.store, d.view) && SameData(t.store, t.view, d.store, d.view)
    && MovedPath(t.store, t.view, d.store, d.view, m, 0)
    && forall l: nat {:trigger At(m, l)} :: l <= d.view.top ==> At(m, l) in d.view.loc && Private(d.store, d.view.loc[At(m, l)])
  }

  /** Page `m` itself holds a part of the path to the bit of `m`. */
  ghost predicate OnOwnPath(v: View, m: nat) {
    exists l: nat :: l <= v.top && At(m, l) in v.loc && v.loc[At(m, l)] == m
  }

  /** The free page numbers that are never given out. */
  ghost predicate Guarded(d: Draft, m: nat, limit: nat, forbidden: set<nat>) {
    m >= limit || m in forbidden || OnOwnPath(d.view, m)
  }

  class FreePages {
    var store: Store
    var root: nat
    var retired: seq<nat>
    ghost var view: View
    ghost var free: set<nat>
    ghost const store0: Store
    ghost const view0: View
    ghost const free0: set<nat>

    ghost predicate Valid()
      reads this
    {
      && Cow(store, retired, view) && FreeSet(store, view, free) && view.root == root
      && Committed(store0, view0) && FreeSet(store0, view0, free0) && SameOrigin(view0, view)
    }

    constructor (s: Store, r: nat, ghost v: View, ghost f: set<nat>)
      requires Committed(s, v) && FreeSet(s, v, f) && v.root == r
      ensures Valid() && free == f && retired == [] && store0 == s && view0 == v && free0 == f
    {
      store, root, retired, view, free, store0, view0, free0 := s, r, [], v, f, s, v, f;
    }

    /**
     Root is zero exactly when no page is free, the committed tree is still what it was, and the
     draft leaks nothing: beyond the pages it started with it has those of its tree, and every
     other page number it managed is still in stock.
     */
    lemma Meaning()
      requires Valid()
      ensures NoLeak(store0, store, view)
      ensures root == 0 <==> free == {}
      ensures Denotes(store, view, free) && Tree(store, view0) && Denotes(store, view0, free0)
      ensures forall p :: p in retired <==> p in view0.pos && p !in view.pos
      ensures forall i, j :: 0 <= i < j < |retired| ==> retired[i] != retired[j]
      ensures forall q {:trigger q in view.loc} :: q in view.loc ==> view.loc[q] in store.pages && PageOk(store.pages[view.loc[q]], q.level, store.txn)
    {
      hide StoreOk, Linked, Denotes, Present, Committed, PageOk, Books, NoLeak;
      if root == 0 {
        EmptyTree(store, view, free);
      } else {
        RootAt(store, view);
        var b := Nonempty(store, view, free, Pos(view.top, 0));
      }
      NothingLost(store0, view0, store, retired, view);
      SnapshotTree(store0, view0, store, retired, view);
      CommittedTree(store0, view0);
      SnapshotDenotes(store0, view0, store, free0);
    }

    /** free.go SetFree. */
    method SetFree(limit: nat, bit: nat) returns (r: Added)
      requires Valid()
      modifies this
      ensures Valid()
      ensures r.OutOfRange? <==> limit == 0 || limit > ID_SPACE || bit < 2 || bit >= limit
      ensures r.RootTooHigh? <==> !r.OutOfRange? && old(root) != 0 && old(view).top > RequiredLevel(limit)
      ensures r.AlreadyFree? ==> bit in old(free)
      ensures r.Added? ==> bit !in old(free)
      ensures free == if r.Added? then old(free) + {bit} else old(free)
      ensures r.Added? || r.AlreadyFree? ==> view.top == RequiredLevel(limit)
      ensures r.OutOfRange? || r.RootTooHigh? ==> store == old(store) && root == old(root) && retired == old(retired) && view == old(view)
    {
      hide Tree, Books, Denotes, Present, Committed, RequiredLevel;
      if limit == 0 || limit > ID_SPACE || bit < 2 || bit >= limit {
        return OutOfRange;
      }
      if root != 0 {
        var level := PageLevel(store, root, view);
        if level > RequiredLevel(limit) {
          return RootTooHigh;
        }
      }
      var already;
      already, store, retired, root, view := AddFree(store, retired, root, limit, bit, view, free);
      r := if already then AlreadyFree else Added;
      if already { assert free + {bit} == free; }
      free := free + {bit};
    }

    /** free.go TakeLowest; `d` is the tree once the path to the least free page is private. */
    method TakeLowest(limit: nat, forbidden: set<nat>) returns (r: Taken, ghost d: Draft)
      requires Valid()
      modifies this
      ensures Valid()
      ensures r.Empty? <==> old(free) == {}
      ensures r.BadLimit? <==> old(free) != {} && !(0 < limit <= ID_SPACE)
      ensures r.WrongLevel? <==> old(free) != {} && 0 < limit <= ID_SPACE && old(view).top != RequiredLevel(limit)
      ensures r.Taken? || r.Protected? ==>
                && IsMin(old(free), r.page) && Reached(Draft(old(store), old(view)), d, r.page)
                && (r.Protected? <==> Guarded(d, r.page, limit, forbidden))
      ensures free == (if r.Taken? then old(free) - {r.page} else old(free)) && view.top == old(view).top
      ensures r.Protected? ==> d == Draft(store, view)
      ensures r.Taken? ==> Remains(d.view, view) && !OnOwnPath(view, r.page)
      ensures r.Empty? || r.BadLimit? || r.WrongLevel? ==> store == old(store) && root == old(root) && retired == old(retired) && view == old(view)
    {
      hide Tree, Books, Denotes, Present, Committed, RequiredLevel, IsMin, LeafOk, Reached, OnOwnPath, SameData, MovedPath, Remains;
      d := Draft(store, view);
      Meaning();
      if root == 0 {
        return Empty, d;
      }
      if limit == 0 || limit > ID_SPACE {
        return BadLimit, d;
      }
      var level := PageLevel(store, root, view);
      var required := RequiredLevel(limit);
      if level != required {
        return WrongLevel, d;
      }
      ghost var bit := SomeMin(free);
      assert bit in free by { MinIsIn(free, bit); }
      TopCovers(store, view, free, bit);
      var s, path, page, base;
      ghost var v;
      s, retired, root, path, page, base, v := DescendLowest(store, retired, root, required, view, free, bit);
      store, view, d := s, v, Draft(s, v);
      PathReached(old(Draft(store, view)), s, v, bit, path, page);
      LeafAt(s, v, At(bit, 0), bit);
      assert NonzeroWords(s.pages[page].words) != {} by { SomeWord(s.pages[page]); }
      var index, k := LowestSet(s.pages[page].words);
      LeafLowest(s, v, free, bit, index, k);
      var selected := base + index * 64 + k;
      PathPages(s, v, bit, path, page);
      if selected < 2 || selected >= limit || selected >= ID_SPACE || selected in forbidden || selected == page ||
         exists f :: 0 <= f < |path| && path[f].page == selected {
        return Protected(selected), d;
      }
      s, root, v := TakeBit(s, retired, root, required, path, page, index, k, v, free, bit);
      StaysOff(d.view, v, selected);
      store, view, free := s, v, free - {selected};
      return Taken(selected), d;
    }

    /** Any run of the two edits does to the tree, step by step, what the set of free page numbers says. */
    method Run(edits: seq<Edit>) returns (outcomes: seq<Outcome>, ghost states: seq<Free>, ghost drafts: seq<Draft>)
      requires Valid()
      modifies this
      ensures Valid() && |states| == |edits| + 1 && |outcomes| == |drafts| == |edits|
      ensures states[0] == Free(old(free), Draft(old(store), old(view))) && states[|edits|] == Free(free, Draft(store, view))
      ensures forall i {:trigger states[i]} :: 0 <= i < |states| ==> Stands(states[i])
      ensures forall i {:trigger states[i]} :: 0 <= i < |edits| ==> Edited(edits[i], outcomes[i], states[i], drafts[i], states[i + 1])
      ensures (root == 0 <==> free == {}) && Denotes(store, view, free) && Denotes(store, view0, free0)
      ensures NoLeak(store0, store, view)
    {
      hide Cow, FreeSet, Committed, SameOrigin, Denotes, IsMin, RequiredLevel, Reached, Guarded, Remains, NoLeak;
      outcomes, states, drafts := [], [Free(free, Draft(store, view))], [];
      for i := 0 to |edits|
        invariant Valid() && |states| == i + 1 && |outcomes| == |drafts| == i
        invariant states[0] == Free(old(free), Draft(old(store), old(view))) && states[i] == Free(free, Draft(store, view))
        invariant forall j {:trigger states[j]} :: 0 <= j <= i ==> Stands(states[j])
        invariant forall j {:trigger states[j]} :: 0 <= j < i ==> Edited(edits[j], outcomes[j], states[j], drafts[j], states[j + 1])
      {
        Meaning();
        match edits[i] {
          case Give(limit, bit) =>
            var added := SetFree(limit, bit);
            outcomes, drafts := outcomes + [Gave(added)], drafts + [Draft(store, view)];
          case Take(limit, forbidden) =>
            var taken;
            ghost var d;
            taken, d := TakeLowest(limit, forbidden);
            outcomes, drafts := outcomes + [Took(taken)], drafts + [d];
        }
        states := states + [Free(free, Draft(store, view))];
        assert Edited(edits[i], outcomes[i], states[i], drafts[i], states[i + 1]);
      }
      Meaning();
    }
  }

  datatype Edit = Give(limit: nat, bit: nat) | Take(limit: nat, forbidden: set<nat>)

  datatype Outcome = Gave(added: Added) | Took(taken: Taken)

  /** The free page numbers and the tree that holds them. */
  datatype Free = Free(pages: set<nat>, tree: Draft)

  ghost predicate Stands(f: Free) {
    FreeSet(f.tree.store, f.tree.view, f.pages)
  }

  /** The one outcome an edit has, and the set and tree it leaves; `d` is the tree a take reached. */
  ghost predicate Edited(e: Edit, o: Outcome, before: Free, d: Draft, after: Free) {
    match e
    case Give(limit, bit) =>
      if !(0 < limit <= ID_SPACE) || !(2 <= bit < limit) then o == Gave(OutOfRange) && after == before
      else if before.pages != {} && before.tree.view.top > RequiredLevel(limit) then o == Gave(RootTooHigh) && after == before
      else
        && o == Gave(if bit in before.pages then AlreadyFree else Added)
        && after.pages == before.pages + {bit} && after.tree.view.top == RequiredLevel(limit)
    case Take(limit, forbidden) =>
      if before.pages == {} then o == Took(Empty) && after == before
      else if !(0 < limit <= ID_SPACE) then o == Took(BadLimit) && after == before
      else if before.tree.view.top != RequiredLevel(limit) then o == Took(WrongLevel) && after == before
      else
        exists m: nat ::
          && IsMin(before.pages, m) && Reached(before.tree, d, m)
          && if Guarded(d, m, limit, forbidden) then o == Took(Protected(m)) && after == Free(before.pages, d)
             else
               && o == Took(Taken(m)) && after.pages == before.pages - {m}
               && after.tree.view.top == before.tree.view.top && Remains(d.view, after.tree.view)
  }

  lemma SomeWord(p: Page)
    requires LeafOk(p)
    ensures NonzeroWords(p.words) != {}
  {
  }

  lemma TopCovers(s: Store, v: View, free: set<nat>, bit: nat)
    requires Tree(s, v) && Denotes(s, v, free) && bit in free && v.root != 0
    ensures Slot(bit, v.top) == 0
  {
    hide StoreOk, Placed, Inverse, Linked, Denotes;
    LowestIsPresent(s, v, free, bit, v.top);
  }

  lemma CommittedTree(s: Store, v: View)
    requires Committed(s, v)
    ensures Tree(s, v)
  {
  }

  /** The pages a descent visited are those of its path. */
  lemma PathPages(s: Store, v: View, bit: nat, path: seq<Frame>, page: nat)
    requires PathOk(s, v, bit, path, 0) && At(bit, 0) in v.loc && v.loc[At(bit, 0)] == page
    ensures OnOwnPath(v, bit) <==> bit == page || exists f :: 0 <= f < |path| && path[f].page == bit
  {
    hide ChildIndex;
    if f :| 0 <= f < |path| && path[f].page == bit {
      assert FrameOk(s, v, bit, path[f], v.top - f);
      assert v.loc[At(bit, v.top - f)] == bit;
    }
    if l: nat :| l <= v.top && At(bit, l) in v.loc && v.loc[At(bit, l)] == bit {
      if l > 0 {
        assert FrameOk(s, v, bit, path[v.top - l], v.top - (v.top - l));
      }
    }
  }

  lemma PathReached(t: Draft, s: Store, v: View, bit: nat, path: seq<Frame>, page: nat)
    requires Tree(t.store, t.view) && Tree(s, v) && SameData(t.store, t.view, s, v) && MovedPath(t.store, t.view, s, v, bit, 0)
    requires PathOk(s, v, bit, path, 0) && At(bit, 0) in v.loc && v.loc[At(bit, 0)] == page && Private(s, page)
    ensures Reached(t, Draft(s, v), bit)
  {
    hide Tree, SameData, MovedPath, ChildIndex;
    forall l: nat | l <= v.top ensures At(bit, l) in v.loc && Private(s, v.loc[At(bit, l)]) {
      if l > 0 {
        assert FrameOk(s, v, bit, path[v.top - l], v.top - (v.top - l));
      }
    }
  }

  /** A private page of the tree holds a part of the path to its own bit. */
  ghost predicate HoldsOwnBit(t: Draft, m: nat) {
    Private(t.store, m) && OnOwnPath(t.view, m)
  }

  /**
   The guard told from the tree before the take: unless the store had page `m` in stock, `m` is on
   its own path exactly when it was there as a private page already.
   */
  lemma GuardBefore(t: Draft, d: Draft, m: nat)
    requires Reached(t, d, m) && !InStock(t.store, m)
    ensures OnOwnPath(d.view, m) <==> HoldsOwnBit(t, m)
  {
    hide Tree, SameData;
    if l: nat :| l <= d.view.top && At(m, l) in d.view.loc && d.view.loc[At(m, l)] == m {
      SamePositions(t, d, At(m, l));
      assert t.view.loc[At(m, l)] == m;
    }
    if l: nat :| l <= t.view.top && At(m, l) in t.view.loc && t.view.loc[At(m, l)] == m && Private(t.store, m) {
      SamePositions(t, d, At(m, l));
      assert d.view.loc[At(m, l)] == m;
    }
  }

  lemma SamePositions(t: Draft, d: Draft, q: Pos)
    requires Tree(t.store, t.view) && Tree(d.store, d.view) && SameData(t.store, t.view, d.store, d.view)
    ensures t.view.top == d.view.top && (q in t.view.loc <==> q in d.view.loc)
  {
    hide StoreOk, Inverse, Placed, Rooted, Linked;
    assert q in t.view.loc.Keys <==> q in d.view.loc.Keys;
  }

  lemma StaysOff(v0: View, v: View, m: nat)
    requires Remains(v0, v) && v.top == v0.top && !OnOwnPath(v0, m)
    ensures !OnOwnPath(v, m)
  {
    forall l: nat | l <= v.top && At(m, l) in v.loc ensures v.loc[At(m, l)] != m {
      assert At(m, l) in v0.loc && v.loc[At(m, l)] == v0.loc[At(m, l)];
    }
  }
}
