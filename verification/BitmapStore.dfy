/**
 The draft store under the bitmaps and the copy-on-write step every edit is made of.

 A tree is described point by point: a ghost map sends each position of the conceptual
 complete tree to the page that holds it. That map is determined by the pages and the
 root (LocationUnique), so it adds no freedom.
 */
module BitmapStore {
  import opened BitmapLayout

  // ----- pages

  datatype Page =
    | Leaf(born: nat, count: nat, words: seq<set<nat>>)
    | Branch(born: nat, count: nat, height: nat, children: seq<nat>, summary: seq<bool>)
    | Blank(born: nat)

  function NonzeroWords(words: seq<set<nat>>): set<nat> {
    set i | 0 <= i < |words| && words[i] != {}
  }

  function NonzeroChildren(children: seq<nat>): set<nat> {
    set i | 0 <= i < |children| && children[i] != 0
  }

  ghost predicate LeafOk(p: Page) {
    && p.Leaf?
    && |p.words| == LEAF_WORDS
    && (forall i, b :: 0 <= i < LEAF_WORDS && b in p.words[i] ==> b < 64)
    && 0 < p.count == |NonzeroWords(p.words)|
  }

  ghost predicate BranchOk(p: Page, level: nat) {
    && p.Branch?
    && p.height == level
    && |p.children| == |p.summary| == FANOUT
    && 0 < p.count == |NonzeroChildren(p.children)|
  }

  /** What InspectHeader accepts, with an exact item count. */
  ghost predicate PageOk(p: Page, level: nat, txn: nat) {
    0 < p.born <= txn && if level == 0 then LeafOk(p) else BranchOk(p, level)
  }

  /** bitmap_page.go ReplaceBranchChild: child, summary bit and item count together. */
  function ReplaceChild(p: Page, i: nat, child: nat, summary: bool): Page
    requires p.Branch? && i < |p.children| == |p.summary|
    requires p.children[i] != 0 && child == 0 ==> p.count > 0
  {
    var count := if p.children[i] == 0 && child != 0 then p.count + 1
                 else if p.children[i] != 0 && child == 0 then p.count - 1
                 else p.count;
    p.(children := p.children[i := child], summary := p.summary[i := summary], count := count)
  }

  lemma ReplaceChildCount(p: Page, i: nat, child: nat, summary: bool)
    requires p.Branch? && |p.children| == |p.summary| == FANOUT && i < FANOUT
    requires p.count == |NonzeroChildren(p.children)|
    ensures p.children[i] != 0 ==> p.count > 0
    ensures var r := ReplaceChild(p, i, child, summary);
            r.count == |NonzeroChildren(r.children)|
  {
    var was := NonzeroChildren(p.children);
    var now := NonzeroChildren(p.children[i := child]);
    if p.children[i] != 0 {
      assert i in was;
      if child == 0 { assert now == was - {i}; } else { assert now == was; }
    } else {
      if child != 0 { assert now == was + {i}; } else { assert now == was; }
    }
  }

  function SetWord(p: Page, i: nat, word: set<nat>): Page
    requires p.Leaf? && i < |p.words|
    requires p.words[i] != {} && word == {} ==> p.count > 0
  {
    var count := if p.words[i] == {} && word != {} then p.count + 1
                 else if p.words[i] != {} && word == {} then p.count - 1
                 else p.count;
    p.(words := p.words[i := word], count := count)
  }

  lemma SetWordCount(p: Page, i: nat, word: set<nat>)
    requires p.Leaf? && |p.words| == LEAF_WORDS && i < LEAF_WORDS
    requires p.count == |NonzeroWords(p.words)|
    ensures p.words[i] != {} ==> p.count > 0
    ensures var r := SetWord(p, i, word);
            r.count == |NonzeroWords(r.words)|
  {
    var was := NonzeroWords(p.words);
    var now := NonzeroWords(p.words[i := word]);
    if p.words[i] != {} {
      assert i in was;
      if word == {} { assert now == was - {i}; } else { assert now == was; }
    } else {
      if word != {} { assert now == was + {i}; } else { assert now == was; }
    }
  }

  // ----- the store

  /** The draft's pages: `pool` is the private-page stack, `tail` the page limit. */
  datatype Store = Store(txn: nat, pages: map<nat, Page>, pool: seq<nat>, tail: nat)

  ghost predicate StoreOk(s: Store) {
    && s.txn > 0 && s.tail >= 2
    && (forall p {:trigger p in s.pages} :: p in s.pages ==> 2 <= p < s.tail)
    && (forall i :: 0 <= i < |s.pool| ==> 2 <= s.pool[i] < s.tail && s.pool[i] !in s.pages)
    && (forall i, j :: 0 <= i < j < |s.pool| ==> s.pool[i] != s.pool[j])
  }

  /** The private stack first, then the file tail. */
  function Allocate(s: Store): (r: (Store, nat))
    requires StoreOk(s)
    ensures StoreOk(r.0) && r.0.txn == s.txn && r.0.tail >= s.tail
    ensures r.1 !in s.pages && r.1 >= 2
    ensures r.0.pages == s.pages[r.1 := Blank(s.txn)]
  {
    if |s.pool| > 0 then
      var p := s.pool[|s.pool| - 1];
      (s.(pool := s.pool[..|s.pool| - 1], pages := s.pages[p := Blank(s.txn)]), p)
    else
      (s.(tail := s.tail + 1, pages := s.pages[s.tail := Blank(s.txn)]), s.tail)
  }

  predicate Private(s: Store, p: nat) {
    p in s.pages && s.pages[p].born == s.txn
  }

  /** Committed pages are refused: only a private page can be rewritten. */
  function Update(s: Store, p: nat, page: Page): (r: Store)
    requires StoreOk(s) && Private(s, p) && page.born == s.txn
    ensures StoreOk(r)
  {
    s.(pages := s.pages[p := page])
  }

  function Discard(s: Store, p: nat): (r: Store)
    requires StoreOk(s) && Private(s, p)
    ensures StoreOk(r)
  {
    s.(pages := s.pages - {p}, pool := s.pool + [p])
  }

  // ----- trees

  /**
   Ghost description of one tree in the draft: `loc` sends positions to pages and `pos`
   pages back to positions. `fixed` are the pages no edit of this tree may change (every
   committed page, and the pages of other trees); `snap` are the page numbers of the tree
   the draft started from; `absent` are the numbers the store does not manage; `txn` is the
   draft's transaction.
   */
  datatype View = View(root: nat, top: nat, loc: map<Pos, nat>, pos: map<nat, Pos>,
                       fixed: map<nat, Page>, snap: set<nat>, absent: set<nat>, txn: nat)

  ghost predicate SameOrigin(v: View, w: View) {
    w.fixed == v.fixed && w.snap == v.snap && w.absent == v.absent && w.txn == v.txn
  }

  /** Neither a page, nor in the private stack, nor beyond the file. */
  predicate Missing(s: Store, p: nat) {
    p !in s.pages && p !in s.pool && p < s.tail
  }

  /** No page number was lost and none appeared. */
  ghost predicate Conserved(s: Store, s': Store) {
    forall p: nat {:trigger Missing(s, p)} {:trigger Missing(s', p)} :: Missing(s, p) <==> Missing(s', p)
  }

  /** Every page of the store is a fixed one or one of the tree; every other number is still in stock. */
  ghost predicate Accounted(s: Store, v: View) {
    && (forall p {:trigger p in s.pages} :: p in s.pages ==> p in v.fixed || p in v.pos)
    && (forall p: nat {:trigger Missing(s, p)} :: Missing(s, p) <==> p in v.absent)
  }

  lemma AllocateConserves(s: Store)
    requires StoreOk(s)
    ensures Conserved(s, Allocate(s).0)
  {
    var (s', n) := Allocate(s);
    forall p: nat ensures Missing(s, p) <==> Missing(s', p) {
      if |s.pool| > 0 {
        assert s.pool == s'.pool + [n];
        assert p in s.pool <==> p in s'.pool || p == n;
      }
    }
  }

  lemma UpdateConserves(s: Store, p: nat, page: Page)
    requires StoreOk(s) && Private(s, p) && page.born == s.txn
    ensures Conserved(s, Update(s, p, page))
  {
  }

  lemma NewPageConserves(s: Store, page: Page)
    requires StoreOk(s) && page.born == s.txn
    ensures Private(Allocate(s).0, Allocate(s).1) && Conserved(s, Update(Allocate(s).0, Allocate(s).1, page))
  {
    hide Conserved;
    var (s1, p) := Allocate(s);
    AllocateConserves(s);
    UpdateConserves(s1, p, page);
    ConservesTransitive(s, s1, Update(s1, p, page));
  }

  lemma DiscardConserves(s: Store, p: nat)
    requires StoreOk(s) && Private(s, p)
    ensures Conserved(s, Discard(s, p))
  {
    var s' := Discard(s, p);
    forall x: nat ensures Missing(s, x) <==> Missing(s', x) {
      assert x in s'.pool <==> x in s.pool || x == p;
      assert p < s.tail;
    }
  }

  lemma ConservesTransitive(s0: Store, s1: Store, s2: Store)
    requires Conserved(s0, s1) && Conserved(s1, s2)
    ensures Conserved(s0, s2)
  {
    hide Missing;
    forall p: nat ensures Missing(s0, p) <==> Missing(s2, p) { assert Missing(s0, p) <==> Missing(s1, p); }
  }

  ghost predicate Inverse(v: View) {
    && (forall q {:trigger q in v.loc} :: q in v.loc ==> v.loc[q] in v.pos && v.pos[v.loc[q]] == q)
    && (forall p {:trigger p in v.pos} :: p in v.pos ==> v.pos[p] in v.loc && v.loc[v.pos[p]] == p)
  }

  ghost predicate Placed(s: Store, v: View) {
    forall p {:trigger p in v.pos} :: p in v.pos ==> p in s.pages && v.pos[p].level <= v.top && PageOk(s.pages[p], v.pos[p].level, s.txn)
  }

  ghost predicate Rooted(v: View) {
    && (v.root == 0 ==> v.loc == map[])
    && (v.root != 0 ==> Pos(v.top, 0) in v.loc && v.loc[Pos(v.top, 0)] == v.root)
    && (forall q {:trigger q in v.loc} :: q in v.loc && q.level == v.top ==> q.k == 0)
    && (forall q {:trigger Parent(q)} :: q in v.loc && q.level < v.top ==> Parent(q) in v.loc)
  }

  ghost function PageAt(v: View, q: Pos): nat {
    if q in v.loc then v.loc[q] else 0
  }

  ghost predicate Linked(s: Store, v: View)
    requires Placed(s, v)
  {
    forall p, i :: p in v.pos && v.pos[p].level > 0 && 0 <= i < FANOUT ==>
      s.pages[p].children[i] == PageAt(v, Child(v.pos[p], i))
  }

  ghost predicate Tree(s: Store, v: View) {
    StoreOk(s) && Inverse(v) && Placed(s, v) && Rooted(v) && Linked(s, v)
  }

  /**
   Copy-on-write bookkeeping: the fixed pages hold what they held, the tree's committed
   pages all belong to the starting tree, the retired list names exactly the starting
   tree's pages that are no longer in this tree, each once, and no page number is lost.
   */
  ghost predicate Books(s: Store, retired: seq<nat>, v: View) {
    && s.txn == v.txn && v.snap <= v.fixed.Keys
    && (forall p {:trigger p in v.fixed} :: p in v.fixed ==> p in s.pages && s.pages[p] == v.fixed[p])
    && (forall p {:trigger p in v.pos} :: p in v.pos ==> p in s.pages && (p in v.fixed <==> s.pages[p].born < s.txn))
    && (forall p {:trigger p in v.fixed} :: p in v.pos && p in v.fixed ==> p in v.snap)
    && (forall i, j :: 0 <= i < j < |retired| ==> retired[i] != retired[j])
    && (forall p {:trigger p in retired} {:trigger p in v.snap} :: p in retired <==> p in v.snap && p !in v.pos)
    && Accounted(s, v)
  }

  ghost predicate Cow(s: Store, retired: seq<nat>, v: View) {
    Tree(s, v) && Books(s, retired, v)
  }

  ghost predicate SameDatum(p: Page, p': Page, level: nat) {
    if level == 0 then p.Leaf? && p'.Leaf? && p'.words == p.words
    else p.Branch? && p'.Branch? && p'.summary == p.summary
  }

  /** Same positions, same bits, same summaries: only the pages that hold them may differ. */
  ghost predicate SameData(s: Store, v: View, s': Store, v': View)
    requires Tree(s, v) && Tree(s', v')
  {
    && v.loc.Keys == v'.loc.Keys && v.top == v'.top && SameOrigin(v, v')
    && (v.root == 0 <==> v'.root == 0)
    && s.txn == s'.txn
    && forall q {:trigger q in v.loc} {:trigger q in v'.loc} :: q in v.loc ==>
         v.loc[q] in s.pages && v'.loc[q] in s'.pages && SameDatum(s.pages[v.loc[q]], s'.pages[v'.loc[q]], q.level)
  }

  /** Page numbers were only handed out, and no page changed its owner. */
  ghost predicate Drawn(s0: Store, s: Store) {
    && s.txn == s0.txn && s.pool <= s0.pool && s.tail >= s0.tail
    && forall x {:trigger x in s0.pages} :: x in s0.pages ==> x in s.pages && s.pages[x].born == s0.pages[x].born
  }

  /** The page numbers the store may hand out. */
  ghost predicate InStock(s: Store, p: nat) {
    p !in s.pages && (p in s.pool || p >= s.tail)
  }

  /** The page at a position is the one it was if that is private, and otherwise a copy on a new page. */
  ghost predicate MovedAt(s0: Store, v0: View, v: View, q: Pos)
    requires q in v0.loc && q in v.loc
  {
    if Private(s0, v0.loc[q]) then v.loc[q] == v0.loc[q] else InStock(s0, v.loc[q])
  }

  /** At most the page at one position moved. */
  ghost predicate MovedOnly(s0: Store, v0: View, s: Store, v: View, q: Pos) {
    && Drawn(s0, s) && q in v0.loc && q in v.loc && MovedAt(s0, v0, v, q)
    && forall r {:trigger r in v0.loc} :: r in v0.loc && r != q ==> r in v.loc && v.loc[r] == v0.loc[r]
  }

  /** On the path to a bit, down to a level, committed pages moved to new ones; every other page stayed. */
  ghost predicate MovedPath(s0: Store, v0: View, s: Store, v: View, bit: nat, level: nat) {
    && Drawn(s0, s)
    && forall q {:trigger q in v0.loc} :: q in v0.loc ==>
         && q in v.loc
         && if q == At(bit, q.level) && q.level >= level then MovedAt(s0, v0, v, q) else v.loc[q] == v0.loc[q]
  }

  lemma MovedPathStarts(s0: Store, v0: View, s: Store, v: View, bit: nat)
    requires MovedOnly(s0, v0, s, v, Pos(v0.top, 0)) && Slot(bit, v0.top) == 0
    requires forall q {:trigger q in v0.loc} :: q in v0.loc ==> q.level <= v0.top
    ensures MovedPath(s0, v0, s, v, bit, v0.top)
  {
    hide Slot, Private;
  }

  lemma MovedPathGrows(s0: Store, v0: View, s1: Store, v1: View, s2: Store, v2: View, bit: nat, level: nat)
    requires StoreOk(s1) && MovedPath(s0, v0, s1, v1, bit, level + 1) && MovedOnly(s1, v1, s2, v2, At(bit, level))
    requires At(bit, level) in v0.loc && v0.loc[At(bit, level)] in s0.pages
    ensures MovedPath(s0, v0, s2, v2, bit, level)
  {
    hide Slot;
    assert Drawn(s0, s2);
    var q := At(bit, level);
    assert v1.loc[q] == v0.loc[q];
    if !Private(s0, v0.loc[q]) {
      assert v2.loc[q] in s1.pool ==> v2.loc[q] in s0.pool;
    }
  }

  /** used.go touch: a committed page is copied to a private one and retired. */
  method Touch(s0: Store, retired0: seq<nat>, p0: nat)
    returns (s: Store, retired: seq<nat>, p: nat)
    requires StoreOk(s0) && p0 in s0.pages
    ensures StoreOk(s) && s.txn == s0.txn
    ensures Private(s0, p0) ==> s == s0 && retired == retired0 && p == p0
    ensures !Private(s0, p0) ==>
              && p !in s0.pages && p >= 2
              && s.pages == s0.pages[p := s0.pages[p0].(born := s0.txn)]
              && retired == retired0 + [p0]
    ensures Drawn(s0, s) && (!Private(s0, p0) ==> InStock(s0, p)) && Conserved(s0, s)
  {
    if Private(s0, p0) {
      return s0, retired0, p0;
    }
    var (s1, p1) := Allocate(s0);
    s := Update(s1, p1, s0.pages[p0].(born := s0.txn));
    NewPageConserves(s0, s0.pages[p0].(born := s0.txn));
    assert s.pages == s0.pages[p1 := s0.pages[p0].(born := s0.txn)];
    retired, p := retired0 + [p0], p1;
  }

  /** The view after the page at a position has been replaced by a fresh one. */
  ghost function Moved(v: View, q: Pos, p: nat): View
    requires q in v.loc
  {
    v.(root := if v.root == v.loc[q] then p else v.root,
       loc := v.loc[q := p],
       pos := (v.pos - {v.loc[q]})[p := q])
  }

  /** The pages differ from the old ones by a private copy, and by one link to it. */
  ghost predicate CopiedTo(s0: Store, v0: View, q: Pos, s: Store, p: nat)
    requires Tree(s0, v0) && q in v0.loc
  {
    && StoreOk(s) && s.txn == s0.txn
    && p !in s0.pages && p >= 2 && p in s.pages && s.pages[p] == s0.pages[v0.loc[q]].(born := s.txn)
    && (forall x :: x in s.pages <==> x in s0.pages || x == p) && Conserved(s0, s)
    && (forall x :: x in s0.pages && (q.level == v0.top || x != v0.loc[Parent(q)]) ==> s.pages[x] == s0.pages[x])
    && (q.level < v0.top ==>
          && Private(s0, v0.loc[Parent(q)])
          && (var b := s0.pages[v0.loc[Parent(q)]];
              s.pages[v0.loc[Parent(q)]] == b.(children := b.children[q.k % FANOUT := p])))
  }

  /** A position below the root hangs from its parent's page. */
  lemma ParentLink(s: Store, v: View, q: Pos)
    requires Tree(s, v) && q in v.loc && q.level < v.top
    ensures Parent(q) in v.loc && Child(Parent(q), q.k % FANOUT) == q
    ensures v.loc[Parent(q)] in s.pages && BranchOk(s.pages[v.loc[Parent(q)]], q.level + 1)
    ensures s.pages[v.loc[Parent(q)]].children[q.k % FANOUT] == v.loc[q] != 0
    ensures v.loc[Parent(q)] != v.loc[q]
  {
    var p := v.loc[Parent(q)];
    assert p in v.pos && v.pos[p] == Parent(q);
    assert v.loc[q] in v.pos && v.loc[q] in s.pages;
    assert Child(Parent(q), q.k % FANOUT) == q;
    assert PageAt(v, q) == v.loc[q];
  }

  lemma CopiedPlaced(s0: Store, v0: View, q: Pos, s: Store, p: nat)
    requires Tree(s0, v0) && q in v0.loc && CopiedTo(s0, v0, q, s, p)
    ensures Placed(s, Moved(v0, q, p))
  {
    hide StoreOk, Linked, Conserved;
    var v := Moved(v0, q, p);
    forall x | x in v.pos ensures x in s.pages && v.pos[x].level <= v.top && PageOk(s.pages[x], v.pos[x].level, s.txn) {
      if x != p && q.level < v0.top && x == v0.loc[Parent(q)] {
        ParentLink(s0, v0, q);
        ReplaceChildCount(s0.pages[x], q.k % FANOUT, p, s0.pages[x].summary[q.k % FANOUT]);
        assert s0.pages[x].summary[q.k % FANOUT := s0.pages[x].summary[q.k % FANOUT]] == s0.pages[x].summary;
      }
    }
  }

  lemma CopiedRooted(s0: Store, v0: View, q: Pos, s: Store, p: nat)
    requires Tree(s0, v0) && q in v0.loc && CopiedTo(s0, v0, q, s, p)
    ensures Inverse(Moved(v0, q, p)) && Rooted(Moved(v0, q, p))
  {
    hide PageOk, Linked, Conserved;
  }

  lemma CopiedLinked(s0: Store, v0: View, q: Pos, s: Store, p: nat)
    requires Tree(s0, v0) && q in v0.loc && CopiedTo(s0, v0, q, s, p)
    requires Placed(s, Moved(v0, q, p)) && Inverse(Moved(v0, q, p))
    ensures Linked(s, Moved(v0, q, p))
  {
    var v := Moved(v0, q, p);
    forall x, i | x in v.pos && v.pos[x].level > 0 && 0 <= i < FANOUT
      ensures s.pages[x].children[i] == PageAt(v, Child(v.pos[x], i))
    {
      if x == p {
        CopiedLinkNew(s0, v0, q, s, p, i);
      } else {
        CopiedLinkOld(s0, v0, q, s, p, x, i);
      }
    }
  }

  lemma CopiedLinkNew(s0: Store, v0: View, q: Pos, s: Store, p: nat, i: nat)
    requires Tree(s0, v0) && q in v0.loc && CopiedTo(s0, v0, q, s, p) && q.level > 0 && i < FANOUT
    ensures s.pages[p].Branch? && i < |s.pages[p].children|
    ensures s.pages[p].children[i] == PageAt(Moved(v0, q, p), Child(q, i))
  {
    hide StoreOk, LeafOk, Rooted, Conserved;
    assert v0.loc[q] in v0.pos && s0.pages[v0.loc[q]].children[i] == PageAt(v0, Child(q, i));
  }

  lemma CopiedLinkOld(s0: Store, v0: View, q: Pos, s: Store, p: nat, x: nat, i: nat)
    requires Tree(s0, v0) && q in v0.loc && CopiedTo(s0, v0, q, s, p)
    requires x in v0.pos && x != v0.loc[q] && v0.pos[x].level > 0 && i < FANOUT
    ensures x in s.pages && s.pages[x].Branch? && i < |s.pages[x].children|
    ensures s.pages[x].children[i] == PageAt(Moved(v0, q, p), Child(v0.pos[x], i))
  {
    hide StoreOk, LeafOk, Rooted, Parent, Child, Conserved;
    var r := Child(v0.pos[x], i);
    ParentOfChild(v0.pos[x], i);
    assert s0.pages[x].children[i] == PageAt(v0, r);
    if q.level < v0.top { ParentLink(s0, v0, q); }
  }

  lemma ParentOfChild(q: Pos, i: nat)
    requires q.level > 0 && i < FANOUT
    ensures Parent(Child(q, i)) == q && Child(q, i).k % FANOUT == i && Child(q, i).level == q.level - 1
  {
  }

  lemma CopiedBooks(s0: Store, retired: seq<nat>, v0: View, q: Pos, s: Store, p: nat)
    requires Cow(s0, retired, v0) && q in v0.loc && !Private(s0, v0.loc[q]) && CopiedTo(s0, v0, q, s, p)
    ensures Books(s, retired + [v0.loc[q]], Moved(v0, q, p))
  {
    hide LeafOk, BranchOk, Linked, StoreOk, Accounted, Conserved;
    assert v0.loc[q] in v0.pos;
    if q.level < v0.top { assert v0.loc[Parent(q)] in v0.pos; }
    assert forall x :: x in v0.fixed ==> s.pages[x] == s0.pages[x];
    CopiedAccounted(s0, retired, v0, q, s, p);
  }

  lemma CopiedAccounted(s0: Store, retired: seq<nat>, v0: View, q: Pos, s: Store, p: nat)
    requires Cow(s0, retired, v0) && q in v0.loc && !Private(s0, v0.loc[q]) && CopiedTo(s0, v0, q, s, p)
    ensures Accounted(s, Moved(v0, q, p))
  {
    hide LeafOk, BranchOk, Linked, StoreOk, Conserved, Rooted;
    assert v0.loc[q] in v0.pos && v0.loc[q] in v0.fixed;
    hide Missing;
    var v := Moved(v0, q, p);
    forall x: nat ensures Missing(s, x) <==> x in v.absent { SameMissing(s0, s, x); }
  }

  lemma SameMissing(s: Store, s': Store, p: nat)
    requires Conserved(s, s')
    ensures Missing(s, p) <==> Missing(s', p)
  {
  }

  lemma CopiedDatum(s0: Store, v0: View, q: Pos, s: Store, p: nat, r: Pos)
    requires Tree(s0, v0) && q in v0.loc && r in v0.loc && CopiedTo(s0, v0, q, s, p)
    requires Placed(s, Moved(v0, q, p)) && Inverse(Moved(v0, q, p))
    ensures var v := Moved(v0, q, p);
            v.loc[r] in s.pages && v0.loc[r] in s0.pages && SameDatum(s0.pages[v0.loc[r]], s.pages[v.loc[r]], r.level)
  {
    hide StoreOk, Linked, Conserved;
    assert v0.loc[r] in v0.pos;
    if q.level < v0.top {
      ParentLink(s0, v0, q);
      assert r != q && v0.loc[r] == v0.loc[Parent(q)] ==> r == Parent(q);
    }
  }

  lemma CopiedData(s0: Store, v0: View, q: Pos, s: Store, p: nat)
    requires Tree(s0, v0) && q in v0.loc && CopiedTo(s0, v0, q, s, p) && Tree(s, Moved(v0, q, p))
    ensures SameData(s0, v0, s, Moved(v0, q, p))
  {
    hide StoreOk, Linked, CopiedTo, PageOk, Rooted, Conserved;
    var v := Moved(v0, q, p);
    CopiedRoot(s0, v0, q, s, p);
    forall r | r in v0.loc
      ensures v.loc[r] in s.pages && v0.loc[r] in s0.pages && SameDatum(s0.pages[v0.loc[r]], s.pages[v.loc[r]], r.level)
    {
      CopiedDatum(s0, v0, q, s, p, r);
    }
  }

  lemma CopiedRoot(s0: Store, v0: View, q: Pos, s: Store, p: nat)
    requires Tree(s0, v0) && q in v0.loc && CopiedTo(s0, v0, q, s, p)
    ensures s.txn == s0.txn && (Moved(v0, q, p).root == 0 <==> v0.root == 0)
  {
    hide Linked, PageOk, Conserved;
    assert v0.loc[q] in v0.pos;
  }

  lemma CopiedCow(s0: Store, retired: seq<nat>, v0: View, q: Pos, s: Store, p: nat)
    requires Cow(s0, retired, v0) && q in v0.loc && !Private(s0, v0.loc[q]) && CopiedTo(s0, v0, q, s, p)
    ensures Cow(s, retired + [v0.loc[q]], Moved(v0, q, p))
    ensures SameData(s0, v0, s, Moved(v0, q, p))
  {
    hide StoreOk, PageOk, Linked, Conserved;
    CopiedPlaced(s0, v0, q, s, p);
    CopiedRooted(s0, v0, q, s, p);
    CopiedLinked(s0, v0, q, s, p);
    CopiedBooks(s0, retired, v0, q, s, p);
    CopiedData(s0, v0, q, s, p);
  }

  lemma TouchedRootIsCopied(s0: Store, v0: View, s: Store, p: nat)
    requires Tree(s0, v0) && v0.root != 0
    requires StoreOk(s) && s.txn == s0.txn && p !in s0.pages && p >= 2 && v0.root in s0.pages
    requires s.pages == s0.pages[p := s0.pages[v0.root].(born := s0.txn)] && Conserved(s0, s)
    ensures CopiedTo(s0, v0, Pos(v0.top, 0), s, p)
  {
    hide PageOk, Linked, Conserved;
  }

  method TouchRoot(s0: Store, retired0: seq<nat>, root: nat, ghost v0: View)
    returns (s: Store, retired: seq<nat>, p: nat, ghost v: View)
    requires Cow(s0, retired0, v0) && v0.root == root != 0
    ensures Cow(s, retired, v) && SameData(s0, v0, s, v)
    ensures v.root == p && Private(s, p) && MovedOnly(s0, v0, s, v, Pos(v0.top, 0))
  {
    hide LeafOk, Linked, Rooted, Placed, Inverse, Books, StoreOk, SameData, CopiedTo, InStock;
    ghost var q := Pos(v0.top, 0);
    RootAt(s0, v0);
    ChildIsPage(s0, v0, q);
    s, retired, p := Touch(s0, retired0, root);
    v := v0;
    if Private(s0, root) {
      SameDataSelf(s0, v0);
    } else {
      v := Moved(v0, q, p);
      TouchedRootIsCopied(s0, v0, s, p);
      CopiedCow(s0, retired0, v0, q, s, p);
    }
  }

  lemma TouchedIsCopied(s0: Store, v0: View, q: Pos, s1: Store, p: nat, s: Store)
    requires Tree(s0, v0) && q in v0.loc && q.level < v0.top && Private(s0, v0.loc[Parent(q)])
    requires StoreOk(s1) && s1.txn == s0.txn && p !in s0.pages && p >= 2
    requires s1.pages == s0.pages[p := s0.pages[v0.loc[q]].(born := s0.txn)] && Conserved(s0, s1)
    requires s1.pages[v0.loc[Parent(q)]].Branch? && q.k % FANOUT < |s1.pages[v0.loc[Parent(q)]].children|
    requires var b := s1.pages[v0.loc[Parent(q)]];
             s == Update(s1, v0.loc[Parent(q)], b.(children := b.children[q.k % FANOUT := p]))
    ensures CopiedTo(s0, v0, q, s, p)
  {
    hide PageOk, Linked, Conserved;
    var b := s1.pages[v0.loc[Parent(q)]];
    UpdateConserves(s1, v0.loc[Parent(q)], b.(children := b.children[q.k % FANOUT := p]));
    ConservesTransitive(s0, s1, s);
  }

  /** used.go touchChild: touch the child and, if it moved, redirect the private parent. */
  method TouchChild(s0: Store, retired0: seq<nat>, parent: nat, index: nat, ghost q: Pos, ghost v0: View)
    returns (s: Store, retired: seq<nat>, p: nat, ghost v: View)
    requires Cow(s0, retired0, v0) && q in v0.loc && q.level < v0.top
    requires v0.loc[Parent(q)] == parent && Private(s0, parent) && index == q.k % FANOUT
    ensures Cow(s, retired, v) && SameData(s0, v0, s, v)
    ensures v.loc[q] == p && Private(s, p) && v.root == v0.root
    ensures forall r {:trigger r in v.loc} :: r in v.loc && r != q ==> v.loc[r] == v0.loc[r]
    ensures forall x {:trigger Private(s, x)} :: Private(s0, x) ==> Private(s, x)
    ensures MovedOnly(s0, v0, s, v, q)
  {
    hide LeafOk, Linked, Rooted, Placed, Inverse, Books, StoreOk, SameData, CopiedTo, InStock;
    ParentLink(s0, v0, q);
    ChildIsPage(s0, v0, q);
    var child := s0.pages[parent].children[index];
    var s1: Store;
    s1, retired, p := Touch(s0, retired0, child);
    s, v := s1, v0;
    if Private(s0, child) {
      SameDataSelf(s0, v0);
    } else {
      var b := s1.pages[parent];
      s := Update(s1, parent, b.(children := b.children[index := p]));
      v := Moved(v0, q, p);
      TouchedIsCopied(s0, v0, q, s1, p, s);
      CopiedCow(s0, retired0, v0, q, s, p);
    }
  }

  lemma ChildIsPage(s: Store, v: View, q: Pos)
    requires Tree(s, v) && q in v.loc
    ensures v.loc[q] in s.pages && s.pages[v.loc[q]].born <= s.txn && (q.level < v.top ==> v.root != v.loc[q])
  {
    assert v.loc[q] in v.pos;
  }

  lemma SameDataSelf(s: Store, v: View)
    requires Tree(s, v)
    ensures SameData(s, v, s, v)
  {
  }

  lemma {:induction false} SameDataTransitive(s0: Store, v0: View, s1: Store, v1: View, s2: Store, v2: View)
    requires Tree(s0, v0) && Tree(s1, v1) && Tree(s2, v2)
    requires SameData(s0, v0, s1, v1) && SameData(s1, v1, s2, v2)
    ensures SameData(s0, v0, s2, v2)
  {
    hide StoreOk, Placed, Rooted, Linked, Inverse;
    assert forall q :: q in v0.loc ==> q in v1.loc && q in v2.loc;
  }

  // ----- the descent of an edit

  /** One level of a descent: the branch page, the child slot taken, and where that child starts. */
  datatype Frame = Frame(page: nat, index: nat, level: nat, childBase: nat)

  ghost predicate FrameOk(s: Store, v: View, bit: nat, f: Frame, level: nat) {
    && level > 0 && At(bit, level) in v.loc
    && f == Frame(v.loc[At(bit, level)], ChildIndex(bit, level), level, Base(At(bit, level - 1)))
    && Private(s, f.page)
  }

  /** The frames from the root down to just above a level, all on private pages. */
  ghost predicate PathOk(s: Store, v: View, bit: nat, path: seq<Frame>, level: nat) {
    && level + |path| == v.top
    && forall d {:trigger path[d]} :: 0 <= d < |path| ==> FrameOk(s, v, bit, path[d], v.top - d)
  }

  /** Walk towards a bit, making every page on the way private, until a leaf or a missing child. */
  method Descend(s0: Store, retired0: seq<nat>, root0: nat, top: nat, bit: nat, ghost v0: View)
    returns (s: Store, retired: seq<nat>, root: nat, path: seq<Frame>, page: nat, level: nat, base: nat, ghost v: View)
    requires Cow(s0, retired0, v0) && v0.root == root0 != 0 && v0.top == top && Slot(bit, top) == 0
    ensures Cow(s, retired, v) && SameData(s0, v0, s, v) && v.root == root
    ensures PathOk(s, v, bit, path, level)
    ensures At(bit, level) in v.loc && v.loc[At(bit, level)] == page && Private(s, page) && base == Base(At(bit, level))
    ensures level > 0 ==> At(bit, level - 1) !in v.loc
  {
    hide StoreOk, Placed, Rooted, Linked, Inverse, Books, SameData, MovedOnly;
    s, retired, root, v := TouchRoot(s0, retired0, root0, v0);
    SameShape(s0, v0, s, v);
    RootAt(s, v);
    page, level, base, path := root, top, 0, [];
    while level > 0
      invariant Cow(s, retired, v) && SameData(s0, v0, s, v) && v.root == root && v.top == top
      invariant PathOk(s, v, bit, path, level)
      invariant At(bit, level) in v.loc && v.loc[At(bit, level)] == page && Private(s, page) && base == Base(At(bit, level))
      decreases level
    {
      var index := ChildIndex(bit, level);
      var childBase := base + Coverage(level - 1) * index;
      ChildBase(At(bit, level), index);
      BranchLink(s, v, At(bit, level), index);
      if s.pages[page].children[index] == 0 {
        return;
      }
      var f := Frame(page, index, level, childBase);
      ghost var q := At(bit, level - 1);
      var s1, retired1, page1;
      ghost var v1;
      s1, retired1, page1, v1 := TouchChild(s, retired, page, index, q, v);
      SameShape(s, v, s1, v1);
      PathMoves(s, v, s1, v1, bit, path + [f], level - 1);
      SameDataTransitive(s0, v0, s, v, s1, v1);
      s, retired, page, v, level, base, path := s1, retired1, page1, v1, level - 1, childBase, path + [f];
    }
  }

  lemma RootAt(s: Store, v: View)
    requires Tree(s, v) && v.root != 0
    ensures Pos(v.top, 0) in v.loc && v.loc[Pos(v.top, 0)] == v.root
  {
  }

  lemma SameShape(s: Store, v: View, s': Store, v': View)
    requires Tree(s, v) && Tree(s', v') && SameData(s, v, s', v')
    ensures v'.top == v.top && v'.loc.Keys == v.loc.Keys && (v'.root == 0 <==> v.root == 0)
  {
  }

  lemma BranchLink(s: Store, v: View, q: Pos, i: nat)
    requires Tree(s, v) && q in v.loc && q.level > 0 && i < FANOUT
    ensures v.loc[q] in s.pages && BranchOk(s.pages[v.loc[q]], q.level) && Parent(Child(q, i)) == q && Child(q, i).k % FANOUT == i
    ensures s.pages[v.loc[q]].children[i] == PageAt(v, Child(q, i))
    ensures s.pages[v.loc[q]].children[i] != 0 <==> Child(q, i) in v.loc
    ensures q.level <= v.top
  {
    assert v.loc[q] in v.pos && v.pos[v.loc[q]] == q;
    if Child(q, i) in v.loc { assert v.loc[Child(q, i)] in v.pos; }
  }

  lemma PathMoves(s: Store, v: View, s1: Store, v1: View, bit: nat, path: seq<Frame>, level: nat)
    requires PathOk(s, v, bit, path, level) && v1.top == v.top && v1.loc.Keys == v.loc.Keys
    requires forall r {:trigger r in v1.loc} :: r in v1.loc && r != At(bit, level) ==> v1.loc[r] == v.loc[r]
    requires forall x {:trigger Private(s1, x)} :: Private(s, x) ==> Private(s1, x)
    ensures PathOk(s1, v1, bit, path, level)
  {
    forall d | 0 <= d < |path| ensures FrameOk(s1, v1, bit, path[d], v.top - d) {
      assert FrameOk(s, v, bit, path[d], v.top - d);
    }
  }

  // ----- edits of private pages

  /** A private page of the tree may be rewritten, as long as its links stay. */
  ghost predicate Rewritable(s: Store, v: View, p: nat, page: Page)
    requires Tree(s, v)
  {
    && p in v.pos && Private(s, p) && page.born == s.txn && PageOk(page, v.pos[p].level, s.txn)
    && (v.pos[p].level > 0 ==> page.children == s.pages[p].children)
  }

  lemma RewriteTree(s: Store, v: View, p: nat, page: Page)
    requires Tree(s, v) && Rewritable(s, v, p, page)
    ensures Tree(Update(s, p, page), v)
  {
    hide Rooted, LeafOk;
  }

  lemma UpdateAccounted(s: Store, v: View, p: nat, page: Page)
    requires StoreOk(s) && Private(s, p) && page.born == s.txn && Accounted(s, v)
    ensures Accounted(Update(s, p, page), v)
  {
    forall x: nat ensures Missing(Update(s, p, page), x) <==> x in v.absent { assert Missing(s, x) <==> x in v.absent; }
  }

  lemma RewriteCow(s: Store, retired: seq<nat>, v: View, p: nat, page: Page)
    requires Cow(s, retired, v) && Rewritable(s, v, p, page)
    ensures Cow(Update(s, p, page), retired, v)
  {
    hide Rooted, LeafOk, BranchOk, Linked, Accounted;
    RewriteTree(s, v, p, page);
    UpdateAccounted(s, v, p, page);
  }

  // ----- hanging a fresh limb

  /** A fresh single-path subtree: sub[l] is its page of level l, and the way to `bit` its only children. */
  ghost predicate Limb(s: Store, bit: nat, sub: seq<nat>) {
    && (forall l {:trigger sub[l]} :: 0 <= l < |sub| ==> Private(s, sub[l]) && PageOk(s.pages[sub[l]], l, s.txn))
    && (forall l, l' :: 0 <= l < l' < |sub| ==> sub[l] != sub[l'])
    && (forall l, i {:trigger s.pages[sub[l]].children[i]} :: 0 < l < |sub| && 0 <= i < FANOUT ==>
          s.pages[sub[l]].children[i] == if i == ChildIndex(bit, l) then sub[l - 1] else 0)
  }

  /** From s to s', a fresh limb appears below the position At(bit, |sub|), or becomes the whole tree. */
  ghost predicate Hung(s: Store, v: View, bit: nat, sub: seq<nat>, s': Store)
    requires Tree(s, v)
  {
    && StoreOk(s') && s'.txn == s.txn && |sub| > 0 && Limb(s', bit, sub)
    && (forall l {:trigger sub[l]} :: 0 <= l < |sub| ==> sub[l] !in s.pages)
    && At(bit, |sub| - 1) !in v.loc && Conserved(s, s')
    && (forall x {:trigger x in s.pages} :: x in s.pages ==> x in s'.pages)
    && (forall x {:trigger x in s'.pages} :: x in s'.pages ==> x in s.pages || x in sub)
    && if |sub| <= v.top then
         && At(bit, |sub|) in v.loc && Private(s, v.loc[At(bit, |sub|)])
         && (forall x {:trigger x in s.pages} :: x in s.pages && x != v.loc[At(bit, |sub|)] ==> s'.pages[x] == s.pages[x])
         && (var p := v.loc[At(bit, |sub|)];
             && PageOk(s'.pages[p], |sub|, s.txn) && s'.pages[p].born == s.txn
             && s.pages[p].Branch? && |s.pages[p].children| == FANOUT
             && s'.pages[p].children == s.pages[p].children[ChildIndex(bit, |sub|) := sub[|sub| - 1]])
       else
         && |sub| == v.top + 1 && v.root == 0 && Slot(bit, v.top) == 0
         && (forall x {:trigger x in s.pages} :: x in s.pages ==> s'.pages[x] == s.pages[x])
  }

  ghost function LimbLevel(sub: seq<nat>, p: nat): (l: nat)
    requires p in sub
    ensures l < |sub| && sub[l] == p
  {
    var l :| 0 <= l < |sub| && sub[l] == p;
    l
  }

  ghost function WithLimb(v: View, bit: nat, sub: seq<nat>): View
    requires |sub| > 0
  {
    var places := set l | 0 <= l < |sub| :: At(bit, l);
    var pages := set l | 0 <= l < |sub| :: sub[l];
    v.(root := if |sub| <= v.top then v.root else sub[|sub| - 1],
       loc := map q | q in v.loc.Keys + places :: if q in v.loc then v.loc[q] else sub[q.level],
       pos := map p | p in v.pos.Keys + pages :: if p in v.pos then v.pos[p] else At(bit, LimbLevel(sub, p)))
  }

  lemma {:induction false} AbsentBelow(s: Store, v: View, bit: nat, level: nat, l: nat)
    requires Tree(s, v) && At(bit, level) !in v.loc && l <= level <= v.top
    ensures At(bit, l) !in v.loc
    decreases level - l
  {
    if l < level {
      AbsentBelow(s, v, bit, level, l + 1);
      assert Parent(At(bit, l)) == At(bit, l + 1);
    }
  }

  /** What WithLimb amounts to. */
  ghost predicate LimbView(v: View, bit: nat, sub: seq<nat>, w: View) {
    && w.top == v.top && SameOrigin(v, w)
    && |sub| > 0 && w.root == (if |sub| <= v.top then v.root else sub[|sub| - 1])
    && (forall q {:trigger q in w.loc} :: q in w.loc <==> q in v.loc || (q.level < |sub| && q == At(bit, q.level)))
    && (forall q {:trigger q in v.loc} :: q in v.loc ==> w.loc[q] == v.loc[q])
    && (forall l {:trigger sub[l]} :: 0 <= l < |sub| ==> At(bit, l) in w.loc && At(bit, l) !in v.loc && w.loc[At(bit, l)] == sub[l])
    && (forall p {:trigger p in w.pos} :: p in w.pos <==> p in v.pos || p in sub)
    && (forall p {:trigger p in v.pos} :: p in v.pos ==> w.pos[p] == v.pos[p] && p !in sub)
    && (forall l {:trigger sub[l]} :: 0 <= l < |sub| ==> sub[l] in w.pos && w.pos[sub[l]] == At(bit, l))
  }

  ghost predicate LimbApart(v: View, bit: nat, sub: seq<nat>) {
    forall l {:trigger sub[l]} :: 0 <= l < |sub| ==> At(bit, l) !in v.loc && sub[l] !in v.pos && LimbLevel(sub, sub[l]) == l
  }

  lemma LimbFresh(s: Store, v: View, bit: nat, sub: seq<nat>, s': Store)
    requires Tree(s, v) && Hung(s, v, bit, sub, s')
    ensures LimbApart(v, bit, sub)
  {
    hide StoreOk, Linked, Rooted, PageOk, ChildIndex, Conserved;
    forall l | 0 <= l < |sub| ensures At(bit, l) !in v.loc && sub[l] !in v.pos && LimbLevel(sub, sub[l]) == l {
      AbsentBelow(s, v, bit, |sub| - 1, l);
    }
  }

  lemma LimbMaps(v: View, bit: nat, sub: seq<nat>)
    requires |sub| > 0 && LimbApart(v, bit, sub)
    ensures LimbView(v, bit, sub, WithLimb(v, bit, sub))
  {
    hide Slot;
    var w := WithLimb(v, bit, sub);
    forall q ensures q in w.loc <==> q in v.loc || (q.level < |sub| && q == At(bit, q.level)) {
      if q.level < |sub| && q == At(bit, q.level) { assert sub[q.level] == sub[q.level]; }
    }
    forall l | 0 <= l < |sub| ensures sub[l] in w.pos && w.pos[sub[l]] == At(bit, l) && At(bit, l) in w.loc && w.loc[At(bit, l)] == sub[l] {
      assert sub[l] in sub;
    }
  }

  lemma LimbInverse(s: Store, v: View, bit: nat, sub: seq<nat>, s': Store, w: View)
    requires Tree(s, v) && Hung(s, v, bit, sub, s') && LimbView(v, bit, sub, w)
    ensures Inverse(w)
  {
    hide StoreOk, Linked, Rooted, Placed, Limb, ChildIndex, Conserved, Slot;
    forall q | q in w.loc ensures w.loc[q] in w.pos && w.pos[w.loc[q]] == q {
      if q !in v.loc { assert w.loc[q] == sub[q.level]; }
    }
  }

  lemma LimbPlaced(s: Store, v: View, bit: nat, sub: seq<nat>, s': Store, w: View, p: nat)
    requires Tree(s, v) && Hung(s, v, bit, sub, s') && LimbView(v, bit, sub, w) && p in w.pos
    ensures p in s'.pages && w.pos[p].level <= w.top && PageOk(s'.pages[p], w.pos[p].level, s'.txn)
  {
    hide StoreOk, Linked, Rooted, PageOk, ChildIndex, Conserved, Slot;
    if |sub| <= v.top { assert v.loc[At(bit, |sub|)] in v.pos; }
    if p !in v.pos {
      var l := LimbLevel(sub, p);
      assert w.pos[sub[l]] == At(bit, l);
    }
  }

  lemma LimbShape(s: Store, v: View, bit: nat, sub: seq<nat>, s': Store, w: View)
    requires Tree(s, v) && Hung(s, v, bit, sub, s') && LimbView(v, bit, sub, w)
    ensures Inverse(w) && Placed(s', w)
  {
    hide Tree, Hung, LimbView, PageOk;
    LimbInverse(s, v, bit, sub, s', w);
    forall p | p in w.pos ensures p in s'.pages && w.pos[p].level <= w.top && PageOk(s'.pages[p], w.pos[p].level, s'.txn) {
      LimbPlaced(s, v, bit, sub, s', w, p);
    }
  }

  lemma LimbRoot(s: Store, v: View, bit: nat, sub: seq<nat>, s': Store, w: View)
    requires Tree(s, v) && Hung(s, v, bit, sub, s') && LimbView(v, bit, sub, w)
    ensures w.root != 0 && Pos(w.top, 0) in w.loc && w.loc[Pos(w.top, 0)] == w.root
  {
    hide Linked, PageOk, ChildIndex, Conserved, Inverse, Placed;
    if |sub| > v.top {
      assert sub[|sub| - 1] in s'.pages;
      NoPageZero(s', sub[|sub| - 1]);
      assert sub[|sub| - 1] in w.pos && At(bit, v.top) == Pos(v.top, 0);
    } else {
      assert v.root != 0;
    }
  }

  lemma LimbParent(s: Store, v: View, bit: nat, sub: seq<nat>, s': Store, w: View, q: Pos)
    requires Tree(s, v) && Hung(s, v, bit, sub, s') && LimbView(v, bit, sub, w) && q in w.loc
    ensures q.level < w.top ==> Parent(q) in w.loc
    ensures q.level == w.top ==> q.k == 0
  {
    hide StoreOk, Linked, PageOk, ChildIndex, Conserved, Limb, Placed, Inverse;
    if q !in v.loc {
      assert q == At(bit, q.level) && Parent(q) == At(bit, q.level + 1);
      if q.level + 1 < |sub| { assert sub[q.level + 1] in w.pos; }
    }
  }

  lemma LimbRooted(s: Store, v: View, bit: nat, sub: seq<nat>, s': Store, w: View)
    requires Tree(s, v) && Hung(s, v, bit, sub, s') && LimbView(v, bit, sub, w)
    ensures Rooted(w)
  {
    hide Tree, Hung, LimbView;
    LimbRoot(s, v, bit, sub, s', w);
    forall q | q in w.loc ensures q.level < w.top ==> Parent(q) in w.loc ensures q.level == w.top ==> q.k == 0 {
      LimbParent(s, v, bit, sub, s', w, q);
    }
  }

  lemma NoPageZero(s: Store, p: nat)
    requires StoreOk(s) && p in s.pages
    ensures p >= 2
  {
  }

  lemma LimbLinked(s: Store, v: View, bit: nat, sub: seq<nat>, s': Store, w: View)
    requires Tree(s, v) && Hung(s, v, bit, sub, s') && LimbView(v, bit, sub, w) && Placed(s', w)
    ensures Linked(s', w)
  {
    forall p, i | p in w.pos && w.pos[p].level > 0 && 0 <= i < FANOUT
      ensures s'.pages[p].children[i] == PageAt(w, Child(w.pos[p], i))
    {
      if p in v.pos {
        LimbLinkOld(s, v, bit, sub, s', w, p, i);
      } else {
        LimbLinkNew(s, v, bit, sub, s', w, LimbLevel(sub, p), i);
      }
    }
  }

  lemma LimbLinkOld(s: Store, v: View, bit: nat, sub: seq<nat>, s': Store, w: View, p: nat, i: nat)
    requires Tree(s, v) && Hung(s, v, bit, sub, s') && LimbView(v, bit, sub, w) && Placed(s', w)
    requires p in v.pos && v.pos[p].level > 0 && i < FANOUT
    ensures s'.pages[p].children[i] == PageAt(w, Child(v.pos[p], i))
  {
    hide StoreOk, Rooted, LeafOk, Limb, Slot, Conserved;
    var r := Child(v.pos[p], i);
    assert s.pages[p].children[i] == PageAt(v, r);
    LimbEdge(s, v, bit, sub, s', w, p, i);
    if |sub| <= v.top { assert v.loc[At(bit, |sub|)] in v.pos; }
    assert sub[|sub| - 1] in w.pos;
  }

  /** The only new edge out of an old page is the one the limb hangs from. */
  lemma LimbEdge(s: Store, v: View, bit: nat, sub: seq<nat>, s': Store, w: View, p: nat, i: nat)
    requires Tree(s, v) && Hung(s, v, bit, sub, s') && LimbView(v, bit, sub, w)
    requires p in v.pos && v.pos[p].level > 0 && i < FANOUT
    ensures var r := Child(v.pos[p], i);
            (r in w.loc && r !in v.loc) <==> (|sub| <= v.top && p == v.loc[At(bit, |sub|)] && i == ChildIndex(bit, |sub|))
    ensures var r := Child(v.pos[p], i);
            r in w.loc && r !in v.loc ==> r == At(bit, |sub| - 1)
  {
    hide StoreOk, Rooted, Linked, PageOk, Limb, Conserved;
    var r := Child(v.pos[p], i);
    assert Parent(r) == v.pos[p];
    assert r in w.loc && r !in v.loc ==> Parent(r) == At(bit, r.level + 1);
    forall l | 0 <= l < |sub| ensures sub[l] in w.pos && At(bit, l) !in v.loc { assert sub[l] in sub; }
  }

  lemma LimbLinkNew(s: Store, v: View, bit: nat, sub: seq<nat>, s': Store, w: View, l: nat, i: nat)
    requires Tree(s, v) && Hung(s, v, bit, sub, s') && LimbView(v, bit, sub, w)
    requires 0 < l < |sub| && i < FANOUT
    ensures sub[l] in s'.pages && s'.pages[sub[l]].Branch? && i < |s'.pages[sub[l]].children|
    ensures s'.pages[sub[l]].children[i] == PageAt(w, Child(At(bit, l), i))
  {
    hide Hung, Tree, LimbView, Slot, Limb, Child, ChildIndex;
    var r := Child(At(bit, l), i);
    HungLimb(s, v, bit, sub, s');
    LimbChild(s', bit, sub, l, i);
    ChildOfIndex(bit, l, i);
    ParentOfChild(At(bit, l), i);
    LimbUnder(s, v, bit, sub, s', l, r);
    LimbAt(v, bit, sub, w, r);
  }

  lemma LimbChild(s: Store, bit: nat, sub: seq<nat>, l: nat, i: nat)
    requires Limb(s, bit, sub) && 0 < l < |sub| && i < FANOUT
    ensures sub[l] in s.pages && s.pages[sub[l]].Branch? && i < |s.pages[sub[l]].children|
    ensures s.pages[sub[l]].children[i] == if i == ChildIndex(bit, l) then sub[l - 1] else 0
  {
  }

  lemma HungLimb(s: Store, v: View, bit: nat, sub: seq<nat>, s': Store)
    requires Tree(s, v) && Hung(s, v, bit, sub, s')
    ensures Limb(s', bit, sub)
  {
    hide Tree, Limb;
  }

  lemma LimbAt(v: View, bit: nat, sub: seq<nat>, w: View, r: Pos)
    requires LimbView(v, bit, sub, w) && r !in v.loc
    ensures r in w.loc <==> r.level < |sub| && r == At(bit, r.level)
    ensures PageAt(w, r) == if r in w.loc then sub[r.level] else 0
  {
    hide Slot;
    if r.level < |sub| { assert sub[r.level] in w.pos; }
  }

  lemma ChildOfIndex(bit: nat, l: nat, i: nat)
    requires l > 0 && i < FANOUT
    ensures Child(At(bit, l), i) == At(bit, l - 1) <==> i == ChildIndex(bit, l)
  {
  }

  /** Nothing of the old tree lies under a position of the limb. */
  lemma LimbUnder(s: Store, v: View, bit: nat, sub: seq<nat>, s': Store, l: nat, r: Pos)
    requires Tree(s, v) && Hung(s, v, bit, sub, s') && l < |sub| && Parent(r) == At(bit, l)
    ensures r !in v.loc
  {
    hide StoreOk, PageOk, Linked, Limb, ChildIndex, Conserved;
    AbsentBelow(s, v, bit, |sub| - 1, l);
  }

  lemma LimbBooks(s: Store, retired: seq<nat>, v: View, bit: nat, sub: seq<nat>, s': Store, w: View)
    requires Cow(s, retired, v) && Hung(s, v, bit, sub, s') && LimbView(v, bit, sub, w)
    ensures Books(s', retired, w)
  {
    hide StoreOk, Linked, Rooted, LeafOk, BranchOk, ChildIndex, Accounted, Conserved;
    if |sub| <= v.top { assert v.loc[At(bit, |sub|)] in v.pos; }
    LimbAccounted(s, v, bit, sub, s', w);
  }

  lemma LimbAccounted(s: Store, v: View, bit: nat, sub: seq<nat>, s': Store, w: View)
    requires Tree(s, v) && Accounted(s, v) && Hung(s, v, bit, sub, s') && LimbView(v, bit, sub, w)
    ensures Accounted(s', w)
  {
    hide StoreOk, Linked, Rooted, PageOk, ChildIndex, Conserved, Missing, Limb;
    forall x: nat ensures Missing(s', x) <==> x in w.absent { SameMissing(s, s', x); }
  }

  lemma LimbCow(s: Store, retired: seq<nat>, v: View, bit: nat, sub: seq<nat>, s': Store)
    requires Cow(s, retired, v) && Hung(s, v, bit, sub, s')
    ensures Cow(s', retired, WithLimb(v, bit, sub)) && LimbView(v, bit, sub, WithLimb(v, bit, sub))
  {
    hide Inverse, Placed, Rooted, Linked, Books, WithLimb, Limb, LimbView, LimbApart, Conserved;
    var w := WithLimb(v, bit, sub);
    LimbFresh(s, v, bit, sub, s');
    LimbMaps(v, bit, sub);
    LimbShape(s, v, bit, sub, s', w);
    LimbRooted(s, v, bit, sub, s', w);
    LimbLinked(s, v, bit, sub, s', w);
    LimbBooks(s, retired, v, bit, sub, s', w);
  }

  // ----- raising the root

  /** A fresh branch page on top of the root, holding it as child 0. */
  ghost predicate RaisedBy(s: Store, v: View, s': Store, p: nat)
    requires Tree(s, v)
  {
    && v.root != 0 && StoreOk(s') && s'.txn == s.txn && p !in s.pages && p >= 2
    && p in s'.pages && PageOk(s'.pages[p], v.top + 1, s.txn) && s'.pages[p].born == s.txn
    && s'.pages == s.pages[p := s'.pages[p]] && Conserved(s, s')
    && s'.pages[p].children[0] == v.root && (forall i :: 0 < i < FANOUT ==> s'.pages[p].children[i] == 0)
  }

  ghost function Raised(v: View, p: nat): View {
    var q := Pos(v.top + 1, 0);
    v.(root := p, top := v.top + 1, loc := v.loc[q := p], pos := v.pos[p := q])
  }

  lemma RaisedInverse(s: Store, v: View, s': Store, p: nat)
    requires Tree(s, v) && RaisedBy(s, v, s', p)
    ensures Inverse(Raised(v, p))
  {
    hide StoreOk, Linked, PageOk, Rooted, Conserved;
    assert p !in v.pos;
    assert Pos(v.top + 1, 0) !in v.loc;
  }

  lemma RaisedRooted(s: Store, v: View, s': Store, p: nat)
    requires Tree(s, v) && RaisedBy(s, v, s', p)
    ensures Rooted(Raised(v, p))
  {
    hide StoreOk, Linked, PageOk, Conserved;
    var w := Raised(v, p);
    forall q | q in w.loc && q.level < w.top ensures Parent(q) in w.loc {
      assert q in v.loc;
      if q.level == v.top { assert Parent(q) == Pos(v.top + 1, 0); } else { assert Parent(q) in v.loc; }
    }
    assert forall q :: q in v.loc ==> q.level <= v.top;
  }

  lemma RaisedPlaced(s: Store, v: View, s': Store, p: nat)
    requires Tree(s, v) && RaisedBy(s, v, s', p)
    ensures Placed(s', Raised(v, p))
  {
    hide StoreOk, Linked, Rooted, Inverse, LeafOk, BranchOk, Conserved;
  }

  lemma RaisedLinked(s: Store, v: View, s': Store, p: nat)
    requires Tree(s, v) && RaisedBy(s, v, s', p) && Inverse(Raised(v, p)) && Placed(s', Raised(v, p))
    ensures Linked(s', Raised(v, p))
  {
    hide StoreOk, LeafOk, Conserved;
    var w := Raised(v, p);
    forall x, i | x in w.pos && w.pos[x].level > 0 && 0 <= i < FANOUT
      ensures s'.pages[x].children[i] == PageAt(w, Child(w.pos[x], i))
    {
      var r := Child(w.pos[x], i);
      if x == p {
        assert r == Pos(v.top, i);
      } else {
        assert s.pages[x].children[i] == PageAt(v, r);
        assert r.level < v.top;
      }
    }
  }

  lemma RaisedCow(s: Store, retired: seq<nat>, v: View, s': Store, p: nat)
    requires Cow(s, retired, v) && RaisedBy(s, v, s', p)
    ensures Cow(s', retired, Raised(v, p))
  {
    hide StoreOk, Linked, PageOk, Conserved, Missing;
    forall x: nat ensures Missing(s', x) <==> x in v.absent { SameMissing(s, s', x); }
    RaisedInverse(s, v, s', p);
    RaisedRooted(s, v, s', p);
    RaisedPlaced(s, v, s', p);
    RaisedLinked(s, v, s', p);
  }

  // ----- dropping emptied pages

  /** A tree in which the link to one position is left open. */
  ghost predicate TreeBut(s: Store, v: View, r: Pos) {
    && StoreOk(s) && Inverse(v) && Placed(s, v) && Rooted(v)
    && forall p, i {:trigger s.pages[p].children[i]} :: p in v.pos && v.pos[p].level > 0 && 0 <= i < FANOUT && Child(v.pos[p], i) != r ==>
         s.pages[p].children[i] == PageAt(v, Child(v.pos[p], i))
  }

  ghost predicate CowBut(s: Store, retired: seq<nat>, v: View, r: Pos) {
    TreeBut(s, v, r) && Books(s, retired, v)
  }

  ghost function Without(v: View, q: Pos): View
    requires q in v.loc
  {
    v.(root := if q.level == v.top then 0 else v.root, loc := v.loc - {q}, pos := v.pos - {v.loc[q]})
  }

  ghost predicate Childless(v: View, q: Pos) {
    q.level > 0 ==> forall i {:trigger Child(q, i)} :: 0 <= i < FANOUT ==> Child(q, i) !in v.loc
  }

  lemma {:induction false} ClimbsToTop(v: View, x: Pos) returns (y: Pos)
    requires Rooted(v) && x in v.loc && x.level < v.top
    ensures y in v.loc && y.level == v.top - 1
    decreases v.top - x.level
  {
    if x.level == v.top - 1 { return x; }
    assert Parent(x) in v.loc;
    y := ClimbsToTop(v, Parent(x));
  }

  lemma OnlyRoot(v: View, q: Pos)
    requires Rooted(v) && q in v.loc && q.level == v.top && Childless(v, q)
    requires forall x {:trigger x in v.loc} :: x in v.loc ==> x.level <= v.top
    ensures v.loc - {q} == map[]
  {
    forall x | x in v.loc ensures x == q {
      if x.level < v.top {
        var y := ClimbsToTop(v, x);
        assert Parent(y) in v.loc && Parent(y) == q;
        ChildOfParent(y);
      }
    }
  }

  lemma ChildOfParent(y: Pos)
    ensures Child(Parent(y), y.k % FANOUT) == y && Parent(y).level == y.level + 1
  {
  }

  lemma DropInverse(s: Store, v: View, r: Pos, q: Pos)
    requires TreeBut(s, v, r) && q in v.loc
    ensures Inverse(Without(v, q))
  {
    hide StoreOk, PageOk, Rooted;
  }

  lemma DropRooted(s: Store, v: View, r: Pos, q: Pos)
    requires TreeBut(s, v, r) && q in v.loc && Childless(v, q)
    ensures Rooted(Without(v, q))
  {
    hide StoreOk, PageOk;
    var w := Without(v, q);
    assert forall x {:trigger x in v.loc} :: x in v.loc ==> x.level <= v.top;
    if q.level == v.top {
      OnlyRoot(v, q);
    } else {
      forall x | x in w.loc && x.level < w.top ensures Parent(x) in w.loc {
        assert x in v.loc && Parent(x) in v.loc;
        ChildOfParent(x);
      }
    }
  }

  lemma DropTree(s: Store, v: View, r: Pos, q: Pos)
    requires TreeBut(s, v, r) && q in v.loc && Childless(v, q) && Private(s, v.loc[q]) && (r == q || Parent(r) == q)
    ensures TreeBut(Discard(s, v.loc[q]), Without(v, q), q)
  {
    hide LeafOk, Rooted;
    DropInverse(s, v, r, q);
    DropRooted(s, v, r, q);
    var w := Without(v, q);
    var s' := Discard(s, v.loc[q]);
    forall p, i | p in w.pos && w.pos[p].level > 0 && 0 <= i < FANOUT && Child(w.pos[p], i) != q
      ensures s'.pages[p].children[i] == PageAt(w, Child(w.pos[p], i))
    {
      assert Parent(Child(w.pos[p], i)) == w.pos[p];
      assert s.pages[p].children[i] == PageAt(v, Child(v.pos[p], i));
    }
  }

  lemma DropCow(s: Store, retired: seq<nat>, v: View, r: Pos, q: Pos)
    requires CowBut(s, retired, v, r) && q in v.loc && Childless(v, q) && Private(s, v.loc[q]) && (r == q || Parent(r) == q)
    ensures CowBut(Discard(s, v.loc[q]), retired, Without(v, q), q)
  {
    hide PageOk, Rooted, Conserved, Missing;
    DropTree(s, v, r, q);
    assert v.loc[q] in v.pos;
    DiscardConserves(s, v.loc[q]);
    forall x: nat ensures Missing(Discard(s, v.loc[q]), x) <==> x in v.absent { SameMissing(s, Discard(s, v.loc[q]), x); }
  }

  /** The parent's page with the open link closed. */
  ghost predicate Unlinks(s: Store, v: View, r: Pos, page: Page)
    requires TreeBut(s, v, r)
  {
    && r !in v.loc && Parent(r) in v.loc
    && var p := v.loc[Parent(r)];
    && Private(s, p) && page.born == s.txn && PageOk(page, r.level + 1, s.txn)
    && s.pages[p].Branch? && |s.pages[p].children| == FANOUT
    && page.children == s.pages[p].children[r.k % FANOUT := 0]
  }

  lemma UnlinkedChild(s: Store, v: View, r: Pos, page: Page, x: nat, i: nat)
    requires TreeBut(s, v, r) && Unlinks(s, v, r, page) && x in v.pos && v.pos[x].level > 0 && i < FANOUT
    ensures
      var s' := Update(s, v.loc[Parent(r)], page);
      x in s'.pages && s'.pages[x].Branch? && i < |s'.pages[x].children| && s'.pages[x].children[i] == PageAt(v, Child(v.pos[x], i))
  {
    hide StoreOk, Rooted, Parent, Child;
    var p := v.loc[Parent(r)];
    assert p in v.pos && v.pos[p] == Parent(r);
    ParentOfChild(v.pos[x], i);
    ChildOfParent(r);
    assert s.pages[x].Branch? && i < |s.pages[x].children|;
    if Child(v.pos[x], i) != r { assert s.pages[x].children[i] == PageAt(v, Child(v.pos[x], i)); }
  }

  lemma UnlinkTree(s: Store, v: View, r: Pos, page: Page)
    requires TreeBut(s, v, r) && Unlinks(s, v, r, page)
    ensures Tree(Update(s, v.loc[Parent(r)], page), v)
  {
    hide LeafOk, BranchOk, Rooted;
    var s' := Update(s, v.loc[Parent(r)], page);
    assert v.loc[Parent(r)] in v.pos;
    forall x, i | x in v.pos && v.pos[x].level > 0 && 0 <= i < FANOUT
      ensures x in s'.pages && s'.pages[x].Branch? && i < |s'.pages[x].children| && s'.pages[x].children[i] == PageAt(v, Child(v.pos[x], i))
    {
      UnlinkedChild(s, v, r, page, x, i);
    }
  }

  /** Closing the open link: the parent forgets the dropped child. */
  lemma UnlinkCow(s: Store, retired: seq<nat>, v: View, r: Pos, page: Page)
    requires CowBut(s, retired, v, r) && Unlinks(s, v, r, page)
    ensures Cow(Update(s, v.loc[Parent(r)], page), retired, v)
  {
    hide PageOk, Rooted, Linked, Accounted;
    UnlinkTree(s, v, r, page);
    assert v.loc[Parent(r)] in v.pos;
    UpdateAccounted(s, v, v.loc[Parent(r)], page);
  }

  // ----- lowering the root

  /** The tree below a root whose only child is child 0. */
  ghost function Lowered(v: View): View
    requires v.top > 0
  {
    var q := Pos(v.top, 0);
    v.(root := PageAt(v, Pos(v.top - 1, 0)), top := v.top - 1, loc := v.loc - {q}, pos := v.pos - {v.root})
  }

  ghost predicate SingleChild(v: View) {
    && v.root != 0 && v.top > 0 && Pos(v.top - 1, 0) in v.loc
    && forall q {:trigger q in v.loc} :: q in v.loc && q.level == v.top - 1 ==> q.k == 0
  }

  lemma LoweredInverse(s: Store, v: View)
    requires Tree(s, v) && SingleChild(v)
    ensures Inverse(Lowered(v))
  {
    hide StoreOk, Linked, PageOk;
  }

  lemma LoweredRooted(s: Store, v: View)
    requires Tree(s, v) && SingleChild(v)
    ensures Rooted(Lowered(v)) && Lowered(v).root != 0
  {
    hide Linked, Placed, Inverse, StoreOk;
    var w, r := Lowered(v), Pos(v.top - 1, 0);
    ChildIsPage(s, v, r);
    NoPageZero(s, v.loc[r]);
    forall q | q in v.loc ensures q.level <= v.top { PosLevel(s, v, q); }
    forall q | q in w.loc && q.level < w.top ensures Parent(q) in w.loc {
      assert q in v.loc && Parent(q) in v.loc;
    }
  }

  lemma LoweredPos(s: Store, v: View, p: nat)
    requires Tree(s, v) && SingleChild(v) && p in Lowered(v).pos
    ensures p in v.pos && p in s.pages && PageOk(s.pages[p], v.pos[p].level, s.txn) && v.pos[p].level < v.top && p != v.root
  {
    hide StoreOk, Linked, PageOk;
  }

  lemma LoweredTree(s: Store, v: View)
    requires Tree(s, v) && SingleChild(v) && Private(s, v.root)
    ensures Tree(Discard(s, v.root), Lowered(v)) && Lowered(v).root != 0
  {
    hide LeafOk, Rooted, Inverse;
    LoweredInverse(s, v);
    LoweredRooted(s, v);
    var w := Lowered(v);
    forall p | p in w.pos
      ensures p in v.pos && p in s.pages && PageOk(s.pages[p], v.pos[p].level, s.txn) && v.pos[p].level < v.top && p != v.root
    {
      LoweredPos(s, v, p);
    }
    forall p, i | p in w.pos && w.pos[p].level > 0 && 0 <= i < FANOUT
      ensures s.pages[p].children[i] == PageAt(w, Child(w.pos[p], i))
    {
      assert s.pages[p].children[i] == PageAt(v, Child(v.pos[p], i));
    }
  }

  lemma LoweredCow(s: Store, retired: seq<nat>, v: View)
    requires Cow(s, retired, v) && SingleChild(v) && Private(s, v.root)
    ensures Cow(Discard(s, v.root), retired, Lowered(v)) && Lowered(v).root != 0
  {
    hide PageOk, Linked, StoreOk, Conserved, Missing;
    LoweredTree(s, v);
    RootAt(s, v);
    assert v.root in v.pos;
    DiscardConserves(s, v.root);
    forall x: nat ensures Missing(Discard(s, v.root), x) <==> x in v.absent { SameMissing(s, Discard(s, v.root), x); }
  }

  // ----- the view adds no freedom

  lemma {:induction false} LocationAgrees(s: Store, v: View, w: View, q: Pos)
    requires Tree(s, v) && Tree(s, w) && v.root == w.root && v.top == w.top && q in v.loc
    ensures q in w.loc && w.loc[q] == v.loc[q]
    decreases v.top - q.level
  {
    hide StoreOk, Inverse, Placed, Linked;
    ChildIsPage(s, v, q);
    PosLevel(s, v, q);
    if q.level < v.top {
      ParentLink(s, v, q);
      LocationAgrees(s, v, w, Parent(q));
      BranchLink(s, w, Parent(q), q.k % FANOUT);
    }
  }

  lemma PosLevel(s: Store, v: View, q: Pos)
    requires Tree(s, v) && q in v.loc
    ensures q.level <= v.top
  {
    assert v.loc[q] in v.pos;
  }

  /** The pages and the root determine which page sits where. */
  lemma LocationUnique(s: Store, v: View, w: View)
    requires Tree(s, v) && Tree(s, w) && v.root == w.root && v.top == w.top
    ensures v.loc == w.loc && v.pos == w.pos
  {
    hide StoreOk, Placed, Linked, Rooted;
    forall q ensures q in v.loc <==> q in w.loc
             ensures q in v.loc && q in w.loc ==> v.loc[q] == w.loc[q] {
      if q in v.loc { LocationAgrees(s, v, w, q); }
      if q in w.loc { LocationAgrees(s, w, v, q); }
    }
    assert v.loc == w.loc;
    forall p ensures p in v.pos <==> p in w.pos {
    }
    assert v.pos == w.pos;
  }
}
