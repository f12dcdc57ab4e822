/**
 What the leaves of a bitmap tree say, and how single-bit edits of private pages change
 it; shared by the used and the free bitmaps.
 */
module BitmapBits {
  import opened BitmapLayout
  import opened BitmapStore

  ghost predicate LeafHas(words: seq<set<nat>>, b: nat)
    requires |words| == LEAF_WORDS
  {
    b % 64 in words[(b % LEAF_BITS) / 64]
  }

  ghost predicate Has(s: Store, v: View, b: nat)
    requires Inverse(v) && Placed(s, v)
  {
    At(b, 0) in v.loc && LeafHas(s.pages[v.loc[At(b, 0)]].words, b)
  }

  /** The bits set in the leaves are exactly the used IDs. */
  ghost predicate Denotes(s: Store, v: View, used: set<nat>)
    requires Inverse(v) && Placed(s, v)
  {
    forall b: nat {:trigger b in used} {:trigger Has(s, v, b)} :: b in used <==> Has(s, v, b)
  }

  /** The layout of the leaves in numbers: where the bit of an ID is. */
  lemma BitLayout(s: Store, v: View, used: set<nat>, b: nat)
    requires Tree(s, v) && Denotes(s, v, used)
    ensures b in used <==>
      && Pos(0, b / 32000) in v.loc && v.loc[Pos(0, b / 32000)] in s.pages
      && var p := s.pages[v.loc[Pos(0, b / 32000)]];
      p.Leaf? && |p.words| == 500 && b % 64 in p.words[b % 32000 / 64]
  {
    hide StoreOk, Rooted, Linked;
    if At(b, 0) in v.loc { assert v.loc[At(b, 0)] in v.pos; }
    assert b in used <==> Has(s, v, b);
  }

  /** The layout of the branches in numbers: which page is which child, and that counts are exact. */
  lemma LinkLayout(s: Store, v: View, level: nat, k: nat)
    requires Tree(s, v) && Pos(level, k) in v.loc
    ensures level <= v.top && Pos(v.top, 0) in v.loc && v.loc[Pos(v.top, 0)] == v.root && v.loc[Pos(level, k)] in s.pages
    ensures
      var p := s.pages[v.loc[Pos(level, k)]];
      if level == 0 then p.Leaf? && |p.words| == 500 && p.count == |set i | 0 <= i < 500 && p.words[i] != {}| > 0
      else
        && p.Branch? && p.height == level && |p.children| == |p.summary| == 256
        && p.count == |set i | 0 <= i < 256 && p.children[i] != 0| > 0
        && forall i {:trigger p.children[i]} :: 0 <= i < 256 ==>
             p.children[i] == if Pos(level - 1, 256 * k + i) in v.loc then v.loc[Pos(level - 1, 256 * k + i)] else 0
  {
    hide StoreOk;
    var q := Pos(level, k);
    assert v.loc[q] in v.pos && v.pos[v.loc[q]] == q;
    var p := s.pages[v.loc[q]];
    if level == 0 {
      assert NonzeroWords(p.words) == set i | 0 <= i < 500 && p.words[i] != {};
    } else {
      assert NonzeroChildren(p.children) == set i | 0 <= i < 256 && p.children[i] != 0;
      forall i | 0 <= i < 256
        ensures p.children[i] == if Pos(level - 1, 256 * k + i) in v.loc then v.loc[Pos(level - 1, 256 * k + i)] else 0
      {
        assert Child(q, i) == Pos(level - 1, 256 * k + i);
      }
    }
  }

  /** The summary bit the parent page keeps for a position. */
  ghost predicate Advertised(s: Store, v: View, q: Pos)
    requires Inverse(v) && Placed(s, v) && Parent(q) in v.loc
  {
    s.pages[v.loc[Parent(q)]].summary[q.k % FANOUT]
  }

  lemma LeafAt(s: Store, v: View, q: Pos, b: nat)
    requires Tree(s, v) && q in v.loc && q.level == 0 && Slot(b, 0) == q.k
    ensures v.loc[q] in s.pages && LeafOk(s.pages[v.loc[q]])
    ensures Has(s, v, b) <==> LeafHas(s.pages[v.loc[q]].words, b)
  {
    assert v.loc[q] in v.pos;
    assert At(b, 0) == q;
  }

  lemma BitMeaning(s: Store, v: View, used: set<nat>, b: nat)
    requires Tree(s, v) && Denotes(s, v, used)
    ensures b in used <==> Has(s, v, b)
  {
  }

  /** An absent position holds no used ID. */
  lemma AbsentIsUnused(s: Store, v: View, used: set<nat>, q: Pos, b: nat)
    requires Inverse(v) && Placed(s, v) && Rooted(v) && Denotes(s, v, used) && q !in v.loc && q.level <= v.top && Slot(b, q.level) == q.k
    ensures b !in used
  {
    if b in used {
      assert Has(s, v, b);
      PresentUpwards(v, b, q.level);
    }
  }

  lemma {:induction false} PresentUpwards(v: View, b: nat, level: nat)
    requires Rooted(v) && At(b, 0) in v.loc && level <= v.top
    ensures At(b, level) in v.loc
  {
    if level > 0 {
      PresentUpwards(v, b, level - 1);
      assert Parent(At(b, level - 1)) == At(b, level);
    }
  }

  lemma EmptyTree(s: Store, v: View, used: set<nat>)
    requires Tree(s, v) && Denotes(s, v, used) && v.root == 0
    ensures used == {}
  {
    assert forall b: nat :: !Has(s, v, b);
  }

  lemma BranchAt(s: Store, v: View, q: Pos, i: nat)
    requires Tree(s, v) && q in v.loc && q.level > 0 && i < FANOUT
    ensures v.loc[q] in s.pages && BranchOk(s.pages[v.loc[q]], q.level) && Parent(Child(q, i)) == q && Child(q, i).k % FANOUT == i
    ensures s.pages[v.loc[q]].summary[i] == Advertised(s, v, Child(q, i)) && q.level <= v.top
    ensures s.pages[v.loc[q]].children[i] == PageAt(v, Child(q, i))
    ensures s.pages[v.loc[q]].children[i] != 0 <==> Child(q, i) in v.loc
  {
    BranchLink(s, v, q, i);
  }

  /** The lowest one bit of a nonzero word (bits.TrailingZeros64). */
  method TrailingZeros(w: set<nat>) returns (k: nat)
    requires w != {}
    ensures k in w && forall b :: b in w ==> k <= b
  {
    k := 0;
    while k !in w
      invariant forall b :: b in w ==> k <= b
      decreases (if exists b :: b in w then var b :| b in w; b else 0) - k
    {
      k := k + 1;
    }
  }

  lemma WordPosition(base: nat, index: nat, k: nat)
    requires base % LEAF_BITS == 0 && index < LEAF_WORDS && k < 64
    ensures var b := base + index * 64 + k;
            b % 64 == k && (b % LEAF_BITS) / 64 == index
  {
    var m := base / LEAF_BITS;
    ModUnique(64, LEAF_WORDS * m + index, k);
    ModUnique(LEAF_BITS, m, index * 64 + k);
  }

  lemma ModUnique(n: nat, m: nat, r: nat)
    requires r < n
    ensures (n * m + r) % n == r
  {
    var x := n * m + r;
    var e := m - x / n;
    assert e * n == x % n - r by { assert x == n * (x / n) + x % n; }
    if e >= 1 { MulLe(1, e, n); }
    if e <= -1 { MulLe(e, -1, n); }
  }

  /** The first set summary bit at or after start. */
  method FirstSummary(summary: seq<bool>, start: nat) returns (found: bool, index: nat)
    requires start <= |summary| == FANOUT
    ensures found ==> start <= index < FANOUT && summary[index]
    ensures forall i :: start <= i < FANOUT && (found ==> i < index) ==> !summary[i]
  {
    index := start;
    while index < FANOUT
      invariant start <= index <= FANOUT
      invariant forall i :: start <= i < index ==> !summary[i]
    {
      if summary[index] {
        return true, index;
      }
      index := index + 1;
    }
    return false, 0;
  }

  lemma {:induction false} BaseAligned(q: Pos)
    ensures Base(q) % LEAF_BITS == 0
    decreases q.level
  {
    if q.level > 0 {
      BaseAligned(Child(q, 0));
      ChildBase(q, 0);
    }
  }

  /** Every page of the tree holds some used ID. */
  lemma {:induction false} Nonempty(s: Store, v: View, used: set<nat>, q: Pos) returns (b: nat)
    requires Tree(s, v) && Denotes(s, v, used) && q in v.loc
    ensures b in used && Slot(b, q.level) == q.k
    decreases q.level
  {
    hide StoreOk, Inverse, Placed, Rooted, Linked, Denotes;
    if q.level == 0 {
      LeafAt(s, v, q, Base(q));
      var words := s.pages[v.loc[q]].words;
      var i :| i in NonzeroWords(words);
      var k :| k in words[i];
      b := Base(q) + 64 * i + k;
      WordPosition(Base(q), i, k);
      LeafAt(s, v, q, b);
      BitMeaning(s, v, used, b);
    } else {
      BranchAt(s, v, q, 0);
      var i :| i in NonzeroChildren(s.pages[v.loc[q]].children);
      BranchAt(s, v, q, i);
      b := Nonempty(s, v, used, Child(q, i));
    }
  }

  /** Moving pages around without changing data changes neither the meaning nor the summaries. */
  lemma DataDenotes(s: Store, v: View, s': Store, v': View, used: set<nat>)
    requires Tree(s, v) && Tree(s', v') && SameData(s, v, s', v') && Denotes(s, v, used)
    ensures Denotes(s', v', used)
  {
    hide StoreOk, Rooted, Linked;
    forall b: nat ensures Has(s', v', b) <==> Has(s, v, b) {
      assert At(b, 0) in v.loc <==> At(b, 0) in v'.loc;
    }
  }

  lemma SameFixed(s: Store, v: View, s': Store, v': View)
    requires Tree(s, v) && Tree(s', v') && SameData(s, v, s', v')
    ensures SameOrigin(v, v')
  {
  }

  lemma PosOf(s: Store, v: View, q: Pos)
    requires Tree(s, v) && q in v.loc
    ensures v.loc[q] in v.pos && v.pos[v.loc[q]] == q
  {
  }

  ghost function WithWord(s: Store, v: View, bit: nat, word: set<nat>): Page
    requires Tree(s, v) && At(bit, 0) in v.loc
  {
    LeafAt(s, v, At(bit, 0), bit);
    var page := s.pages[v.loc[At(bit, 0)]];
    SetWordCount(page, (bit % LEAF_BITS) / 64, word);
    SetWord(page, (bit % LEAF_BITS) / 64, word)
  }

  lemma WithWordRewritable(s: Store, v: View, bit: nat, word: set<nat>)
    requires Tree(s, v) && At(bit, 0) in v.loc && Private(s, v.loc[At(bit, 0)])
    requires forall k :: k in word ==> k < 64
    requires WithWord(s, v, bit, word).count > 0
    ensures Rewritable(s, v, v.loc[At(bit, 0)], WithWord(s, v, bit, word))
  {
    hide StoreOk, Linked, Rooted;
    LeafAt(s, v, At(bit, 0), bit);
    SetWordCount(s.pages[v.loc[At(bit, 0)]], (bit % LEAF_BITS) / 64, word);
  }

  /** Two bits share a leaf and a word position only if they are the same bit. */
  lemma SameBit(b: nat, bit: nat)
    requires Slot(b, 0) == Slot(bit, 0) && (b % LEAF_BITS) / 64 == (bit % LEAF_BITS) / 64 && b % 64 == bit % 64
    ensures b == bit
  {
    Remainders(b);
    Remainders(bit);
  }

  lemma Remainders(b: nat)
    ensures b == LEAF_BITS * (b / LEAF_BITS) + 64 * ((b % LEAF_BITS) / 64) + b % 64
  {
    var r := b % LEAF_BITS;
    WordPosition(LEAF_BITS * (b / LEAF_BITS), r / 64, r % 64);
  }

  /** The rewritten word changes the meaning at `bit` only, and no summary. */
  lemma WithWordMeaning(s: Store, v: View, used: set<nat>, bit: nat, word: set<nat>, used': set<nat>)
    requires Tree(s, v) && Denotes(s, v, used) && At(bit, 0) in v.loc
    requires Rewritable(s, v, v.loc[At(bit, 0)], WithWord(s, v, bit, word))
    requires forall b :: b != bit ==> (b in used' <==> b in used)
    requires bit in used' <==> bit % 64 in word
    requires forall k :: k != bit % 64 ==> (k in word <==> k in s.pages[v.loc[At(bit, 0)]].words[(bit % LEAF_BITS) / 64])
    ensures var s' := Update(s, v.loc[At(bit, 0)], WithWord(s, v, bit, word));
            Tree(s', v) && Denotes(s', v, used')
  {
    hide StoreOk, Linked, Rooted, BranchOk;
    var p := v.loc[At(bit, 0)];
    var page := WithWord(s, v, bit, word);
    var s' := Update(s, p, page);
    RewriteTree(s, v, p, page);
    LeafAt(s, v, At(bit, 0), bit);
    forall b: nat ensures b in used' <==> Has(s', v, b) {
      BitMeaning(s, v, used, b);
      if At(b, 0) in v.loc {
        LeafAt(s, v, At(b, 0), b);
        if At(b, 0) == At(bit, 0) {
          if (b % LEAF_BITS) / 64 == (bit % LEAF_BITS) / 64 && b % 64 == bit % 64 { SameBit(b, bit); }
        } else {
          assert v.loc[At(b, 0)] != p;
        }
      }
    }
  }

  function NoWords(): (words: seq<set<nat>>)
    ensures |words| == LEAF_WORDS && forall i :: 0 <= i < LEAF_WORDS ==> words[i] == {}
  {
    seq(LEAF_WORDS, (i: int) => {})
  }

  function NoChildren(): (children: seq<nat>)
    ensures |children| == FANOUT && forall i :: 0 <= i < FANOUT ==> children[i] == 0
  {
    seq(FANOUT, (i: int) => 0)
  }

  function SingleLeaf(txn: nat, bit: nat): Page {
    Leaf(txn, 1, NoWords()[(bit % LEAF_BITS) / 64 := {bit % 64}])
  }

  lemma SingleLeafOk(txn: nat, bit: nat)
    requires txn > 0
    ensures PageOk(SingleLeaf(txn, bit), 0, txn)
    ensures forall b: nat {:trigger LeafHas(SingleLeaf(txn, bit).words, b)} :: Slot(b, 0) == Slot(bit, 0) ==>
              (LeafHas(SingleLeaf(txn, bit).words, b) <==> b == bit)
  {
    var words := SingleLeaf(txn, bit).words;
    var index := (bit % LEAF_BITS) / 64;
    assert NonzeroWords(words) == {index};
    forall b: nat | Slot(b, 0) == Slot(bit, 0) ensures LeafHas(words, b) <==> b == bit {
      if (b % LEAF_BITS) / 64 == index && b % 64 == bit % 64 { SameBit(b, bit); }
    }
  }

  lemma LeafBorn(txn: nat, bit: nat)
    ensures SingleLeaf(txn, bit).born == txn
  {
  }

  function SingleBranch(txn: nat, level: nat, index: nat, child: nat, summary: seq<bool>, candidate: bool): Page
    requires index < FANOUT == |summary|
  {
    Branch(txn, 1, level, NoChildren()[index := child], summary[index := candidate])
  }

  lemma SingleBranchOk(txn: nat, level: nat, index: nat, child: nat, summary: seq<bool>, candidate: bool)
    requires txn > 0 && level > 0 && child != 0 && index < FANOUT == |summary|
    ensures PageOk(SingleBranch(txn, level, index, child, summary, candidate), level, txn)
  {
    assert NonzeroChildren(NoChildren()[index := child]) == {index};
  }

  lemma TopBranchOk(txn: nat, level: nat, index: nat, child: nat, summary: seq<bool>)
    requires txn > 0 && level > 0 && child != 0 && index < FANOUT == |summary|
    ensures PageOk(Branch(txn, 1, level, NoChildren()[index := child], summary), level, txn)
  {
    SingleBranchOk(txn, level, index, child, summary, summary[index]);
    assert summary[index := summary[index]] == summary;
  }

  /** Clearing the last bit of a leaf leaves nothing of it. */
  lemma LastBit(s: Store, v: View, used: set<nat>, bit: nat)
    requires Tree(s, v) && Denotes(s, v, used) && At(bit, 0) in v.loc && bit in used
    requires var page := s.pages[v.loc[At(bit, 0)]];
             LeafOk(page) && page.count == 1 && page.words[(bit % LEAF_BITS) / 64] == {bit % 64}
    ensures forall b: nat {:trigger At(b, 0)} :: b in used && At(b, 0) == At(bit, 0) ==> b == bit
  {
    var page := s.pages[v.loc[At(bit, 0)]];
    var index := (bit % LEAF_BITS) / 64;
    forall b: nat | b in used && At(b, 0) == At(bit, 0) ensures b == bit {
      hide StoreOk, Linked, Rooted, BranchOk;
      BitMeaning(s, v, used, b);
      LeafAt(s, v, At(bit, 0), b);
      var i := (b % LEAF_BITS) / 64;
      assert i in NonzeroWords(page.words) && index in NonzeroWords(page.words);
      assert i == index by {
        if i != index {
          CardTwo(NonzeroWords(page.words), i, index);
        }
      }
      SameBit(b, bit);
    }
  }

  lemma CardTwo(a: set<nat>, i: nat, j: nat)
    requires i in a && j in a && i != j
    ensures |a| >= 2
  {
    assert |a - {i}| == |a| - 1;
    assert j in a - {i};
  }

  /** Pages of the old tree keep their contents, except the one the limb hangs from. */
  /** The page a limb hangs from keeps its summaries, except that it advertises the limb as `shown`. */
  ghost predicate HangsShown(s: Store, v: View, bit: nat, sub: seq<nat>, s': Store, shown: bool) {
    |sub| <= v.top ==>
      && At(bit, |sub|) in v.loc && v.loc[At(bit, |sub|)] in s.pages && v.loc[At(bit, |sub|)] in s'.pages
      && var p, p' := s.pages[v.loc[At(bit, |sub|)]], s'.pages[v.loc[At(bit, |sub|)]];
      && p.Branch? && p'.Branch? && |sub| > 0 && |p.summary| == FANOUT
      && p'.summary == p.summary[ChildIndex(bit, |sub|) := shown]
  }

  lemma LimbOldPage(s: Store, v: View, bit: nat, sub: seq<nat>, s': Store, w: View, r: Pos)
    requires Tree(s, v) && Hung(s, v, bit, sub, s') && LimbView(v, bit, sub, w) && r in v.loc
    ensures r in w.loc && w.loc[r] == v.loc[r] && v.loc[r] in s.pages && v.loc[r] in s'.pages
    ensures |sub| > v.top || r != At(bit, |sub|) ==> s'.pages[v.loc[r]] == s.pages[v.loc[r]]
    ensures r.level <= v.top && (r == At(bit, r.level) ==> r.level >= |sub|)
  {
    hide StoreOk, Rooted, Linked, PageOk, Limb, ChildIndex, Slot, Conserved;
    assert v.loc[r] in v.pos;
    if r.level < |sub| { assert sub[r.level] in w.pos && At(bit, r.level) !in v.loc; }
    if |sub| <= v.top { assert v.loc[At(bit, |sub|)] in v.pos; }
  }

  lemma LimbNewPage(s: Store, v: View, bit: nat, sub: seq<nat>, s': Store, w: View, q: Pos)
    requires Tree(s, v) && Hung(s, v, bit, sub, s') && LimbView(v, bit, sub, w)
    requires Parent(q) in w.loc && Parent(q) !in v.loc
    ensures 0 < q.level + 1 < |sub| && Parent(q) == At(bit, q.level + 1) && w.loc[Parent(q)] == sub[q.level + 1]
    ensures Child(At(bit, q.level + 1), q.k % FANOUT) == q
    ensures At(bit, q.level + 1) !in v.loc && q.level + 1 <= v.top && Limb(s', bit, sub)
  {
    hide StoreOk, Rooted, Linked, Placed, PageOk, Limb, ChildIndex, Slot, Conserved;
    assert sub[q.level + 1] in w.pos;
  }

  lemma LimbTopOk(s: Store, bit: nat, sub: seq<nat>)
    requires |sub| > 0 && Limb(s, bit, sub)
    ensures sub[|sub| - 1] in s.pages
    ensures var page := s.pages[sub[|sub| - 1]];
            if |sub| == 1 then LeafOk(page) else BranchOk(page, |sub| - 1)
  {
  }

  lemma PathKept(s: Store, v: View, s': Store, bit: nat, path: seq<Frame>, level: nat)
    requires PathOk(s, v, bit, path, level)
    requires s'.txn == s.txn
    requires forall x {:trigger Private(s, x)} :: Private(s, x) ==> Private(s', x)
    ensures PathOk(s', v, bit, path, level)
  {
    forall d | 0 <= d < |path| ensures FrameOk(s', v, bit, path[d], v.top - d) {
      assert FrameOk(s, v, bit, path[d], v.top - d);
      assert Private(s, path[d].page);
    }
  }

  lemma PathShortens(s: Store, v: View, s': Store, bit: nat, path: seq<Frame>, level: nat)
    requires PathOk(s, v, bit, path, level) && |path| > 0 && s'.txn == s.txn
    requires forall x {:trigger Private(s, x)} :: Private(s, x) ==> Private(s', x)
    ensures PathOk(s', v, bit, path[..|path| - 1], level + 1)
  {
    PathKept(s, v, s', bit, path, level);
  }

  lemma PathPops(s: Store, v: View, s': Store, v': View, bit: nat, path: seq<Frame>, level: nat)
    requires PathOk(s, v, bit, path, level) && |path| > 0 && StoreOk(s)
    requires At(bit, level + 1) in v.loc && v' == Without(v, At(bit, level + 1))
    requires Private(s, v.loc[At(bit, level + 1)]) && s' == Discard(s, v.loc[At(bit, level + 1)]) && Inverse(v)
    ensures PathOk(s', v', bit, path[..|path| - 1], level + 1)
  {
    hide StoreOk, ChildIndex, Slot;
    var short := path[..|path| - 1];
    forall d | 0 <= d < |short| ensures FrameOk(s', v', bit, short[d], v'.top - d) {
      assert FrameOk(s, v, bit, path[d], v.top - d);
    }
  }

  lemma PathAbove(s: Store, v: View, s': Store, v': View, bit: nat, path: seq<Frame>)
    requires PathOk(s, v, bit, path, 0) && StoreOk(s) && Inverse(v)
    requires At(bit, 0) in v.loc && v' == Without(v, At(bit, 0))
    requires Private(s, v.loc[At(bit, 0)]) && s' == Discard(s, v.loc[At(bit, 0)])
    ensures PathOk(s', v', bit, path, 0)
  {
    hide StoreOk, ChildIndex, Slot;
    forall d | 0 <= d < |path| ensures FrameOk(s', v', bit, path[d], v'.top - d) {
      assert FrameOk(s, v, bit, path[d], v.top - d);
    }
  }

  lemma PathGrafted(s0: Store, v0: View, s: Store, v: View, bit: nat, path: seq<Frame>, sub: seq<nat>)
    requires Tree(s0, v0) && Hung(s0, v0, bit, sub, s) && LimbView(v0, bit, sub, v) && |sub| <= v0.top
    requires PathOk(s0, v0, bit, path, |sub|)
    ensures PathOk(s, v, bit, path, |sub|)
  {
    hide StoreOk, Rooted, Linked, Placed, Inverse, Limb, Conserved;
    forall d | 0 <= d < |path| ensures FrameOk(s, v, bit, path[d], v.top - d) {
      assert FrameOk(s0, v0, bit, path[d], v0.top - d);
      LimbOldPage(s0, v0, bit, sub, s, v, At(bit, v0.top - d));
    }
  }

  lemma OpenParent(s: Store, v: View, r: Pos)
    requires TreeBut(s, v, r) && Parent(r) in v.loc
    ensures v.loc[Parent(r)] in s.pages && BranchOk(s.pages[v.loc[Parent(r)]], r.level + 1)
    ensures r.level + 1 <= v.top && 0 < s.pages[v.loc[Parent(r)]].born <= s.txn
  {
    assert v.loc[Parent(r)] in v.pos;
  }

  /** A page whose only possibly nonzero child slot is the open one has no children in the tree. */
  lemma OpenOnly(s: Store, v: View, r: Pos, summary: bool)
    requires TreeBut(s, v, r) && r !in v.loc && Parent(r) in v.loc
    requires BranchOk(s.pages[v.loc[Parent(r)]], r.level + 1)
    requires ReplaceChild(s.pages[v.loc[Parent(r)]], r.k % FANOUT, 0, summary).count == 0
    ensures Childless(v, Parent(r))
  {
    hide Rooted, LeafOk;
    var p := v.loc[Parent(r)];
    var q := Parent(r);
    assert p in v.pos && v.pos[p] == q;
    ReplaceChildCount(s.pages[p], r.k % FANOUT, 0, summary);
    var now := s.pages[p].children[r.k % FANOUT := 0];
    assert NonzeroChildren(now) == {};
    forall i | 0 <= i < FANOUT ensures Child(q, i) !in v.loc {
      assert i !in NonzeroChildren(now);
      if Child(q, i) != r {
        assert s.pages[p].children[i] == PageAt(v, Child(q, i));
        assert Child(q, i) in v.loc ==> v.loc[Child(q, i)] in v.pos;
        if i == r.k % FANOUT { ChildOfParent(r); }
      }
    }
  }

  lemma OpenAny(s: Store, v: View, r: Pos)
    requires Tree(s, v)
    ensures TreeBut(s, v, r)
  {
  }

  lemma LeafCount(leaf: Page, index: nat, word: set<nat>)
    requires LeafOk(leaf) && index < LEAF_WORDS
    ensures leaf.words[index] != {} ==> leaf.count > 0
    ensures leaf.Leaf? && |leaf.words| == LEAF_WORDS && leaf.count > 0
  {
  }

  lemma TxnPositive(s: Store)
    requires StoreOk(s)
    ensures s.txn > 0
  {
  }

  method PageLevel(s: Store, root: nat, ghost v: View) returns (level: nat)
    requires Tree(s, v) && v.root == root != 0
    ensures level == v.top
  {
    assert root in v.pos;
    level := if s.pages[root].Branch? then s.pages[root].height else 0;
  }

  /** An empty tree may be viewed at any height. */
  lemma EmptyRetop(s: Store, retired: seq<nat>, v: View, top: nat, used: set<nat>)
    requires Cow(s, retired, v) && v.root == 0 && Denotes(s, v, used)
    ensures Cow(s, retired, v.(top := top)) && Denotes(s, v.(top := top), used) && used == {}
    ensures forall q :: q !in v.loc
  {
    EmptyTree(s, v, used);
    assert forall b: nat :: !Has(s, v.(top := top), b);
  }

  /** The leaf of a fresh limb holds `bit` and nothing else. */
  ghost predicate LimbLeaf(s: Store, bit: nat, sub: seq<nat>)
    requires Limb(s, bit, sub) && |sub| > 0
  {
    forall b: nat {:trigger LeafHas(s.pages[sub[0]].words, b)} :: Slot(b, 0) == Slot(bit, 0) ==>
      (LeafHas(s.pages[sub[0]].words, b) <==> b == bit)
  }

  lemma LimbHas(s: Store, v: View, bit: nat, sub: seq<nat>, s': Store, w: View, used: set<nat>, b: nat)
    requires Tree(s, v) && Denotes(s, v, used) && Hung(s, v, bit, sub, s') && LimbView(v, bit, sub, w) && Tree(s', w)
    requires LimbLeaf(s', bit, sub)
    ensures b in used + {bit} <==> Has(s', w, b)
  {
    hide StoreOk, Rooted, Linked, BranchOk, ChildIndex, Conserved;
    BitMeaning(s, v, used, b);
    assert sub[0] in w.pos && At(bit, 0) in w.loc && At(bit, 0) !in v.loc;
    if At(b, 0) in v.loc {
      LeafAt(s, v, At(b, 0), b);
      assert v.loc[At(b, 0)] in v.pos;
      if |sub| <= v.top { assert v.loc[At(bit, |sub|)] in v.pos; }
    }
  }

  /** Hanging a fresh limb adds exactly its bit. */
  lemma LimbDenotes(s: Store, v: View, bit: nat, sub: seq<nat>, s': Store, w: View, used: set<nat>)
    requires Tree(s, v) && Denotes(s, v, used) && Hung(s, v, bit, sub, s') && LimbView(v, bit, sub, w) && Tree(s', w)
    requires LimbLeaf(s', bit, sub)
    ensures Denotes(s', w, used + {bit})
  {
    forall b: nat ensures b in used + {bit} <==> Has(s', w, b) {
      LimbHas(s, v, bit, sub, s', w, used, b);
    }
  }

  lemma HangingIsHung(s0: Store, v: View, bit: nat, sub: seq<nat>, s1: Store, page: nat, candidate: bool, s: Store)
    requires Tree(s0, v) && |sub| > 0 && StoreOk(s1) && s1.txn == s0.txn && Limb(s1, bit, sub)
    requires |sub| <= v.top && At(bit, |sub| - 1) !in v.loc && At(bit, |sub|) in v.loc && v.loc[At(bit, |sub|)] == page && Private(s0, page)
    requires forall l {:trigger sub[l]} :: 0 <= l < |sub| ==> sub[l] !in s0.pages
    requires forall x {:trigger x in s0.pages} :: x in s0.pages ==> x in s1.pages && s1.pages[x] == s0.pages[x]
    requires Conserved(s0, s1) && forall x {:trigger x in s1.pages} :: x in s1.pages ==> x in s0.pages || x in sub
    requires BranchOk(s0.pages[page], |sub|) && s0.pages[page].children[ChildIndex(bit, |sub|)] == 0
    requires s == Update(s1, page, ReplaceChild(s1.pages[page], ChildIndex(bit, |sub|), sub[|sub| - 1], candidate))
    ensures Hung(s0, v, bit, sub, s)
    ensures forall l {:trigger sub[l]} :: 0 <= l < |sub| ==> sub[l] in s.pages && sub[l] in s1.pages && s.pages[sub[l]] == s1.pages[sub[l]]
  {
    hide Rooted, Linked, LeafOk, Slot, ChildIndex, Conserved;
    var branch := ReplaceChild(s1.pages[page], ChildIndex(bit, |sub|), sub[|sub| - 1], candidate);
    UpdateConserves(s1, page, branch);
    ConservesTransitive(s0, s1, s);
    assert forall l {:trigger sub[l]} :: 0 <= l < |sub| ==> sub[l] != page && sub[l] in s1.pages && s.pages[sub[l]] == s1.pages[sub[l]];
    NoPageZero(s1, sub[|sub| - 1]);
    ReplaceChildCount(s1.pages[page], ChildIndex(bit, |sub|), sub[|sub| - 1], candidate);
    assert page in v.pos;
  }

  /** Dropping a position that holds no bit of the set changes no meaning. */
  lemma DropDenotes(s: Store, v: View, q: Pos, used: set<nat>)
    requires Inverse(v) && Placed(s, v) && q in v.loc && Private(s, v.loc[q]) && StoreOk(s)
    requires Inverse(Without(v, q)) && Placed(Discard(s, v.loc[q]), Without(v, q))
    requires forall b: nat {:trigger Has(s, v, b)} :: Has(s, v, b) && At(b, 0) != q ==> b in used
    requires forall b :: b in used ==> Has(s, v, b) && At(b, 0) != q
    ensures Denotes(Discard(s, v.loc[q]), Without(v, q), used)
  {
    hide StoreOk, PageOk;
    var s' := Discard(s, v.loc[q]);
    var w := Without(v, q);
    forall b: nat ensures b in used <==> Has(s', w, b) {
      if At(b, 0) in v.loc && At(b, 0) != q { assert Has(s, v, b) == Has(s', w, b); }
    }
  }

  // ----- snapshots

  /** A tree as a draft finds it: every page of it is older than the draft, and nothing older may change. */
  ghost predicate Committed(s: Store, v: View) {
    && Tree(s, v)
    && (forall p {:trigger p in v.pos} :: p in v.pos ==> p in s.pages && s.pages[p].born < s.txn)
    && v.snap == v.pos.Keys && v.txn == s.txn && v.fixed == s.pages
    && forall p: nat {:trigger Missing(s, p)} :: Missing(s, p) <==> p in v.absent
  }

  lemma SnapshotTree(o: Store, w: View, s: Store, retired: seq<nat>, v: View)
    requires Committed(o, w) && Cow(s, retired, v) && SameOrigin(w, v)
    ensures forall p {:trigger p in w.pos} :: p in w.pos ==> p in s.pages && s.pages[p] == o.pages[p]
    ensures Tree(s, w)
    ensures forall p :: p in retired <==> p in w.pos && p !in v.pos
    ensures forall i, j :: 0 <= i < j < |retired| ==> retired[i] != retired[j]
  {
    hide LeafOk, Rooted;
    assert forall p {:trigger p in w.pos} :: p in w.pos ==> p in v.fixed;
  }

  /**
   A draft leaks no page: what it started with is unchanged, beyond that it has only the pages
   of its tree, and every other number the store managed can still be handed out, once.
   */
  ghost predicate NoLeak(o: Store, s: Store, v: View) {
    && (forall p {:trigger p in o.pages} :: p in o.pages ==> p in s.pages && s.pages[p] == o.pages[p])
    && (forall p {:trigger p in s.pages} :: p in s.pages ==> p in o.pages || p in v.pos)
    && (forall p: nat :: p in s.pages || p in s.pool || p >= s.tail <==> p in o.pages || p in o.pool || p >= o.tail)
    && (forall i {:trigger s.pool[i]} :: 0 <= i < |s.pool| ==> s.pool[i] !in s.pages && s.pool[i] < s.tail)
    && (forall i, j :: 0 <= i < j < |s.pool| ==> s.pool[i] != s.pool[j])
  }

  lemma NothingLost(o: Store, w: View, s: Store, retired: seq<nat>, v: View)
    requires Committed(o, w) && Cow(s, retired, v) && SameOrigin(w, v)
    ensures NoLeak(o, s, v)
  {
    hide Inverse, Placed, Rooted, Linked;
    forall p: nat ensures p in s.pages || p in s.pool || p >= s.tail <==> p in o.pages || p in o.pool || p >= o.tail {
      assert Missing(s, p) <==> p in v.absent;
      assert Missing(o, p) <==> p in w.absent;
    }
  }

  lemma SnapshotDenotes(o: Store, w: View, s: Store, used: set<nat>)
    requires Tree(o, w) && Tree(s, w) && Denotes(o, w, used)
    requires forall p {:trigger p in w.pos} :: p in w.pos ==> p in s.pages && s.pages[p] == o.pages[p]
    ensures Denotes(s, w, used)
  {
    hide StoreOk, LeafOk, BranchOk, Rooted, Linked;
    forall b: nat ensures Has(s, w, b) <==> Has(o, w, b) {
      if At(b, 0) in w.loc { assert w.loc[At(b, 0)] in w.pos; }
    }
  }
}
