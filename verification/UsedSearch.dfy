/**
 What a used bitmap means, and the read-only searches over it
 (v4/go/internal/bitmap/used_search.go, and the leaf scans of used.go).
 */
module UsedSearch {
  import opened BitmapLayout
  import opened BitmapStore
  import opened BitmapBits

  /** The lowest allocatable ID of the membership and structure kinds. */
  const FIRST := 1

  // ----- meaning

  /** A position's part of [FIRST, limit) holds an unused ID. */
  ghost predicate Hole(used: set<nat>, q: Pos, limit: nat) {
    exists b: nat {:trigger Slot(b, q.level)} :: Slot(b, q.level) == q.k && FIRST <= b < limit && b !in used
  }

  /** Summaries are exact, except possibly on the path to `bit` at or above a level. */
  ghost predicate ExactBelow(s: Store, v: View, used: set<nat>, limit: nat, bit: nat, level: nat)
    requires Inverse(v) && Placed(s, v)
  {
    forall q {:trigger Advertised(s, v, q)} :: Parent(q) in v.loc && (q.level < level || q != At(bit, q.level)) ==>
      (Advertised(s, v, q) <==> Hole(used, q, limit))
  }

  ghost predicate Exact(s: Store, v: View, used: set<nat>, limit: nat)
    requires Inverse(v) && Placed(s, v)
  {
    forall q {:trigger Advertised(s, v, q)} :: Parent(q) in v.loc ==> (Advertised(s, v, q) <==> Hole(used, q, limit))
  }

  /** The root level fits the limit and the used IDs lie inside the namespace. */
  ghost predicate Sized(v: View, used: set<nat>, limit: nat) {
    && FIRST <= limit <= ID_SPACE
    && (v.root != 0 ==> v.top == RequiredLevel(limit))
    && (forall b :: b in used ==> FIRST <= b < limit)
  }

  ghost predicate Bitmap(s: Store, v: View, used: set<nat>, limit: nat) {
    Tree(s, v) && Denotes(s, v, used) && Exact(s, v, used, limit) && Sized(v, used, limit)
  }

  // ----- consequences

  /** A summary bit in numbers: an unused ID of the namespace lies in the child's span. */
  lemma SummaryLayout(s: Store, v: View, used: set<nat>, limit: nat, level: nat, k: nat, i: nat)
    requires Bitmap(s, v, used, limit) && level > 0 && Pos(level, k) in v.loc && i < 256
    ensures v.loc[Pos(level, k)] in s.pages && s.pages[v.loc[Pos(level, k)]].Branch? && |s.pages[v.loc[Pos(level, k)]].summary| == 256
    ensures s.pages[v.loc[Pos(level, k)]].summary[i] <==>
      exists b: nat :: 1 <= b < limit && b !in used && (256 * k + i) * Coverage(level - 1) <= b < (256 * k + i + 1) * Coverage(level - 1)
  {
    hide StoreOk, Rooted, Linked, Slot, Coverage;
    var q, r := Pos(level, k), Pos(level - 1, 256 * k + i);
    assert v.loc[q] in v.pos && Parent(r) == q;
    assert Advertised(s, v, r) <==> Hole(used, r, limit);
    if Hole(used, r, limit) {
      var b: nat :| Slot(b, r.level) == r.k && FIRST <= b < limit && b !in used;
      InSpan(b, r);
    }
    if b: nat :| 1 <= b < limit && b !in used && (256 * k + i) * Coverage(level - 1) <= b < (256 * k + i + 1) * Coverage(level - 1) {
      InSpan(b, r);
    }
  }

  lemma TopCoversAll(b: nat, limit: nat)
    requires b < limit <= ID_SPACE
    ensures Slot(b, RequiredLevel(limit)) == 0
  {
    SlotInterval(b, RequiredLevel(limit), 0);
  }

  /** A branch has a hole exactly when one of its children has. */
  lemma HoleOfChildren(used: set<nat>, q: Pos, limit: nat)
    requires q.level > 0
    ensures Hole(used, q, limit) <==> exists i :: 0 <= i < FANOUT && Hole(used, Child(q, i), limit)
  {
    if Hole(used, q, limit) {
      var b: nat :| Slot(b, q.level) == q.k && FIRST <= b < limit && b !in used;
      var i := Slot(b, q.level - 1) % FANOUT;
      assert Child(q, i) == At(b, q.level - 1);
      assert Hole(used, Child(q, i), limit);
    }
    if i :| 0 <= i < FANOUT && Hole(used, Child(q, i), limit) {
      var b: nat :| Slot(b, q.level - 1) == Child(q, i).k && FIRST <= b < limit && b !in used;
      assert Slot(b, q.level) == q.k;
    }
  }

  // ----- scans of one page

  /** The zero bits of a word from lo up to hi: ^word masked on both sides. */
  function Zeros(word: set<nat>, lo: nat, hi: nat): set<nat> {
    set k: nat | lo <= k < hi && k !in word
  }

  /** The lowest zero bit of a leaf at or after start and below limit. */
  method LowestLeaf(words: seq<set<nat>>, base: nat, start: nat, limit: nat) returns (found: bool, bit: nat)
    requires |words| == LEAF_WORDS && base % LEAF_BITS == 0 && start < base + LEAF_BITS
    ensures found ==> base <= bit < base + LEAF_BITS && start <= bit < limit && !LeafHas(words, bit)
    ensures forall b :: base <= b < base + LEAF_BITS && start <= b < limit && (found ==> b < bit) ==> LeafHas(words, b)
  {
    var local := if start > base then start - base else 0;
    var index := local / 64;
    while index < LEAF_WORDS
      invariant local / 64 <= index <= LEAF_WORDS
      invariant forall b :: base <= b < base + 64 * index && start <= b < limit ==> LeafHas(words, b)
    {
      var wordBase := base + index * 64;
      if wordBase >= limit {
        return false, 0;
      }
      var lo := if index == local / 64 then local % 64 else 0;
      var hi := if limit - wordBase < 64 then limit - wordBase else 64;
      var candidates := Zeros(words[index], lo, hi);
      if candidates != {} {
        var k := TrailingZeros(candidates);
        bit := wordBase + k;
        WordPosition(base, index, k);
        forall b | base <= b < base + LEAF_BITS && start <= b < limit && b < bit ensures LeafHas(words, b) {
          WordCleared(words, base, index, lo, hi, b, k);
        }
        return true, bit;
      }
      forall b | base <= b < base + 64 * (index + 1) && start <= b < limit ensures LeafHas(words, b) {
        WordCleared(words, base, index, lo, hi, b, 64);
      }
      index := index + 1;
    }
    return false, 0;
  }

  lemma WordCleared(words: seq<set<nat>>, base: nat, index: nat, lo: nat, hi: nat, b: nat, k: nat)
    requires |words| == LEAF_WORDS && base % LEAF_BITS == 0 && index < LEAF_WORDS
    requires forall z :: z in Zeros(words[index], lo, hi) ==> k <= z
    requires base <= b < base + 64 * index + k && k <= 64
    requires b < base + 64 * index ==> LeafHas(words, b)
    requires base + 64 * index + lo <= b < base + 64 * index + hi || b < base + 64 * index
    ensures LeafHas(words, b)
  {
    if b >= base + 64 * index {
      var z := b - base - 64 * index;
      WordPosition(base, index, z);
      assert z !in Zeros(words[index], lo, hi);
    }
  }

  // ----- searches of the tree

  lemma EarlierChild(q: Pos, i: nat, b: nat)
    requires q.level > 0 && i <= FANOUT && Base(q) <= b < Base(Child(q, i))
    ensures Slot(b, q.level) == q.k
    ensures exists j :: 0 <= j < i && Child(q, j) == At(b, q.level - 1)
  {
    ChildBase(q, i);
    var c := Coverage(q.level - 1);
    MulLe(i, FANOUT, c);
    assert FANOUT * c == Coverage(q.level);
    SlotInterval(b, q.level, q.k);
    var j := Slot(b, q.level - 1) % FANOUT;
    assert Child(q, j) == At(b, q.level - 1);
    SlotInterval(b, q.level - 1, Child(q, j).k);
    ChildBase(q, j);
    if j >= i { MulLe(i, j, c); }
  }

  ghost predicate AllUsed(used: set<nat>, lo: nat, hi: nat) {
    forall b :: lo <= b < hi ==> b in used
  }

  /** No hole in the children before i: everything below the i-th child is used. */
  lemma SkipChildren(s: Store, v: View, used: set<nat>, limit: nat, q: Pos, i: nat)
    requires Tree(s, v) && Exact(s, v, used, limit) && q in v.loc && q.level > 0 && i <= FANOUT
    requires BranchOk(s.pages[v.loc[q]], q.level)
    requires forall j :: 0 <= j < i ==> !s.pages[v.loc[q]].summary[j]
    ensures forall b :: Base(q) <= b < Base(Child(q, i)) && FIRST <= b < limit ==> b in used
  {
    forall b | Base(q) <= b < Base(Child(q, i)) && FIRST <= b < limit ensures b in used {
      EarlierChild(q, i, b);
      var j :| 0 <= j < i && Child(q, j) == At(b, q.level - 1);
      BranchAt(s, v, q, j);
      NoHole(s, v, used, limit, q, j, b);
    }
  }

  lemma NoHole(s: Store, v: View, used: set<nat>, limit: nat, q: Pos, j: nat, b: nat)
    requires Tree(s, v) && Exact(s, v, used, limit) && q in v.loc && q.level > 0 && j < FANOUT
    requires BranchOk(s.pages[v.loc[q]], q.level) && !s.pages[v.loc[q]].summary[j]
    requires Child(q, j) == At(b, q.level - 1) && FIRST <= b < limit
    ensures b in used
  {
    hide StoreOk, Inverse, Placed, Rooted, Linked;
    BranchAt(s, v, q, j);
    assert !Hole(used, Child(q, j), limit);
  }

  lemma NoHoles(s: Store, v: View, used: set<nat>, limit: nat, q: Pos)
    requires Tree(s, v) && Exact(s, v, used, limit) && q in v.loc && q.level > 0
    requires BranchOk(s.pages[v.loc[q]], q.level)
    requires forall j :: 0 <= j < FANOUT ==> !s.pages[v.loc[q]].summary[j]
    ensures !Hole(used, q, limit)
  {
    hide StoreOk, Inverse, Placed, Rooted, Linked;
    if Hole(used, q, limit) {
      var b: nat :| Slot(b, q.level) == q.k && FIRST <= b < limit && b !in used;
      var j := Slot(b, q.level - 1) % FANOUT;
      NoHole(s, v, used, limit, q, j, b);
    }
  }

  /** The search stands on a page: every eligible ID before the page's span is used. */
  ghost predicate Standing(v: View, used: set<nat>, limit: nat, q: Pos, page: nat, base: nat, start: nat) {
    && q in v.loc && v.loc[q] == page && q.level <= v.top
    && base == Base(q) && start == (if base > FIRST then base else FIRST)
    && (forall b :: FIRST <= b < limit && b < base ==> b in used)
    && (q.level < v.top ==> Hole(used, q, limit))
  }

  lemma RootHasAll(used: set<nat>, limit: nat, q: Pos)
    requires FIRST <= limit <= ID_SPACE && q == Pos(RequiredLevel(limit), 0) && !Hole(used, q, limit)
    ensures AllUsed(used, FIRST, limit)
  {
    forall b | FIRST <= b < limit ensures b in used { TopCoversAll(b, limit); }
  }

  method LowestInLeaf(s: Store, page: nat, base: nat, start: nat, limit: nat, ghost v: View, ghost used: set<nat>, ghost q: Pos)
    returns (found: bool, bit: nat)
    requires Bitmap(s, v, used, limit) && v.root != 0 && q.level == 0 && Standing(v, used, limit, q, page, base, start)
    ensures found ==> FIRST <= bit < limit && bit !in used && AllUsed(used, FIRST, bit)
    ensures !found ==> AllUsed(used, FIRST, limit)
  {
    hide StoreOk, Inverse, Placed, Rooted, Linked, Denotes, Exact, RequiredLevel;
    LeafAt(s, v, q, base);
    found, bit := LowestLeaf(s.pages[page].words, base, start, limit);
    forall b: nat | Slot(b, 0) == q.k ensures b in used <==> LeafHas(s.pages[page].words, b) {
      LeafAt(s, v, q, b);
      BitMeaning(s, v, used, b);
    }
    if !found {
      assert !Hole(used, q, limit);
      assert q == Pos(RequiredLevel(limit), 0) by { RootIsFirst(s, v, q); }
      RootHasAll(used, limit, q);
    }
  }

  lemma RootIsFirst(s: Store, v: View, q: Pos)
    requires Tree(s, v) && q in v.loc && q.level == v.top
    ensures q.k == 0
  {
  }

  /** Where a search goes from a child slot: onto the child, or, if there is none, to its first ID as the answer. */
  ghost predicate Arrives(v: View, used: set<nat>, limit: nat, r: Pos, child: nat, childBase: nat, next: nat) {
    if child == 0 then FIRST <= next < limit && next !in used && AllUsed(used, FIRST, next)
    else Standing(v, used, limit, r, child, childBase, next)
  }

  lemma StandBelow(s: Store, v: View, used: set<nat>, limit: nat, q: Pos, page: nat, base: nat, start: nat, index: nat, childBase: nat, next: nat)
    requires Tree(s, v) && Denotes(s, v, used) && Exact(s, v, used, limit) && q.level > 0
    requires Standing(v, used, limit, q, page, base, start) && page in s.pages
    requires index < FANOUT && BranchOk(s.pages[page], q.level) && s.pages[page].summary[index]
    requires forall j :: 0 <= j < index ==> !s.pages[page].summary[j]
    requires childBase == Base(Child(q, index)) && next == if childBase > start then childBase else start
    ensures Arrives(v, used, limit, Child(q, index), s.pages[page].children[index], childBase, next)
  {
    hide StoreOk, Inverse, Placed, Rooted, Linked, Denotes, Exact, Hole, BranchOk;
    var r := Child(q, index);
    BranchAt(s, v, q, index);
    ExactAt(s, v, used, limit, r);
    SkipChildren(s, v, used, limit, q, index);
    ChildBase(q, index);
    if r !in v.loc {
      AbsentChild(s, v, used, limit, r, if Base(r) > FIRST then Base(r) else FIRST);
    }
  }

  function FirstIndex(base: nat, start: nat, span: nat): nat
    requires span > 0
  {
    if start > base then (start - base) / span else 0
  }

  lemma FirstIndexZero(v: View, used: set<nat>, limit: nat, q: Pos, page: nat, base: nat, start: nat)
    requires Standing(v, used, limit, q, page, base, start) && q.level > 0
    ensures FirstIndex(base, start, Coverage(q.level - 1)) == 0
  {
    hide Hole;
    SpanLarge(q.level - 1);
  }

  /** used_search.go findLowest: the lowest unused ID of the namespace. */
  method FindLowest(s: Store, root: nat, limit: nat, ghost v: View, ghost used: set<nat>)
    returns (found: bool, bit: nat)
    requires Bitmap(s, v, used, limit) && v.root == root
    ensures found ==> FIRST <= bit < limit && bit !in used && AllUsed(used, FIRST, bit)
    ensures !found ==> AllUsed(used, FIRST, limit)
  {
    hide StoreOk, Inverse, Placed, Rooted, Linked, Denotes, Exact, RequiredLevel, Hole, FirstIndex;
    if FIRST >= limit {
      return false, 0;
    }
    if root == 0 {
      EmptyTree(s, v, used);
      return true, FIRST;
    }
    var level: nat := RequiredLevel(limit);
    var page: nat, base: nat, start: nat := root, 0, FIRST;
    ghost var q := Pos(level, 0);
    RootAt(s, v);
    while level > 0
      invariant q.level == level && Standing(v, used, limit, q, page, base, start)
      decreases level
    {
      var span := Coverage(level - 1);
      var first := FirstIndex(base, start, span);
      BranchAt(s, v, q, 0);
      FirstIndexZero(v, used, limit, q, page, base, start);
      var ok, index := FirstSummary(s.pages[page].summary, first);
      if !ok {
        NoHoles(s, v, used, limit, q);
        RootIsFirst(s, v, q);
        RootHasAll(used, limit, q);
        return false, 0;
      }
      ChildBase(q, index);
      var childBase := base + span * index;
      var child := s.pages[page].children[index];
      var next := if childBase > start then childBase else start;
      StandBelow(s, v, used, limit, q, page, base, start, index, childBase, next);
      start := next;
      if child == 0 {
        return true, start;
      }
      page, level, base, q := child, level - 1, childBase, Child(q, index);
    }
    found, bit := LowestInLeaf(s, page, base, start, limit, v, used, q);
  }

  lemma {:induction false} SpanLarge(level: nat)
    ensures Coverage(level) >= LEAF_BITS
  {
    if level > 0 { SpanLarge(level - 1); }
  }

  lemma AbsentChild(s: Store, v: View, used: set<nat>, limit: nat, r: Pos, bit: nat)
    requires Tree(s, v) && Denotes(s, v, used) && r !in v.loc && r.level <= v.top
    requires Hole(used, r, limit) && bit == if Base(r) > FIRST then Base(r) else FIRST
    ensures FIRST <= bit < limit && bit !in used
  {
    var b: nat :| Slot(b, r.level) == r.k && FIRST <= b < limit && b !in used;
    SlotInterval(b, r.level, r.k);
    SlotInterval(bit, r.level, r.k);
    SpanLarge(r.level);
    AbsentIsUnused(s, v, used, r, bit);
  }

  lemma ExactAt(s: Store, v: View, used: set<nat>, limit: nat, q: Pos)
    requires Tree(s, v) && Exact(s, v, used, limit) && Parent(q) in v.loc
    ensures Advertised(s, v, q) <==> Hole(used, q, limit)
  {
  }

  /** A page advertises a candidate: a zero bit of its leaf, or a set summary bit. */
  ghost predicate PageHole(page: Page, base: nat, limit: nat)
    requires LeafOk(page) || (page.Branch? && BranchOk(page, page.height))
  {
    if page.Leaf? then
      exists b: nat {:trigger LeafHas(page.words, b)} :: base <= b < base + LEAF_BITS && FIRST <= b < limit && !LeafHas(page.words, b)
    else
      exists i :: 0 <= i < FANOUT && page.summary[i]
  }

  /** used.go pageHasCandidate. */
  method PageHasCandidate(page: Page, level: nat, base: nat, limit: nat) returns (yes: bool)
    requires if level == 0 then LeafOk(page) else BranchOk(page, level)
    requires base % LEAF_BITS == 0
    ensures yes <==> PageHole(page, base, limit)
  {
    if level == 0 {
      var start := if base > FIRST then base else FIRST;
      var bit;
      yes, bit := LowestLeaf(page.words, base, start, limit);
    } else {
      var i;
      yes, i := FirstSummary(page.summary, 0);
    }
  }

  /** A page with exact summaries advertises exactly whether its span has a hole. */
  lemma PageHoleMeaning(s: Store, v: View, used: set<nat>, limit: nat, q: Pos)
    requires Tree(s, v) && Denotes(s, v, used) && q in v.loc
    requires forall i {:trigger Child(q, i)} :: q.level > 0 && 0 <= i < FANOUT && Parent(Child(q, i)) in v.loc ==>
               (Advertised(s, v, Child(q, i)) <==> Hole(used, Child(q, i), limit))
    ensures v.loc[q] in s.pages && Base(q) % LEAF_BITS == 0
    ensures if q.level == 0 then LeafOk(s.pages[v.loc[q]]) else BranchOk(s.pages[v.loc[q]], q.level)
    ensures PageHole(s.pages[v.loc[q]], Base(q), limit) <==> Hole(used, q, limit)
  {
    hide StoreOk, Inverse, Placed, Rooted, Linked, Denotes;
    BaseAligned(q);
    if q.level == 0 {
      LeafAt(s, v, q, Base(q));
      var words := s.pages[v.loc[q]].words;
      forall b: nat | Base(q) <= b < Base(q) + LEAF_BITS ensures Slot(b, 0) == q.k && (b in used <==> LeafHas(words, b)) {
        LeafAt(s, v, q, b);
        BitMeaning(s, v, used, b);
      }
      if Hole(used, q, limit) {
        var b: nat :| Slot(b, q.level) == q.k && FIRST <= b < limit && b !in used;
        assert !LeafHas(words, b);
      }
    } else {
      BranchAt(s, v, q, 0);
      HoleOfChildren(used, q, limit);
      forall j | 0 <= j < FANOUT ensures s.pages[v.loc[q]].summary[j] <==> Hole(used, Child(q, j), limit) {
        BranchAt(s, v, q, j);
      }
    }
  }

  /** used_search.go contains. */
  method Contains(s: Store, root: nat, limit: nat, bit: nat, ghost v: View, ghost used: set<nat>) returns (yes: bool)
    requires Bitmap(s, v, used, limit) && v.root == root && bit < limit
    ensures yes <==> bit in used
  {
    hide StoreOk, Inverse, Placed, Rooted, Linked, Denotes, Exact, RequiredLevel, Hole;
    if root == 0 {
      EmptyTree(s, v, used);
      return false;
    }
    var level: nat := RequiredLevel(limit);
    var page: nat := root;
    RootAt(s, v);
    TopCoversAll(bit, limit);
    while level > 0
      invariant level <= v.top && At(bit, level) in v.loc && v.loc[At(bit, level)] == page
      decreases level
    {
      var index := ChildIndex(bit, level);
      BranchAt(s, v, At(bit, level), index);
      var child := s.pages[page].children[index];
      if child == 0 {
        AbsentIsUnused(s, v, used, At(bit, level - 1), bit);
        return false;
      }
      page, level := child, level - 1;
    }
    LeafAt(s, v, At(bit, 0), bit);
    BitMeaning(s, v, used, bit);
    return bit % 64 in s.pages[page].words[(bit % LEAF_BITS) / 64];
  }

  // ----- the greatest used ID

  method HighestBit(w: set<nat>) returns (k: nat)
    requires w != {} && forall b :: b in w ==> b < 64
    ensures k in w && forall b :: b in w ==> b <= k
  {
    k := 63;
    ghost var some :| some in w;
    while k !in w
      invariant forall b :: b in w ==> b <= k
      invariant some <= k
      decreases k
    {
      k := k - 1;
    }
  }

  /** used_search.go greatestLeaf: the highest set bit of a leaf below limit. */
  method GreatestLeaf(words: seq<set<nat>>, base: nat, limit: nat) returns (found: bool, bit: nat)
    requires |words| == LEAF_WORDS && base % LEAF_BITS == 0
    requires forall i, b :: 0 <= i < LEAF_WORDS && b in words[i] ==> b < 64
    ensures found ==> base <= bit < base + LEAF_BITS && bit < limit && LeafHas(words, bit)
    ensures forall b :: base <= b < base + LEAF_BITS && b < limit && LeafHas(words, b) ==> found && b <= bit
  {
    var index := LEAF_WORDS;
    while index > 0
      invariant 0 <= index <= LEAF_WORDS
      invariant forall b :: base + 64 * index <= b < base + LEAF_BITS && b < limit ==> !LeafHas(words, b)
    {
      index := index - 1;
      var wordBase := base + index * 64;
      if wordBase < limit {
        var hi := if limit - wordBase < 64 then limit - wordBase else 64;
        var word := set k | k in words[index] && k < hi;
        if word != {} {
          var k := HighestBit(word);
          bit := wordBase + k;
          WordPosition(base, index, k);
          forall b | base <= b < base + LEAF_BITS && b < limit && LeafHas(words, b) ensures b <= bit {
            if wordBase <= b < wordBase + 64 { WordPosition(base, index, b - wordBase); assert b - wordBase in word; }
          }
          return true, bit;
        }
        forall b | wordBase <= b < wordBase + 64 && b < limit ensures !LeafHas(words, b) {
          WordPosition(base, index, b - wordBase);
          assert b - wordBase !in word;
        }
      }
    }
    return false, 0;
  }

  /** The last nonzero child of a branch. */
  method LastChild(children: seq<nat>) returns (index: nat)
    requires |children| == FANOUT && NonzeroChildren(children) != {}
    ensures index < FANOUT && children[index] != 0
    ensures forall i :: index < i < FANOUT ==> children[i] == 0
  {
    index := FANOUT - 1;
    ghost var some :| some in NonzeroChildren(children);
    while children[index] == 0
      invariant some <= index < FANOUT
      invariant forall i :: index < i < FANOUT ==> children[i] == 0
      decreases index
    {
      index := index - 1;
    }
  }

  /** used_search.go greatest: the highest used ID. */
  method Greatest(s: Store, root: nat, limit: nat, ghost v: View, ghost used: set<nat>) returns (found: bool, bit: nat)
    requires Bitmap(s, v, used, limit) && v.root == root
    ensures !found ==> used == {}
    ensures found ==> bit in used && forall b :: b in used ==> b <= bit
  {
    hide StoreOk, Inverse, Placed, Rooted, Linked, Denotes, Exact, RequiredLevel, NonzeroChildren, NonzeroWords;
    if root == 0 {
      EmptyTree(s, v, used);
      return false, 0;
    }
    var level: nat := RequiredLevel(limit);
    var page: nat, base: nat := root, 0;
    ghost var q := Pos(level, 0);
    BitmapStore.RootAt(s, v);
    while level > 0
      invariant q.level == level && q in v.loc && v.loc[q] == page && base == Base(q)
      invariant forall b :: b in used ==> b < base + Coverage(level)
      decreases level
    {
      BranchAt(s, v, q, 0);
      SomeChild(s.pages[page], level);
      var index := LastChild(s.pages[page].children);
      forall b | b in used ensures b < Base(Child(q, index)) + Coverage(level - 1) { NoLaterChild(s, v, used, q, index, b); }
      BranchAt(s, v, q, index);
      ChildBase(q, index);
      page, base, q := s.pages[page].children[index], base + Coverage(level - 1) * index, Child(q, index);
      level := level - 1;
    }
    LeafAt(s, v, q, base);
    found, bit := GreatestLeaf(s.pages[page].words, base, limit);
    forall b: nat | Slot(b, 0) == q.k ensures b in used <==> LeafHas(s.pages[page].words, b) {
      LeafAt(s, v, q, b);
      BitMeaning(s, v, used, b);
    }
    ghost var some := Nonempty(s, v, used, q);
    assert LeafHas(s.pages[page].words, some);
  }

  lemma SomeChild(p: Page, level: nat)
    requires BranchOk(p, level)
    ensures NonzeroChildren(p.children) != {}
  {
  }

  lemma NoLaterChild(s: Store, v: View, used: set<nat>, q: Pos, index: nat, b: nat)
    requires Tree(s, v) && Denotes(s, v, used) && q in v.loc && q.level > 0 && index < FANOUT && b in used
    requires BranchOk(s.pages[v.loc[q]], q.level)
    requires forall i :: index < i < FANOUT ==> s.pages[v.loc[q]].children[i] == 0
    requires b < Base(q) + Coverage(q.level)
    ensures b < Base(Child(q, index)) + Coverage(q.level - 1)
  {
    hide StoreOk, Inverse, Placed, Linked, Rooted, Denotes, BranchOk;
    if b >= Base(q) {
      SlotInterval(b, q.level, q.k);
      var j := Slot(b, q.level - 1) % FANOUT;
      BranchAt(s, v, q, j);
      if j > index {
        AbsentIsUnused(s, v, used, Child(q, j), b);
      } else {
        EarlierSpan(q, j, index, b);
      }
    } else {
      ChildBase(q, index);
      MulLe(0, index, Coverage(q.level - 1));
    }
  }

  lemma EarlierSpan(q: Pos, j: nat, index: nat, b: nat)
    requires q.level > 0 && j <= index && Child(q, j) == At(b, q.level - 1)
    ensures b < Base(Child(q, index)) + Coverage(q.level - 1)
  {
    SlotInterval(b, q.level - 1, Child(q, j).k);
    ChildBase(q, j);
    ChildBase(q, index);
    MulLe(j, index, Coverage(q.level - 1));
  }
}
