/**
 The ordered cursor over a range tree with seek (v4/go/internal/reader/cursor.go and
 direct_cursor.go): a stack of branch frames over one leaf position refines a position in
 the flat list of records.
 */
module RangeCursor {
  import opened RangeTree

  function Reverse(s: seq<Rec>): (r: seq<Rec>)
    ensures |r| == |s|
  {
    if s == [] then [] else [s[|s| - 1]] + Reverse(s[..|s| - 1])
  }

  /** The records from `at` on, in the direction of travel. */
  function Ahead(all: seq<Rec>, at: nat, forward: bool): seq<Rec>
    requires at < |all|
  {
    if forward then all[at..] else Reverse(all[..at + 1])
  }

  lemma AheadNext(all: seq<Rec>, at: nat, forward: bool)
    requires at < |all|
    ensures Ahead(all, at, forward) ==
      [all[at]] +
      if forward then if at + 1 < |all| then Ahead(all, at + 1, true) else []
      else if at > 0 then Ahead(all, at - 1, false) else []
  {
    if forward {
      assert all[at..] == [all[at]] + all[at + 1..];
    } else {
      assert all[..at + 1][..at] == all[..at];
    }
  }

  // ----- searching a page

  function Keys(node: Node): seq<nat> {
    match node
    case Leaf(records) => seq(|records|, i requires 0 <= i < |records| => records[i].from)
    case Branch(entries) => seq(|entries|, i requires 0 <= i < |entries| => entries[i].key)
  }

  predicate Rising(s: seq<nat>) {
    forall i, j {:trigger s[i], s[j]} :: 0 <= i < j < |s| ==> s[i] < s[j]
  }

  /** The first key not below the target, and whether it is the target. */
  method LowerBound(keys: seq<nat>, target: nat) returns (position: nat, exact: bool)
    requires Rising(keys)
    ensures position <= |keys| && (forall i :: 0 <= i < position ==> keys[i] < target)
    ensures forall i :: position <= i < |keys| ==> target <= keys[i]
    ensures exact <==> position < |keys| && keys[position] == target
  {
    var lo, hi := 0, |keys|;
    while lo < hi
      invariant lo <= hi <= |keys|
      invariant forall i :: 0 <= i < lo ==> keys[i] < target
      invariant forall i :: hi <= i < |keys| ==> target <= keys[i]
    {
      var mid := (lo + hi) / 2;
      if keys[mid] < target {
        lo := mid + 1;
      } else {
        hi := mid;
      }
    }
    position := lo;
    exact := lo < |keys| && keys[lo] == target;
  }

  // ----- the cursor

  class Cursor {
    const pages: Pages
    const root: nat
    ghost const height: nat
    const forward: bool
    var page: nat
    var index: nat
    var path: seq<Frame>
    var finished: bool
    var leafOk: bool
    var leafPage: nat
    var leafNode: Node

    /** A zero root is an empty tree. */
    ghost predicate Sound() {
      root != 0 ==> Tree(pages, root, height) && KeysOk(pages, root, height) && Ordered(Flat(pages, root, height))
    }

    ghost function All(): seq<Rec>
      requires Sound()
    {
      if root == 0 then [] else Flat(pages, root, height)
    }

    /** The path leads to a leaf, and the index is inside it. */
    ghost predicate Placed()
      reads this
    {
      && Sound() && root != 0 && PathTo(pages, root, height, path, page) && |path| == height
      && index < |pages[page].records|
    }

    ghost predicate Valid()
      reads this
    {
      && Sound() && (!finished ==> Placed())
      && (leafOk ==> leafPage in pages && leafNode == pages[leafPage])
    }

    ghost function At(): (k: nat)
      requires Placed()
      reads this
    {
      Base(pages, root, height, path, page) + index
    }

    lemma AtLeaf()
      requires Placed()
      ensures page in pages && pages[page].Leaf?
      ensures At() < |All()| && All()[At()] == pages[page].records[index]
      ensures Base(pages, root, height, path, page) + |pages[page].records| <= |All()|
    {
      SubtreeAt(pages, root, height, path, page);
      assert Flat(pages, page, 0) == pages[page].records;
    }

    /** What is left to yield. */
    ghost function Left(): seq<Rec>
      requires Valid()
      reads this
    {
      if finished then [] else
        AtLeaf();
        Ahead(All(), At(), forward)
    }

    /** Descend from a page to the leaf at the direction's edge. */
    method DescendEdge(start: nat)
      requires Sound() && root != 0 && PathTo(pages, root, height, path, start)
      modifies this`page, this`index, this`path
      ensures Placed()
      ensures forward ==> At() == old(Base(pages, root, height, path, start))
      ensures !forward ==> At() + 1 == old(Base(pages, root, height, path, start) + Length(pages, start, height - |path|))
    {
      hide Flat, FlatTo, Base, KeysOk, Ordered;
      var child := start;
      ghost var from := Base(pages, root, height, path, start);
      ghost var end := from + Length(pages, start, height - |path|);
      while pages[child].Branch?
        invariant PathTo(pages, root, height, path, child)
        invariant forward ==> Base(pages, root, height, path, child) == from
        invariant !forward ==> Base(pages, root, height, path, child) + Length(pages, child, height - |path|) == end
        decreases height - |path|
      {
        var entries := pages[child].entries;
        var pos := if forward then 0 else |entries| - 1;
        ChildAt(pages, root, height, path, child, pos);
        EdgeChild(pages, child, height - |path|);
        path := path + [Frame(child, pos)];
        child := entries[pos].child;
      }
      page := child;
      index := if forward then 0 else |pages[child].records| - 1;
      LeafLength(pages, child);
    }

    /** Move one record on in the direction of travel. */
    method Advance()
      requires Valid() && !finished
      modifies this`page, this`index, this`path, this`finished
      ensures Valid()
      ensures forward ==> (finished <==> old(At()) + 1 == |All()|) && (!finished ==> At() == old(At()) + 1)
      ensures !forward ==> (finished <==> old(At()) == 0) && (!finished ==> At() == old(At()) - 1)
    {
      hide Flat, FlatTo, Base, KeysOk, Ordered;
      AtLeaf();
      if forward && index + 1 < |pages[page].records| {
        index := index + 1;
        AtLeaf();
        return;
      }
      if !forward && index > 0 {
        index := index - 1;
        return;
      }
      LeafLength(pages, page);
      Climb(page, At());
      if !finished { AtLeaf(); }
    }

    /** Up to the nearest branch with a sibling on this side, then down to that sibling's edge. */
    method Climb(sub: nat, ghost at: nat)
      requires Sound() && root != 0 && PathTo(pages, root, height, path, sub) && at < |All()|
      requires forward ==> Base(pages, root, height, path, sub) + Length(pages, sub, height - |path|) == at + 1
      requires !forward ==> Base(pages, root, height, path, sub) == at
      modifies this`page, this`index, this`path, this`finished
      ensures Sound() && (!finished ==> Placed())
      ensures finished ==> if forward then at + 1 == |All()| else at == 0
      ensures !finished ==> if forward then At() == at + 1 else At() == at - 1
    {
      hide Flat, FlatTo, Base, KeysOk, Ordered, PathTo, Tree;
      ghost var below := sub;
      while path != []
        invariant PathTo(pages, root, height, path, below)
        invariant forward ==> Base(pages, root, height, path, below) + Length(pages, below, height - |path|) == at + 1
        invariant !forward ==> Base(pages, root, height, path, below) == at
        decreases |path|
      {
        ParentOf(pages, root, height, path, below);
        var frame := path[|path| - 1];
        var entries := pages[frame.page].entries;
        path := path[..|path| - 1];
        below := frame.page;
        if (if forward then frame.position + 1 < |entries| else frame.position > 0) {
          var pos := if forward then frame.position + 1 else frame.position - 1;
          ChildAt(pages, root, height, path, frame.page, pos);
          path := path + [Frame(frame.page, pos)];
          DescendEdge(entries[pos].child);
          finished := false;
          return;
        }
        EdgeChild(pages, frame.page, height - |path|);
      }
      RootBase(pages, root, height, below);
      finished := true;
    }

    constructor (pages: Pages, root: nat, ghost height: nat, forward: bool)
      requires root != 0 ==> Tree(pages, root, height) && KeysOk(pages, root, height) && Ordered(Flat(pages, root, height))
      ensures Valid() && this.pages == pages && this.root == root && this.height == height && this.forward == forward
      ensures Left() == if forward then All() else Reverse(All())
    {
      this.pages, this.root, this.height, this.forward := pages, root, height, forward;
      page, index, path, finished := 0, 0, [], root == 0;
      leafOk, leafPage, leafNode := false, 0, Leaf([]);
      new;
      hide Flat, FlatTo, KeysOk, Ordered;
      if root != 0 {
        RootBase(pages, root, height, root);
        DescendEdge(root);
        AtLeaf();
        assert All()[0..] == All() && All()[..|All()|] == All();
      }
    }

    /** The validated current leaf, decoded once. */
    method OpenLeaf() returns (node: Node)
      requires Valid() && !finished
      modifies this`leafOk, this`leafPage, this`leafNode
      ensures Valid() && node == pages[page]
    {
      AtLeaf();
      if leafOk && leafPage == page {
        return leafNode;
      }
      leafOk, leafPage, leafNode := true, page, pages[page];
      node := leafNode;
    }

    /** The record under the cursor, then one step on. */
    method Next() returns (r: Rec, ok: bool)
      requires Valid()
      modifies this
      ensures Valid() && (ok <==> old(Left()) != []) && (ok ==> old(Left()) == [r] + Left()) && (!ok ==> Left() == [])
    {
      hide Flat, FlatTo, Base, KeysOk, Ordered, Tree, PathTo, Ahead;
      if finished {
        return Rec(0, 0, 0), false;
      }
      AtLeaf();
      AheadNext(All(), At(), forward);
      var node := OpenLeaf();
      r := node.records[index];
      Advance();
      if !finished { AtLeaf(); }
      ok := true;
    }

    /** Everything left, in order. */
    method Drain() returns (records: seq<Rec>)
      requires Valid()
      modifies this
      ensures Valid() && records == old(Left()) && Left() == []
    {
      hide Cursor.Valid, Cursor.Left;
      records := [];
      ghost var left := Left();
      while true
        invariant Valid() && left == Left() && records + left == old(Left())
        decreases |left|
      {
        var r, ok := Next();
        if !ok {
          assert records + [] == records;
          return;
        }
        assert records + ([r] + Left()) == records + [r] + Left();
        left := Left();
        records := records + [r];
      }
    }

    /** Descend to the leaf that would hold the target; only a backward seek can find none. */
    method SeekLeaf(target: nat) returns (child: nat, found: bool)
      requires Sound() && root != 0 && path == []
      modifies this`path
      ensures found ==> PathTo(pages, root, height, path, child) && |path| == height && Near(target, child)
      ensures !found ==> !forward && Beyond(All(), 0, target)
    {
      hide Flat, FlatTo, Base, KeysOk, Tree, PathTo, Ordered;
      RootBase(pages, root, height, root);
      child := root;
      StartNear(target);
      TreeKind(pages, root, height);
      while pages[child].Branch?
        invariant PathTo(pages, root, height, path, child) && Near(target, child)
        invariant child in pages && (pages[child].Branch? <==> |path| < height)
        decreases height - |path|
      {
        TreeKind(pages, child, height - |path|);
        var entries := pages[child].entries;
        var index, done := BranchSeek(child, target);
        if done {
          return child, false;
        }
        ChildAt(pages, root, height, path, child, index);
        TreeKind(pages, entries[index].child, height - |path| - 1);
        path := path + [Frame(child, index)];
        child := entries[index].child;
      }
      TreeKind(pages, child, height - |path|);
      found := true;
    }

    /** Nothing at or after the subtree matters, and (forward) nothing before it. */
    ghost predicate Near(target: nat, child: nat)
      requires Sound() && root != 0 && PathTo(pages, root, height, path, child)
      reads this
    {
      var base := Base(pages, root, height, path, child);
      && Beyond(All(), base + Length(pages, child, height - |path|), target)
      && if forward then Passed(All(), base, target) else base == 0 || (base < |All()| && All()[base].from <= target)
    }

    lemma StartNear(target: nat)
      requires Sound() && root != 0 && path == []
      ensures PathTo(pages, root, height, path, root) && Near(target, root)
    {
      hide Flat, FlatTo;
    }

    /** The child with the greatest first key not above the target, or the first one. */
    method BranchSeek(child: nat, target: nat) returns (index: nat, done: bool)
      requires Sound() && root != 0 && PathTo(pages, root, height, path, child) && |path| < height && Near(target, child)
      ensures child in pages && pages[child].Branch?
      ensures done ==> !forward && Beyond(All(), 0, target)
      ensures !done ==> index < |pages[child].entries| && NearChild(target, child, index)
    {
      hide Flat, FlatTo, Base, KeysOk, Tree, PathTo, Ordered;
      TreeKind(pages, child, height - |path|);
      var node := pages[child];
      forall i, j | 0 <= i < j < |node.entries|
        ensures node.entries[i].key < node.entries[j].key
      {
        KeysRise(pages, root, height, path, child, i, j);
      }
      var position, exact := LowerBound(Keys(node), target);
      if !exact && position == 0 {
        if !forward {
          NothingBelow(target, child);
          return 0, true;
        }
        ChildNear(target, child, 0);
        return 0, false;
      }
      index := if exact then position else position - 1;
      done := false;
      assert Keys(node)[index] == node.entries[index].key;
      assert index + 1 < |node.entries| ==> Keys(node)[index + 1] == node.entries[index + 1].key;
      ChildNear(target, child, index);
    }

    /** `Near`, one level down. */
    ghost predicate NearChild(target: nat, child: nat, i: nat)
      requires Sound() && root != 0 && PathTo(pages, root, height, path, child) && |path| < height
      requires i < |pages[child].entries|
      reads this
    {
      var base, level := Base(pages, root, height, path, child), height - |path|;
      var start := base + |FlatTo(pages, child, level, i)|;
      && Beyond(All(), base + |FlatTo(pages, child, level, i + 1)|, target)
      && if forward then Passed(All(), start, target) else start == 0 || (start < |All()| && All()[start].from <= target)
    }

    lemma NothingBelow(target: nat, child: nat)
      requires Sound() && root != 0 && PathTo(pages, root, height, path, child) && |path| < height && Near(target, child)
      requires !forward && target < pages[child].entries[0].key
      ensures Beyond(All(), 0, target)
    {
      hide Flat, FlatTo, KeysOk, Base;
      KeyIs(pages, root, height, path, child, 0);
      EdgeChild(pages, child, height - |path|);
    }

    lemma ChildNear(target: nat, child: nat, i: nat)
      requires Sound() && root != 0 && PathTo(pages, root, height, path, child) && |path| < height && Near(target, child)
      requires i < |pages[child].entries|
      requires pages[child].entries[i].key <= target || (i == 0 && forward)
      requires i + 1 < |pages[child].entries| ==> target < pages[child].entries[i + 1].key
      ensures NearChild(target, child, i)
    {
      hide Flat, FlatTo, KeysOk, Base, PathTo;
      KeyIs(pages, root, height, path, child, i);
      EdgeChild(pages, child, height - |path|);
      if i + 1 < |pages[child].entries| {
        KeyIs(pages, root, height, path, child, i + 1);
      }
    }

    /** Reposition; an exhausted cursor may be repositioned too. */
    method Seek(target: nat)
      requires Valid()
      modifies this
      ensures Valid() && Left() == if forward then NotBefore(All(), target) else Reverse(NotAfter(All(), target))
      ensures forall r {:trigger r in Left()} :: r in Left() <==> r in All() && if forward then target <= r.to else r.from <= target
    {
      hide Flat, FlatTo, Base, KeysOk, Ordered, Tree, PathTo, Ahead, Reverse, NotBefore, NotAfter, Beyond, Passed, Holds;
      FilterMeans(All(), target);
      finished := true;
      if root == 0 {
        FilterNone(target);
        return;
      }
      path := [];
      var child, found := SeekLeaf(target);
      if !found {
        NoneBelow(All(), target);
        return;
      }
      LeafOrdered(child);
      var at, done := LeafSeek(pages[child].records, target, forward);
      SeekMeans(target, child, at, done);
      ghost var k := Base(pages, root, height, path, child) + at;
      if done {
        NoneBelow(All(), target);
        return;
      }
      page, index, finished := child, at, false;
      if at >= |pages[child].records| {
        index := |pages[child].records| - 1;
        Advance();
      }
      if finished {
        assert k == |All()|;
        NoneAbove(All(), target);
      } else {
        AtLeaf();
        assert At() == k;
        Answer(All(), At(), target, forward);
      }
    }

    lemma LeafOrdered(child: nat)
      requires Sound() && root != 0 && PathTo(pages, root, height, path, child) && |path| == height
      ensures child in pages && pages[child].Leaf? && pages[child].records != [] && Ordered(pages[child].records)
      ensures Holds(All(), Base(pages, root, height, path, child), pages[child].records)
    {
      SubtreeAt(pages, root, height, path, child);
      assert Flat(pages, child, 0) == pages[child].records;
      HoldsOrdered(All(), Base(pages, root, height, path, child), pages[child].records);
    }

    /** The leaf's answer in terms of the whole list. */
    lemma SeekMeans(target: nat, child: nat, at: nat, done: bool)
      requires Sound() && root != 0 && PathTo(pages, root, height, path, child) && |path| == height && Near(target, child)
      requires child in pages && pages[child].Leaf? && pages[child].records != []
      requires Holds(All(), Base(pages, root, height, path, child), pages[child].records)
      requires LeafAnswer(pages[child].records, target, forward, at, done)
      ensures done ==> !forward && Beyond(All(), 0, target)
      ensures !done && forward ==> Splits(All(), Base(pages, root, height, path, child) + at, target)
      ensures !done && !forward ==> Reaches(All(), Base(pages, root, height, path, child) + at, target)
    {
      hide Flat, FlatTo, KeysOk, Base, PathTo, Tree;
      var base, rs := Base(pages, root, height, path, child), pages[child].records;
      LeafLength(pages, child);
      if forward {
        Splitting(All(), base, rs, at, target);
      } else {
        Reaching(All(), base, rs, at, done, target);
      }
    }
  }

  /** No record from `k` on starts at or before the target. */
  ghost predicate Beyond(all: seq<Rec>, k: nat, target: nat) {
    forall i {:trigger all[i]} :: k <= i < |all| ==> target < all[i].from
  }

  /** Every record before `k` ends before the target. */
  ghost predicate Passed(all: seq<Rec>, k: nat, target: nat) {
    k <= |all| && forall i {:trigger all[i]} :: 0 <= i < k ==> all[i].to < target
  }

  /** `k` is where the records that do not end before the target start. */
  ghost predicate Splits(all: seq<Rec>, k: nat, target: nat) {
    Passed(all, k, target) && forall i {:trigger all[i]} :: k <= i < |all| ==> target <= all[i].to
  }

  /** `k` is the last record that starts at or before the target. */
  ghost predicate Reaches(all: seq<Rec>, k: nat, target: nat) {
    k < |all| && all[k].from <= target && Beyond(all, k + 1, target)
  }

  /** What a leaf search must answer, by direction. */
  ghost predicate LeafAnswer(rs: seq<Rec>, target: nat, forward: bool, at: nat, done: bool) {
    if forward then !done && Splits(rs, at, target)
    else if done then Beyond(rs, 0, target) else Reaches(rs, at, target)
  }

  /** The leaf policy: the containing record, or the nearest one in the direction of travel. */
  method LeafSeek(rs: seq<Rec>, target: nat, forward: bool) returns (at: nat, done: bool)
    requires Ordered(rs) && rs != []
    ensures LeafAnswer(rs, target, forward, at, done) && at <= |rs| && (!forward ==> at < |rs|)
  {
    var position, exact := LowerBound(Keys(Leaf(rs)), target);
    assert forall i {:trigger rs[i]} :: 0 <= i < |rs| ==> Keys(Leaf(rs))[i] == rs[i].from;
    if !forward {
      if exact {
        return position, false;
      }
      if position == 0 {
        return 0, true;
      }
      return position - 1, false;
    }
    if exact || position == 0 {
      return position, false;
    }
    if target <= rs[position - 1].to {
      return position - 1, false;
    }
    return position, false;
  }

  lemma HoldsOrdered(all: seq<Rec>, at: nat, part: seq<Rec>)
    requires Holds(all, at, part) && Ordered(all)
    ensures Ordered(part)
  {
  }

  lemma Splitting(all: seq<Rec>, base: nat, rs: seq<Rec>, at: nat, target: nat)
    requires Ordered(all) && Holds(all, base, rs) && Passed(all, base, target) && Beyond(all, base + |rs|, target) && Splits(rs, at, target)
    ensures Splits(all, base + at, target)
  {
    forall i | 0 <= i < |all|
      ensures i < base + at ==> all[i].to < target
      ensures i >= base + at ==> target <= all[i].to
    {
      if base <= i < base + |rs| {
        assert all[base + (i - base)] == rs[i - base];
      }
    }
  }

  lemma Reaching(all: seq<Rec>, base: nat, rs: seq<Rec>, at: nat, done: bool, target: nat)
    requires Ordered(all) && Holds(all, base, rs) && Beyond(all, base + |rs|, target) && rs != []
    requires base == 0 || (base < |all| && all[base].from <= target)
    requires if done then Beyond(rs, 0, target) else Reaches(rs, at, target)
    ensures if done then Beyond(all, 0, target) else Reaches(all, base + at, target)
  {
    assert all[base + 0] == rs[0];
    if !done { assert all[base + at] == rs[at]; }
    forall i | base <= i < base + |rs| ensures all[i] == rs[i - base] { assert all[base + (i - base)] == rs[i - base]; }
  }

  // ----- seeking as filtering

  /** The records that end at the target or later. */
  function NotBefore(s: seq<Rec>, target: nat): seq<Rec> {
    if s == [] then []
    else NotBefore(s[..|s| - 1], target) + if target <= s[|s| - 1].to then [s[|s| - 1]] else []
  }

  /** The records that start at the target or earlier. */
  function NotAfter(s: seq<Rec>, target: nat): seq<Rec> {
    if s == [] then []
    else NotAfter(s[..|s| - 1], target) + if s[|s| - 1].from <= target then [s[|s| - 1]] else []
  }

  lemma {:induction false} NotBeforeIs(s: seq<Rec>, k: nat, target: nat)
    requires Splits(s, k, target)
    ensures NotBefore(s, target) == s[k..]
    decreases |s|
  {
    if s != [] {
      var n := |s| - 1;
      if k <= n {
        NotBeforeIs(s[..n], k, target);
        assert s[k..] == s[..n][k..] + [s[n]];
      } else {
        NotBeforeIs(s[..n], n, target);
      }
    }
  }

  lemma {:induction false} NotAfterIs(s: seq<Rec>, k: nat, target: nat)
    requires k <= |s| && Beyond(s, k, target) && forall i {:trigger s[i]} :: 0 <= i < k ==> s[i].from <= target
    ensures NotAfter(s, target) == s[..k]
    decreases |s|
  {
    if s != [] {
      var n := |s| - 1;
      if k <= n {
        NotAfterIs(s[..n], k, target);
        assert s[..n][..k] == s[..k];
      } else {
        NotAfterIs(s[..n], n, target);
        assert s[..k] == s[..n] + [s[n]];
      }
    }
  }

  lemma {:induction false} NotBeforeHas(s: seq<Rec>, target: nat)
    ensures forall r {:trigger r in NotBefore(s, target)} :: r in NotBefore(s, target) <==> r in s && target <= r.to
  {
    if s != [] {
      NotBeforeHas(s[..|s| - 1], target);
      assert s == s[..|s| - 1] + [s[|s| - 1]];
    }
  }

  lemma {:induction false} NotAfterHas(s: seq<Rec>, target: nat)
    ensures forall r {:trigger r in NotAfter(s, target)} :: r in NotAfter(s, target) <==> r in s && r.from <= target
  {
    if s != [] {
      NotAfterHas(s[..|s| - 1], target);
      assert s == s[..|s| - 1] + [s[|s| - 1]];
    }
  }

  lemma {:induction false} ReverseHas(s: seq<Rec>)
    ensures forall r {:trigger r in Reverse(s)} :: r in Reverse(s) <==> r in s
    ensures forall i {:trigger Reverse(s)[i]} :: 0 <= i < |s| ==> Reverse(s)[i] == s[|s| - 1 - i]
  {
    if s != [] {
      ReverseHas(s[..|s| - 1]);
      assert s == s[..|s| - 1] + [s[|s| - 1]];
    }
  }

  /** Which records the two answers hold. */
  lemma FilterMeans(s: seq<Rec>, target: nat)
    ensures forall r {:trigger r in NotBefore(s, target)} :: r in NotBefore(s, target) <==> r in s && target <= r.to
    ensures forall r {:trigger r in Reverse(NotAfter(s, target))} :: r in Reverse(NotAfter(s, target)) <==> r in s && r.from <= target
  {
    NotBeforeHas(s, target);
    NotAfterHas(s, target);
    ReverseHas(NotAfter(s, target));
  }

  lemma FilterNone(target: nat)
    ensures NotBefore([], target) == [] && Reverse(NotAfter([], target)) == []
  {
  }

  lemma NoneBelow(all: seq<Rec>, target: nat)
    requires Beyond(all, 0, target)
    ensures Reverse(NotAfter(all, target)) == []
  {
    NotAfterIs(all, 0, target);
  }

  lemma NoneAbove(all: seq<Rec>, target: nat)
    requires Splits(all, |all|, target)
    ensures NotBefore(all, target) == []
  {
    NotBeforeIs(all, |all|, target);
  }

  lemma Answer(all: seq<Rec>, k: nat, target: nat, forward: bool)
    requires Ordered(all) && k < |all| && if forward then Splits(all, k, target) else Reaches(all, k, target)
    ensures Ahead(all, k, forward) == if forward then NotBefore(all, target) else Reverse(NotAfter(all, target))
  {
    if forward {
      NotBeforeIs(all, k, target);
    } else {
      assert forall i {:trigger all[i]} :: 0 <= i < k + 1 ==> all[i].from <= target;
      NotAfterIs(all, k + 1, target);
    }
  }

  lemma TreeKind(pages: Pages, page: nat, level: nat)
    requires Tree(pages, page, level)
    ensures page in pages && (pages[page].Branch? <==> level > 0) && (level > 0 ==> pages[page].entries != [])
  {
  }

  lemma RootBase(pages: Pages, root: nat, height: nat, page: nat)
    requires Tree(pages, root, height) && PathTo(pages, root, height, [], page)
    ensures page == root && Base(pages, root, height, [], page) == 0
  {
  }

  lemma LeafLength(pages: Pages, page: nat)
    requires Tree(pages, page, 0)
    ensures Length(pages, page, 0) == |pages[page].records|
  {
  }
}
