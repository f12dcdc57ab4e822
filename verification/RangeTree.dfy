/**
 The fixed range tree a reader walks (v4/go/internal/reader/cursor.go, direct_cursor.go):
 leaf pages of ranges under branch pages of (first key, child) entries, flattened in order.
 */
module RangeTree {

  datatype Rec = Rec(from: nat, to: nat, value: nat)

  datatype Entry = Entry(key: nat, child: nat)

  datatype Node = Leaf(records: seq<Rec>) | Branch(entries: seq<Entry>)

  type Pages = map<nat, Node>

  /** A tree of the given height hangs at a page; no page is empty. */
  predicate Tree(pages: Pages, page: nat, level: nat)
    decreases level
  {
    page in pages &&
    if level == 0 then pages[page].Leaf? && pages[page].records != []
    else
      pages[page].Branch? && pages[page].entries != [] &&
      forall i {:trigger pages[page].entries[i]} :: 0 <= i < |pages[page].entries| ==> Tree(pages, pages[page].entries[i].child, level - 1)
  }

  /** The records of a subtree, in order. */
  ghost function Flat(pages: Pages, page: nat, level: nat): (s: seq<Rec>)
    requires Tree(pages, page, level)
    ensures s != []
    decreases level, 1, 0
  {
    if level == 0 then pages[page].records else FlatTo(pages, page, level, |pages[page].entries|)
  }

  /** The records of the first `n` children of a branch. */
  ghost function FlatTo(pages: Pages, page: nat, level: nat, n: nat): (s: seq<Rec>)
    requires Tree(pages, page, level) && level > 0 && n <= |pages[page].entries|
    ensures n > 0 ==> s != []
    decreases level, 0, n
  {
    if n == 0 then [] else FlatTo(pages, page, level, n - 1) + Flat(pages, pages[page].entries[n - 1].child, level - 1)
  }

  // ----- a path from the root

  /** A branch on the way down and the child taken. */
  datatype Frame = Frame(page: nat, position: nat)

  /** The page under a path. */
  ghost predicate PathTo(pages: Pages, root: nat, height: nat, path: seq<Frame>, page: nat)
    requires Tree(pages, root, height)
    ensures PathTo(pages, root, height, path, page) ==> |path| <= height && Tree(pages, page, height - |path|)
    decreases |path|
  {
    if path == [] then page == root
    else
      var n := |path| - 1;
      var f := path[n];
      && PathTo(pages, root, height, path[..n], f.page) && n < height
      && f.position < |pages[f.page].entries| && page == pages[f.page].entries[f.position].child
  }

  /** How many records lie before the page's subtree. */
  ghost function Base(pages: Pages, root: nat, height: nat, path: seq<Frame>, page: nat): nat
    requires Tree(pages, root, height) && PathTo(pages, root, height, path, page)
    decreases |path|
  {
    if path == [] then 0
    else
      var n := |path| - 1;
      var f := path[n];
      Base(pages, root, height, path[..n], f.page) + |FlatTo(pages, f.page, height - n, f.position)|
  }

  /** The part of the whole list that a subtree holds. */
  ghost predicate Holds(all: seq<Rec>, at: nat, part: seq<Rec>) {
    at + |part| <= |all| && forall i {:trigger part[i]} :: 0 <= i < |part| ==> all[at + i] == part[i]
  }

  lemma HoldsPart(all: seq<Rec>, at: nat, a: seq<Rec>, b: seq<Rec>, c: seq<Rec>)
    requires Holds(all, at, a + b + c)
    ensures Holds(all, at + |a|, b)
  {
    var whole := a + b + c;
    forall i | 0 <= i < |b|
      ensures all[at + |a| + i] == b[i]
    {
      assert whole[|a| + i] == b[i];
    }
  }

  lemma {:induction false} FlatSplit(pages: Pages, page: nat, level: nat, i: nat, n: nat) returns (rest: seq<Rec>)
    requires Tree(pages, page, level) && level > 0 && i < n <= |pages[page].entries|
    ensures FlatTo(pages, page, level, n) == FlatTo(pages, page, level, i) + Flat(pages, pages[page].entries[i].child, level - 1) + rest
    decreases n
  {
    if i == n - 1 {
      rest := [];
    } else {
      rest := FlatSplit(pages, page, level, i, n - 1);
      rest := rest + Flat(pages, pages[page].entries[n - 1].child, level - 1);
    }
  }

  lemma {:induction false} SubtreeAt(pages: Pages, root: nat, height: nat, path: seq<Frame>, page: nat)
    requires Tree(pages, root, height) && PathTo(pages, root, height, path, page)
    ensures Holds(Flat(pages, root, height), Base(pages, root, height, path, page), Flat(pages, page, height - |path|))
    decreases |path|
  {
    hide Flat, FlatTo, Holds;
    if path == [] {
      FlatWhole(Flat(pages, root, height));
    } else {
      var n := |path| - 1;
      var f := path[n];
      SubtreeAt(pages, root, height, path[..n], f.page);
      var rest := FlatSplit(pages, f.page, height - n, f.position, |pages[f.page].entries|);
      FlatBranch(pages, f.page, height - n);
      HoldsPart(Flat(pages, root, height), Base(pages, root, height, path[..n], f.page),
                FlatTo(pages, f.page, height - n, f.position), Flat(pages, page, height - n - 1), rest);
    }
  }

  lemma FlatWhole(s: seq<Rec>)
    ensures Holds(s, 0, s)
  {
  }

  lemma FlatBranch(pages: Pages, page: nat, level: nat)
    requires Tree(pages, page, level) && level > 0
    ensures Flat(pages, page, level) == FlatTo(pages, page, level, |pages[page].entries|)
  {
  }

  // ----- moving between siblings

  ghost function Length(pages: Pages, page: nat, level: nat): nat
    requires Tree(pages, page, level)
  {
    |Flat(pages, page, level)|
  }

  /** Going down to child `i` of the page under the path. */
  lemma ChildAt(pages: Pages, root: nat, height: nat, path: seq<Frame>, page: nat, i: nat)
    requires Tree(pages, root, height) && PathTo(pages, root, height, path, page) && |path| < height
    requires i < |pages[page].entries|
    ensures
      var child, below := pages[page].entries[i].child, path + [Frame(page, i)];
      && PathTo(pages, root, height, below, child)
      && Base(pages, root, height, below, child) == Base(pages, root, height, path, page) + |FlatTo(pages, page, height - |path|, i)|
      && Base(pages, root, height, below, child) + Length(pages, child, height - |below|)
         == Base(pages, root, height, path, page) + |FlatTo(pages, page, height - |path|, i + 1)|
  {
    hide Flat;
    var child, below := pages[page].entries[i].child, path + [Frame(page, i)];
    assert below[..|path|] == path;
  }

  /** The first child starts where its branch starts, the last one ends where it ends. */
  lemma EdgeChild(pages: Pages, page: nat, level: nat)
    requires Tree(pages, page, level) && level > 0
    ensures |FlatTo(pages, page, level, 0)| == 0
    ensures |FlatTo(pages, page, level, |pages[page].entries|)| == Length(pages, page, level)
  {
  }

  /** One frame up. */
  lemma ParentOf(pages: Pages, root: nat, height: nat, path: seq<Frame>, page: nat)
    requires Tree(pages, root, height) && PathTo(pages, root, height, path, page) && path != []
    ensures
      var n := |path| - 1;
      var f := path[n];
      && PathTo(pages, root, height, path[..n], f.page) && n < height && f.page in pages && pages[f.page].Branch?
      && f.position < |pages[f.page].entries| && page == pages[f.page].entries[f.position].child
      && Base(pages, root, height, path, page) == Base(pages, root, height, path[..n], f.page) + |FlatTo(pages, f.page, height - n, f.position)|
      && Base(pages, root, height, path, page) + Length(pages, page, height - |path|)
         == Base(pages, root, height, path[..n], f.page) + |FlatTo(pages, f.page, height - n, f.position + 1)|
  {
    var n := |path| - 1;
    var f := path[n];
    ChildAt(pages, root, height, path[..n], f.page, f.position);
    assert path[..n] + [Frame(f.page, f.position)] == path;
  }

  // ----- order and keys

  /** Ascending and disjoint ranges. */
  predicate Ordered(s: seq<Rec>) {
    && (forall i {:trigger s[i]} :: 0 <= i < |s| ==> s[i].from <= s[i].to)
    && (forall i, j {:trigger s[i], s[j]} :: 0 <= i < j < |s| ==> s[i].to < s[j].from)
  }

  /** Every branch key is the first key of its subtree. */
  ghost predicate KeysOk(pages: Pages, page: nat, level: nat)
    requires Tree(pages, page, level)
    decreases level
  {
    level == 0 ||
    forall i {:trigger pages[page].entries[i]} :: 0 <= i < |pages[page].entries| ==>
      pages[page].entries[i].key == Flat(pages, pages[page].entries[i].child, level - 1)[0].from &&
      KeysOk(pages, pages[page].entries[i].child, level - 1)
  }

  lemma {:induction false} KeysUnder(pages: Pages, root: nat, height: nat, path: seq<Frame>, page: nat)
    requires Tree(pages, root, height) && KeysOk(pages, root, height) && PathTo(pages, root, height, path, page)
    ensures KeysOk(pages, page, height - |path|)
    decreases |path|
  {
    hide Flat;
    if path != [] {
      KeysUnder(pages, root, height, path[..|path| - 1], path[|path| - 1].page);
    }
  }

  /** The key of child `i` is the key of the record its subtree starts with. */
  lemma KeyIs(pages: Pages, root: nat, height: nat, path: seq<Frame>, page: nat, i: nat)
    requires Tree(pages, root, height) && KeysOk(pages, root, height) && PathTo(pages, root, height, path, page) && |path| < height
    requires i < |pages[page].entries|
    ensures
      var k := Base(pages, root, height, path, page) + |FlatTo(pages, page, height - |path|, i)|;
      k < |Flat(pages, root, height)| && Flat(pages, root, height)[k].from == pages[page].entries[i].key
  {
    hide Flat, FlatTo;
    KeysUnder(pages, root, height, path, page);
    ChildAt(pages, root, height, path, page, i);
    var child, below := pages[page].entries[i].child, path + [Frame(page, i)];
    SubtreeAt(pages, root, height, below, child);
    assert Flat(pages, child, height - |below|)[0] == Flat(pages, child, height - |path| - 1)[0];
  }

  lemma {:induction false} FlatToGrows(pages: Pages, page: nat, level: nat, m: nat, n: nat)
    requires Tree(pages, page, level) && level > 0 && m < n <= |pages[page].entries|
    ensures |FlatTo(pages, page, level, m)| < |FlatTo(pages, page, level, n)|
    decreases n
  {
    if m < n - 1 {
      FlatToGrows(pages, page, level, m, n - 1);
    }
  }

  lemma KeysRise(pages: Pages, root: nat, height: nat, path: seq<Frame>, page: nat, i: nat, j: nat)
    requires Tree(pages, root, height) && KeysOk(pages, root, height) && Ordered(Flat(pages, root, height))
    requires PathTo(pages, root, height, path, page) && |path| < height && i < j < |pages[page].entries|
    ensures pages[page].entries[i].key < pages[page].entries[j].key
  {
    hide Flat, FlatTo, KeysOk, Tree, PathTo;
    KeyIs(pages, root, height, path, page, i);
    KeyIs(pages, root, height, path, page, j);
    FlatToGrows(pages, page, height - |path|, i, j);
  }
}
