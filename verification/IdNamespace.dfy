/**
 One dictionary-ID namespace of a draft transaction, over whole runs of
 AllocateLowestID, ClearUsed and Shrink (v4/go/internal/bitmap/used.go, used_shrink.go).
 */
module IdNamespace {
  import opened Collections
  import opened BitmapLayout
  import opened BitmapStore
  import opened BitmapBits
  import opened UsedSearch
  import opened UsedEdit
  import opened UsedShrink

  datatype Outcome = Allocated(id: nat) | Exhausted | Corrupt

  datatype Cleared = WasUsed | WasUnused | OutsideNamespace

  // ----- the allocator the tree refines

  datatype Op = Allocate | Release(bit: nat) | Lower

  datatype Result = Granted(outcome: Outcome) | Freed(cleared: Cleared) | Lowered

  /** The least ID from n up that is not used. */
  ghost function LowestFrom(used: set<nat>, n: nat): (id: nat)
    ensures n <= id && id !in used && AllUsed(used, n, id)
    decreases |used|
  {
    if n in used then
      var id := LowestFrom(used - {n}, n + 1);
      assert forall b {:trigger b in used} :: n + 1 <= b < id ==> b in used - {n};
      id
    else n
  }

  lemma LowestIs(used: set<nat>, id: nat)
    requires FIRST <= id && id !in used && AllUsed(used, FIRST, id)
    ensures LowestFrom(used, FIRST) == id
  {
  }

  ghost predicate IsShrunk(used: set<nat>, limit: nat) {
    (limit == FIRST || limit - 1 in used) && forall b :: b in used ==> FIRST <= b < limit
  }

  /** One operation on the set of used IDs and the limit, and the one result it has. */
  ghost predicate Steps(op: Op, r: Result, used: set<nat>, limit: nat, used': set<nat>, limit': nat) {
    match op
    case Allocate =>
      var id := LowestFrom(used, FIRST);
      if |used| == limit - 1 && limit == ID_SPACE then r == Granted(Exhausted) && used' == used && limit' == limit
      else r == Granted(Allocated(id)) && used' == used + {id} && limit' == if id < limit then limit else id + 1
    case Release(bit) =>
      && used' == used - {bit} && limit' == limit
      && r == Freed(if !(FIRST <= bit < limit) then OutsideNamespace else if bit in used then WasUsed else WasUnused)
    case Lower => r == Lowered && used' == used && IsShrunk(used, limit')
  }

  /** The committed namespace a draft is opened on. */
  datatype Start = Start(store: Store, view: View, used: set<nat>, limit: nat)

  ghost predicate Started(o: Start) {
    Committed(o.store, o.view) && Bitmap(o.store, o.view, o.used, o.limit)
  }

  lemma SnapshotExact(o: Start, s: Store)
    requires Started(o) && Tree(s, o.view)
    requires forall p {:trigger p in o.view.pos} :: p in o.view.pos ==> p in s.pages && s.pages[p] == o.store.pages[p]
    ensures Exact(s, o.view, o.used, o.limit)
  {
    hide StoreOk, LeafOk, BranchOk, Hole, Rooted, Linked;
    var w := o.view;
    forall q | Parent(q) in w.loc ensures Advertised(s, w, q) == Advertised(o.store, w, q) {
      assert w.loc[Parent(q)] in w.pos;
    }
  }

  /**
   Snapshot isolation. However the draft has been edited, the pages of the committed tree
   are untouched, the committed root still denotes the committed IDs, and the retired
   pages are exactly the committed tree's pages that the edited tree no longer uses. The
   draft leaks nothing: its other pages are those of its tree, and every other page number
   the store managed is still in stock.
   */
  lemma SnapshotIntact(o: Start, s: Store, retired: seq<nat>, v: View)
    requires Started(o) && Cow(s, retired, v) && SameOrigin(o.view, v)
    ensures forall p :: p in o.view.pos ==> p in s.pages && s.pages[p] == o.store.pages[p]
    ensures Bitmap(s, o.view, o.used, o.limit)
    ensures forall p :: p in retired <==> p in o.view.pos && p !in v.pos
    ensures forall i, j :: 0 <= i < j < |retired| ==> retired[i] != retired[j]
    ensures NoLeak(o.store, s, v)
  {
    hide Tree, Denotes, Exact, Committed, Books, NoLeak;
    NothingLost(o.store, o.view, s, retired, v);
    SnapshotTree(o.store, o.view, s, retired, v);
    SnapshotDenotes(o.store, o.view, s, o.used);
    SnapshotExact(o, s);
  }

  class Namespace {
    var store: Store
    var root: nat
    var limit: nat
    var retired: seq<nat>
    ghost var view: View
    ghost var used: set<nat>
    ghost const start: Start

    /** The tree denotes `used` with exact summaries, and the copy-on-write books balance. */
    ghost predicate Valid()
      reads this
    {
      && Cow(store, retired, view) && Bitmap(store, view, used, limit) && view.root == root
      && Started(start) && SameOrigin(start.view, view)
    }

    constructor (s: Store, r: nat, l: nat, ghost o: Start)
      requires Started(o) && o.store == s && o.view.root == r && o.limit == l
      ensures Valid() && start == o && used == o.used && limit == l && retired == []
    {
      store, root, limit, retired, view, used, start := s, r, l, [], o.view, o.used, o;
    }

    /** used.go AllocateLowestID. */
    method AllocateLowestID(liveCount: nat) returns (outcome: Outcome)
      requires Valid() && (liveCount == limit - 1 ==> |used| == limit - 1)
      modifies this
      ensures Valid()
      ensures outcome.Allocated? ==>
                && outcome.id !in old(used) && used == old(used) + {outcome.id} && FIRST <= outcome.id
                && AllUsed(old(used), FIRST, outcome.id)
                && limit == (if outcome.id < old(limit) then old(limit) else outcome.id + 1)
      ensures outcome.Corrupt? <==> liveCount > old(limit) - 1 || (liveCount < old(limit) - 1 && AllUsed(old(used), FIRST, old(limit)))
      ensures outcome.Exhausted? <==> liveCount == old(limit) - 1 && old(limit) == ID_SPACE
      ensures !outcome.Allocated? ==> used == old(used) && limit == old(limit) && store == old(store) && root == old(root) && retired == old(retired)
    {
      hide Tree, Books, Denotes, Exact, ExactBelow, RequiredLevel, AllUsed;
      if liveCount > limit - 1 {
        return Corrupt;
      }
      if liveCount < limit - 1 {
        var found, id := FindLowest(store, root, limit, view, used);
        if !found {
          return Corrupt;
        }
        SomeHole(used, limit, id);
        ExactBeforeSet(store, view, used, limit, id);
        store, retired, root, view := SetInner(store, retired, root, limit, id, false, view, used);
        used := used + {id};
        return Allocated(id);
      }
      FullHasAll(used, limit);
      if limit == ID_SPACE {
        return Exhausted;
      }
      var id := limit;
      limit := limit + 1;
      ExactBeforeAppend(store, view, used, id);
      AllUsedAppend(used, id);
      LevelGrowsByOne(id);
      store, retired, root, view := SetInner(store, retired, root, limit, id, true, view, used);
      used := used + {id};
      return Allocated(id);
    }

    /** used.go ClearUsed. */
    method Clear(bit: nat) returns (r: Cleared)
      requires Valid()
      modifies this
      ensures Valid() && limit == old(limit)
      ensures r.OutsideNamespace? <==> bit < FIRST || bit >= limit
      ensures r.WasUsed? <==> bit in old(used)
      ensures used == old(used) - {bit}
    {
      hide Tree, Books, Denotes, Exact;
      if bit < FIRST || bit >= limit {
        assert bit !in used;
        assert used - {bit} == used;
        return OutsideNamespace;
      }
      var cleared;
      cleared, store, retired, root, view := ClearUsed(store, retired, root, limit, bit, view, used);
      used := used - {bit};
      r := if cleared then WasUsed else WasUnused;
    }

    /** used_shrink.go ShrinkMembership and ShrinkStructure. */
    method ShrinkLimit()
      requires Valid()
      modifies this
      ensures Valid() && used == old(used)
      ensures limit <= old(limit) && (limit == FIRST || limit - 1 in used)
    {
      hide Tree, Books, Denotes, Exact;
      limit, store, retired, root, view := Shrink(store, retired, root, limit, view, used);
    }

    /** One operation; `live` is the number of used IDs, which the draft keeps count of. */
    method Apply(op: Op, live: nat) returns (r: Result, left: nat)
      requires Valid() && live == |used|
      modifies this
      ensures Valid() && left == |used| && Steps(op, r, old(used), old(limit), used, limit)
    {
      hide Tree, Books, Denotes, Exact, Started, AllUsed, LowestFrom;
      left := live;
      match op {
        case Allocate =>
          AtMostAll(used, limit);
          var outcome := AllocateLowestID(live);
          match outcome {
            case Allocated(id) =>
              LowestIs(old(used), id);
              FullOrFree(old(used), old(limit), id);
              left := live + 1;
            case Exhausted =>
            case Corrupt => AllMeansFull(old(used), old(limit));
          }
          r := Granted(outcome);
        case Release(bit) =>
          var cleared := Clear(bit);
          if cleared.WasUsed? { left := live - 1; } else { assert used == old(used); }
          r := Freed(cleared);
        case Lower =>
          ShrinkLimit();
          r := Lowered;
      }
    }

    /**
     Over any run: the edited tree denotes what the abstract allocator says, every operation
     has its result, and the committed tree is still there, page for page.
     */
    method Run(ops: seq<Op>, live: nat) returns (results: seq<Result>, ghost states: seq<(set<nat>, nat)>)
      requires Valid() && live == |used|
      modifies this
      ensures Valid()
      ensures |results| == |ops| && |states| == |ops| + 1 && states[0] == (old(used), old(limit)) && states[|ops|] == (used, limit)
      ensures forall i {:trigger states[i]} :: 0 <= i < |ops| ==>
                Steps(ops[i], results[i], states[i].0, states[i].1, states[i + 1].0, states[i + 1].1)
      ensures Bitmap(store, start.view, start.used, start.limit)
      ensures forall p :: p in retired <==> p in start.view.pos && p !in view.pos
      ensures NoLeak(start.store, store, view)
    {
      hide Tree, Books, Denotes, Exact, Started, Steps, NoLeak;
      results, states := [], [(used, limit)];
      var count := live;
      for i := 0 to |ops|
        invariant Valid() && count == |used| && |results| == i
        invariant |states| == i + 1 && states[0] == (old(used), old(limit)) && states[i] == (used, limit)
        invariant forall j {:trigger states[j]} :: 0 <= j < i ==>
                    Steps(ops[j], results[j], states[j].0, states[j].1, states[j + 1].0, states[j + 1].1)
      {
        var r;
        r, count := Apply(ops[i], count);
        results, states := results + [r], states + [(used, limit)];
      }
      SnapshotIntact(start, store, retired, view);
    }
  }

  lemma SomeHole(used: set<nat>, limit: nat, id: nat)
    requires FIRST <= id < limit && id !in used
    ensures !AllUsed(used, FIRST, limit)
  {
  }

  lemma ExactBeforeSet(s: Store, v: View, used: set<nat>, limit: nat, id: nat)
    requires Tree(s, v) && Exact(s, v, used, limit)
    ensures ExactBelow(s, v, used + {id}, limit, id, 0)
  {
    hide StoreOk, Inverse, Placed, Rooted, Linked, Hole;
    forall q | Parent(q) in v.loc && q != At(id, q.level) ensures Advertised(s, v, q) <==> Hole(used + {id}, q, limit) {
      HoleOffPath(used, q, limit, id);
    }
  }

  /** Appending the ID at the limit: off its path, nothing changes with the limit either. */
  lemma ExactBeforeAppend(s: Store, v: View, used: set<nat>, id: nat)
    requires Tree(s, v) && Exact(s, v, used, id)
    ensures ExactBelow(s, v, used + {id}, id + 1, id, 0)
  {
    hide StoreOk, Inverse, Placed, Rooted, Linked, Hole;
    forall q | Parent(q) in v.loc && q != At(id, q.level) ensures Advertised(s, v, q) <==> Hole(used + {id}, q, id + 1) {
      HoleOffPath(used, q, id + 1, id);
    }
  }

  lemma AllUsedAppend(used: set<nat>, id: nat)
    requires AllUsed(used, FIRST, id)
    ensures AllUsed(used + {id}, FIRST, id + 1)
  {
  }

  /** The IDs of a namespace. */
  function Ids(limit: nat): (ids: set<nat>)
    ensures forall b :: b in ids <==> FIRST <= b < limit
    ensures limit >= FIRST ==> |ids| == limit - FIRST
  {
    if limit <= FIRST then {} else Ids(limit - 1) + {limit - 1}
  }

  /** A namespace with limit - 1 used IDs has them all in use. */
  lemma FullHasAll(used: set<nat>, limit: nat)
    requires limit >= FIRST && |used| == limit - 1 && forall b :: b in used ==> FIRST <= b < limit
    ensures AllUsed(used, FIRST, limit)
  {
    var rest := Ids(limit) - used;
    assert used <= Ids(limit);
    assert |rest| == |Ids(limit)| - |used|;
    assert forall b :: FIRST <= b < limit ==> b in used || b in rest;
  }

  lemma LevelGrowsByOne(id: nat)
    requires FIRST <= id < ID_SPACE
    ensures RequiredLevel(id) <= RequiredLevel(id + 1)
  {
  }

  lemma AtMostAll(used: set<nat>, limit: nat)
    requires limit >= FIRST && forall b :: b in used ==> FIRST <= b < limit
    ensures |used| <= limit - 1
  {
    SubsetSize(used, Ids(limit));
  }

  lemma AllMeansFull(used: set<nat>, limit: nat)
    requires limit >= FIRST && forall b :: b in used ==> FIRST <= b < limit
    ensures AllUsed(used, FIRST, limit) ==> |used| == limit - 1
  {
    if AllUsed(used, FIRST, limit) { assert used == Ids(limit); }
  }

  lemma FullOrFree(used: set<nat>, limit: nat, id: nat)
    requires limit >= FIRST && forall b :: b in used ==> FIRST <= b < limit
    requires id !in used && FIRST <= id
    ensures |used + {id}| == |used| + 1
    ensures id < limit ==> |used| < limit - 1
  {
    if id < limit { AtMostAll(used + {id}, limit); }
  }
}
