/**
 The sparse set of feeds present at the sweep position
 (v4/go/internal/reader/algebra.go, algebraGlobalState): a source count for every global
 feed, one-based slots, and a dense present list with swap-removal.
 */
module Presence {
  import opened Collections

  /** A source's local feed numbers and the globals they map to. */
  predicate Mapping(localToGlobal: seq<nat>, feeds: nat) {
    && Distinct(localToGlobal)
    && forall i :: 0 <= i < |localToGlobal| ==> localToGlobal[i] < feeds
  }

  predicate Locals(present: seq<nat>, localToGlobal: seq<nat>) {
    && Distinct(present)
    && forall i :: 0 <= i < |present| ==> present[i] < |localToGlobal|
  }

  /** The global feeds of the first `n` listed local feeds. */
  ghost predicate MapsTo(present: seq<nat>, localToGlobal: seq<nat>, n: nat, g: nat)
    requires Locals(present, localToGlobal) && n <= |present|
  {
    exists k :: 0 <= k < n && localToGlobal[present[k]] == g
  }

  function One(b: bool): nat {
    if b then 1 else 0
  }

  /** Slots and the dense list name each other; a feed has a slot exactly when it has a source. */
  ghost predicate Sparse(counts: seq<nat>, slots: seq<nat>, present: seq<nat>) {
    && |counts| == |slots|
    && (forall g {:trigger slots[g]} :: 0 <= g < |slots| && slots[g] > 0 ==> slots[g] <= |present| && present[slots[g] - 1] == g)
    && (forall g {:trigger counts[g]} :: 0 <= g < |slots| ==> (counts[g] > 0 <==> slots[g] > 0))
    && (forall k {:trigger present[k]} :: 0 <= k < |present| ==> present[k] < |slots| && slots[present[k]] == k + 1)
  }

  lemma OtherSource(counts: seq<nat>, slots: seq<nat>, present: seq<nat>, g: nat, count: nat)
    requires Sparse(counts, slots, present) && g < |counts| && counts[g] > 0 && count > 0
    ensures Sparse(counts[g := count], slots, present)
  {
  }

  lemma FirstSource(counts: seq<nat>, slots: seq<nat>, present: seq<nat>, g: nat)
    requires Sparse(counts, slots, present) && g < |counts| && counts[g] == 0
    ensures |slots| == |counts|
    ensures Sparse(counts[g := 1], slots[g := |present| + 1], present + [g])
  {
    var p := present + [g];
    forall k | 0 <= k < |p|
      ensures p[k] < |slots| && slots[g := |present| + 1][p[k]] == k + 1
    {
      if k < |present| {
        assert present[k] < |slots| && slots[present[k]] == k + 1;
      }
    }
  }

  lemma LastSource(counts: seq<nat>, slots: seq<nat>, present: seq<nat>, g: nat)
    requires Sparse(counts, slots, present) && g < |counts| && counts[g] == 1
    ensures |slots| == |counts| && slots[g] > 0 && slots[g] <= |present| && present[slots[g] - 1] == g
    ensures
      var slot, last := slots[g] - 1, present[|present| - 1];
      last < |slots| &&
      Sparse(counts[g := 0],
             if slot < |present| - 1 then slots[g := 0][last := slot + 1] else slots[g := 0],
             present[slot := last][..|present| - 1])
  {
    assert slots[g] > 0;
    var slot, last := slots[g] - 1, present[|present| - 1];
    assert last < |slots| && slots[last] == |present|;
    var p := present[slot := last][..|present| - 1];
    var t := if slot < |present| - 1 then slots[g := 0][last := slot + 1] else slots[g := 0];
    forall k | 0 <= k < |p|
      ensures p[k] < |t| && t[p[k]] == k + 1
    {
      assert slots[present[k]] == k + 1;
    }
    forall h | 0 <= h < |t| && t[h] > 0
      ensures t[h] <= |p| && p[t[h] - 1] == h
    {
      if h != last {
        assert slots[h] > 0 && present[slots[h] - 1] == h;
      }
    }
  }

  class GlobalFeeds {
    var counts: seq<nat>
    var slots: seq<nat>
    var present: seq<nat>

    ghost predicate Valid()
      reads this
    {
      Sparse(counts, slots, present)
    }

    constructor (feeds: nat)
      ensures Valid() && present == [] && |counts| == feeds && forall g :: 0 <= g < feeds ==> counts[g] == 0
    {
      counts, slots, present := seq(feeds, _ => 0), seq(feeds, _ => 0), [];
    }

    /** The dense list holds every feed with a source, once, and nothing else. */
    lemma Meaning()
      requires Valid()
      ensures Distinct(present) && forall g :: g in present <==> 0 <= g < |counts| && counts[g] > 0
      ensures present == [] <==> forall g :: 0 <= g < |counts| ==> counts[g] == 0
    {
      if present != [] {
        assert counts[present[0]] > 0;
      }
      forall g | 0 <= g < |counts| && counts[g] > 0
        ensures g in present
      {
        assert present[slots[g] - 1] == g;
      }
      forall i, j | 0 <= i < j < |present|
        ensures present[i] != present[j]
      {
        assert slots[present[i]] == i + 1 && slots[present[j]] == j + 1;
      }
    }

    method AddOne(g: nat)
      requires Valid() && g < |counts|
      modifies this
      ensures Valid() && counts == old(counts)[g := old(counts)[g] + 1]
    {
      hide Sparse;
      if counts[g] == 0 {
        FirstSource(counts, slots, present, g);
      } else {
        OtherSource(counts, slots, present, g, counts[g] + 1);
      }
      var count := counts[g];
      counts := counts[g := count + 1];
      if count == 0 {
        slots := slots[g := |present| + 1];
        present := present + [g];
      }
    }

    method RemoveOne(g: nat)
      requires Valid() && g < |counts| && counts[g] > 0
      modifies this
      ensures Valid() && counts == old(counts)[g := old(counts)[g] - 1]
    {
      hide Sparse;
      if counts[g] == 1 {
        LastSource(counts, slots, present, g);
      } else {
        OtherSource(counts, slots, present, g, counts[g] - 1);
      }
      var count := counts[g] - 1;
      counts := counts[g := count];
      if count == 0 {
        var slot := slots[g] - 1;
        var last := present[|present| - 1];
        present := present[slot := last][..|present| - 1];
        slots := slots[g := 0];
        if slot < |present| {
          slots := slots[present[slot] := slot + 1];
        }
      }
    }

    method Add(locals: seq<nat>, localToGlobal: seq<nat>)
      requires Valid() && Locals(locals, localToGlobal) && Mapping(localToGlobal, |counts|)
      modifies this
      ensures Valid() && |counts| == |old(counts)|
      ensures forall g :: 0 <= g < |counts| ==>
        counts[g] == old(counts[g]) + One(MapsTo(locals, localToGlobal, |locals|, g))
    {
      for i := 0 to |locals|
        invariant Valid() && |counts| == |old(counts)|
        invariant forall g :: 0 <= g < |counts| ==> counts[g] == old(counts[g]) + One(MapsTo(locals, localToGlobal, i, g))
      {
        ghost var before := counts;
        var global := localToGlobal[locals[i]];
        AddOne(global);
        NotYet(locals, localToGlobal, i);
        forall g | 0 <= g < |counts|
          ensures counts[g] == old(counts[g]) + One(MapsTo(locals, localToGlobal, i + 1, g))
        {
          MapsNext(locals, localToGlobal, i, g);
          assert before[g] == old(counts[g]) + One(MapsTo(locals, localToGlobal, i, g));
        }
      }
    }

    /** The two refusals of the source, an underflow and a wrong slot, cannot happen. */
    method Remove(locals: seq<nat>, localToGlobal: seq<nat>)
      requires Valid() && Locals(locals, localToGlobal) && Mapping(localToGlobal, |counts|)
      requires forall g :: 0 <= g < |counts| && MapsTo(locals, localToGlobal, |locals|, g) ==> counts[g] > 0
      modifies this
      ensures Valid() && |counts| == |old(counts)|
      ensures forall g :: 0 <= g < |counts| ==>
        counts[g] == old(counts[g]) - One(MapsTo(locals, localToGlobal, |locals|, g))
    {
      for i := 0 to |locals|
        invariant Valid() && |counts| == |old(counts)|
        invariant forall g :: 0 <= g < |counts| ==> counts[g] == old(counts[g]) - One(MapsTo(locals, localToGlobal, i, g))
      {
        ghost var before := counts;
        var global := localToGlobal[locals[i]];
        NotYet(locals, localToGlobal, i);
        assert MapsTo(locals, localToGlobal, |locals|, global);
        RemoveOne(global);
        forall g | 0 <= g < |counts|
          ensures counts[g] == old(counts[g]) - One(MapsTo(locals, localToGlobal, i + 1, g))
        {
          MapsNext(locals, localToGlobal, i, g);
          assert before[g] == old(counts[g]) - One(MapsTo(locals, localToGlobal, i, g));
        }
      }
    }
  }

  lemma NotYet(locals: seq<nat>, localToGlobal: seq<nat>, i: nat)
    requires Locals(locals, localToGlobal) && Distinct(localToGlobal) && i < |locals|
    ensures !MapsTo(locals, localToGlobal, i, localToGlobal[locals[i]])
  {
    forall k | 0 <= k < i
      ensures localToGlobal[locals[k]] != localToGlobal[locals[i]]
    {
      assert locals[k] != locals[i];
    }
  }

  lemma MapsNext(locals: seq<nat>, localToGlobal: seq<nat>, i: nat, g: nat)
    requires Locals(locals, localToGlobal) && i < |locals|
    ensures MapsTo(locals, localToGlobal, i + 1, g) <==> MapsTo(locals, localToGlobal, i, g) || g == localToGlobal[locals[i]]
  {
    if g == localToGlobal[locals[i]] {
      assert localToGlobal[locals[i]] == g;
    }
  }
}
