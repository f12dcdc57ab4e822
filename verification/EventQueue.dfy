/**
 The bounded boundary-event queue of the membership sweep
 (v4/go/internal/reader/algebra.go, algebraEvents): a linear scan for up to four sources,
 a binary min-heap beyond.
 */
module EventQueue {

  /** One source boundary; `start` tells a Start from an End. */
  datatype Event = Event(at: nat, source: nat, start: bool)

  /** Address ascending, ties by source, End before Start. */
  predicate Before(left: Event, right: Event) {
    || left.at < right.at
    || (left.at == right.at && left.source < right.source)
    || (left.at == right.at && left.source == right.source && !left.start && right.start)
  }

  ghost predicate Minimal(e: Event, values: seq<Event>) {
    forall i :: 0 <= i < |values| ==> !Before(values[i], e)
  }

  /** Least means lowest address, then lowest source, and an end before a start. */
  lemma MinimalMeans(e: Event, values: seq<Event>)
    requires Minimal(e, values)
    ensures forall f :: f in values ==>
      e.at < f.at || (e.at == f.at && (e.source < f.source || (e.source == f.source && (e.start ==> f.start))))
  {
  }

  function Swapped(s: seq<Event>, i: nat, j: nat): (r: seq<Event>)
    requires i < |s| && j < |s|
    ensures |r| == |s|
  {
    s[i := s[j]][j := s[i]]
  }

  lemma SwapKeeps(s: seq<Event>, i: nat, j: nat)
    requires i < |s| && j < |s|
    ensures multiset(Swapped(s, i, j)) == multiset(s)
  {
  }

  /** The last element moved into place `i`. */
  function Removed(s: seq<Event>, i: nat): seq<Event>
    requires i < |s|
  {
    s[i := s[|s| - 1]][..|s| - 1]
  }

  // ----- heap order

  function Up(i: nat): nat
    requires i > 0
  {
    (i - 1) / 2
  }

  ghost predicate Heap(s: seq<Event>) {
    forall i {:trigger s[i]} :: 0 < i < |s| ==> !Before(s[i], s[Up(i)])
  }

  lemma {:induction false} RootIsLeast(s: seq<Event>, i: nat)
    requires Heap(s) && i < |s|
    ensures !Before(s[i], s[0])
  {
    if i > 0 {
      RootIsLeast(s, Up(i));
    }
  }

  lemma RootIsMinimal(s: seq<Event>)
    requires Heap(s) && s != []
    ensures Minimal(s[0], s)
  {
    forall i | 0 <= i < |s| ensures !Before(s[i], s[0]) { RootIsLeast(s, i); }
  }

  /** The heap order as a sift-up from `child` finds it. */
  ghost predicate Rising(s: seq<Event>, child: nat) {
    && child < |s|
    && (forall i {:trigger s[i]} :: 0 < i < |s| && i != child ==> !Before(s[i], s[Up(i)]))
    && (child > 0 ==> forall i {:trigger s[i]} :: 0 < i < |s| && Up(i) == child ==> !Before(s[i], s[Up(child)]))
  }

  lemma RiseStep(s: seq<Event>, child: nat)
    requires Rising(s, child) && child > 0 && Before(s[child], s[Up(child)])
    ensures Rising(Swapped(s, child, Up(child)), Up(child))
  {
    var p := Up(child);
    var t := Swapped(s, child, p);
    forall i | 0 < i < |t| && i != p
      ensures !Before(t[i], t[Up(i)])
    {
      assert s[i] == s[i] && (Up(i) == p ==> s[Up(i)] == s[p]);
    }
    if p > 0 {
      assert !Before(s[p], s[Up(p)]);
      forall i | 0 < i < |t| && Up(i) == p
        ensures !Before(t[i], t[Up(p)])
      {
        assert i != child ==> !Before(s[i], s[Up(i)]);
      }
    }
  }

  /** The heap order as a sift-down from `parent` finds it. */
  ghost predicate Sinking(s: seq<Event>, parent: nat) {
    && (forall i {:trigger s[i]} :: 0 < i < |s| && Up(i) != parent ==> !Before(s[i], s[Up(i)]))
    && (0 < parent < |s| ==> forall i {:trigger s[i]} :: 0 < i < |s| && Up(i) == parent ==> !Before(s[i], s[Up(parent)]))
  }

  lemma SinkStep(s: seq<Event>, parent: nat, child: nat)
    requires Sinking(s, parent) && parent < child < |s| && Up(child) == parent
    requires Before(s[child], s[parent])
    requires AfterChild(s, parent, s[child])
    ensures Sinking(Swapped(s, parent, child), child)
  {
    var t := Swapped(s, parent, child);
    forall i | 0 < i < |t| && Up(i) != child
      ensures !Before(t[i], t[Up(i)])
    {
      assert Up(i) == parent ==> !Before(s[i], s[child]);
      assert i == parent ==> !Before(s[child], s[Up(parent)]);
    }
    forall i | 0 < i < |t| && Up(i) == child
      ensures !Before(t[i], t[Up(child)])
    {
      assert !Before(s[i], s[Up(i)]);
    }
  }

  lemma SinkStop(s: seq<Event>, parent: nat)
    requires Sinking(s, parent) && parent < |s| && AfterChild(s, parent, s[parent])
    ensures Heap(s)
  {
  }

  class Events {
    var values: seq<Event>
    const small: bool

    ghost predicate Valid()
      reads this
    {
      small || Heap(values)
    }

    constructor (sourceCount: nat)
      ensures Valid() && values == []
    {
      values, small := [], sourceCount <= 4;
    }

    method Smallest() returns (index: nat)
      requires values != []
      ensures index < |values| && Minimal(values[index], values)
    {
      index := 0;
      for i := 1 to |values|
        invariant index < |values| && forall j :: 0 <= j < i ==> !Before(values[j], values[index])
      {
        if Before(values[i], values[index]) {
          index := i;
        }
      }
    }

    method Peek() returns (e: Event)
      requires Valid() && values != []
      ensures e in values && Minimal(e, values)
      ensures forall f :: f in values ==>
        e.at < f.at || (e.at == f.at && (e.source < f.source || (e.source == f.source && (e.start ==> f.start))))
    {
      if small {
        var index := Smallest();
        MinimalMeans(values[index], values);
        return values[index];
      }
      RootIsMinimal(values);
      MinimalMeans(values[0], values);
      e := values[0];
    }

    method Push(e: Event)
      requires Valid()
      modifies this
      ensures Valid() && multiset(values) == old(multiset(values)) + multiset{e}
    {
      values := values + [e];
      if small {
        return;
      }
      var child: nat := |values| - 1;
      while child != 0
        invariant Rising(values, child) && multiset(values) == old(multiset(values)) + multiset{e}
      {
        var parent := Up(child);
        if !Before(values[child], values[parent]) {
          break;
        }
        RiseStep(values, child);
        SwapKeeps(values, child, parent);
        values := Swapped(values, child, parent);
        child := parent;
      }
    }

    method Pop() returns (e: Event)
      requires Valid() && values != []
      modifies this
      ensures Valid() && Minimal(e, old(values)) && e in old(values)
      ensures multiset(values) == old(multiset(values)) - multiset{e}
      ensures forall f :: f in old(values) ==>
        e.at < f.at || (e.at == f.at && (e.source < f.source || (e.source == f.source && (e.start ==> f.start))))
    {
      hide Heap, Sinking, Before, Minimal, Removed;
      if small {
        var index := Smallest();
        e := values[index];
        MinimalMeans(e, values);
        RemoveAt(values, index);
        values := Removed(values, index);
        return;
      }
      RootIsMinimal(values);
      e := values[0];
      MinimalMeans(e, values);
      RemoveAt(values, 0);
      RootGone(values);
      values := Removed(values, 0);
      SiftDown();
    }

    /** The last element sits at the root; move it down until the heap order holds. */
    method SiftDown()
      requires !small && Sinking(values, 0)
      modifies this
      ensures Valid() && multiset(values) == old(multiset(values))
    {
      hide Heap, Sinking, Before;
      var parent: nat := 0;
      while true
        invariant multiset(values) == old(multiset(values)) && Sinking(values, parent)
        decreases |values| - parent
      {
        var left := parent * 2 + 1;
        if left >= |values| {
          NoChildren(values, parent);
          return;
        }
        var right := left + 1;
        var child := left;
        if right < |values| && Before(values[right], values[left]) {
          child := right;
        }
        LeastChild(values, parent, child);
        if !Before(values[child], values[parent]) {
          ChildrenAfter(values, parent, child);
          SinkStop(values, parent);
          return;
        }
        SinkStep(values, parent, child);
        SwapKeeps(values, parent, child);
        values := Swapped(values, parent, child);
        parent := child;
      }
    }
  }

  lemma NoChildren(s: seq<Event>, parent: nat)
    requires Sinking(s, parent) && parent * 2 + 1 >= |s|
    ensures Heap(s)
  {
  }

  ghost predicate AfterChild(s: seq<Event>, parent: nat, e: Event) {
    forall i {:trigger s[i]} :: 0 < i < |s| && Up(i) == parent ==> !Before(s[i], e)
  }

  lemma LeastChild(s: seq<Event>, parent: nat, child: nat)
    requires 2 * parent + 1 < |s|
    requires child == if 2 * parent + 2 < |s| && Before(s[2 * parent + 2], s[2 * parent + 1]) then 2 * parent + 2 else 2 * parent + 1
    ensures Up(child) == parent && AfterChild(s, parent, s[child])
  {
  }

  lemma ChildrenAfter(s: seq<Event>, parent: nat, child: nat)
    requires parent < |s| && child < |s| && AfterChild(s, parent, s[child]) && !Before(s[child], s[parent])
    ensures AfterChild(s, parent, s[parent])
  {
  }

  lemma RootGone(s: seq<Event>)
    requires Heap(s) && s != []
    ensures Sinking(Removed(s, 0), 0)
  {
    var t := Removed(s, 0);
    forall i | 0 < i < |t| && Up(i) != 0
      ensures !Before(t[i], t[Up(i)])
    {
      assert t[i] == s[i] && t[Up(i)] == s[Up(i)];
    }
  }

  lemma RemoveAt(s: seq<Event>, i: nat)
    requires i < |s|
    ensures multiset(Removed(s, i)) == multiset(s) - multiset{s[i]}
  {
    var t := s[i := s[|s| - 1]];
    assert t == t[..|s| - 1] + [t[|s| - 1]];
    assert s == s[..|s| - 1] + [s[|s| - 1]];
    if i < |s| - 1 {
      assert t[..|s| - 1] == s[..|s| - 1][i := s[|s| - 1]];
    }
  }
}
