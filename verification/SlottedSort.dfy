/**
 The sort that re-packing uses (v4/go/internal/format/put.go, sortPhysical): an insertion
 sort whose inner loop moves the outer index back to where the record landed.
 */
module SlottedSort {

  /** A record's offset and its place in the list. */
  datatype Phys = Phys(start: nat, index: nat)

  predicate Rising(s: seq<Phys>) {
    forall i, j {:trigger s[i], s[j]} :: 0 <= i < j < |s| ==> s[i].start <= s[j].start
  }

  predicate Different(s: seq<Phys>) {
    forall i, j {:trigger s[i], s[j]} :: 0 <= i < j < |s| ==> s[i] != s[j]
  }

  function Swapped(s: seq<Phys>, i: nat): seq<Phys>
    requires 0 < i < |s|
  {
    s[i := s[i - 1]][i - 1 := s[i]]
  }

  lemma SwapKeeps(s: seq<Phys>, i: nat)
    requires 0 < i < |s|
    ensures multiset(Swapped(s, i)) == multiset(s) && (Different(s) ==> Different(Swapped(s, i)))
  {
  }

  /** The first `n` records are in order except perhaps the one at `at`, which is not after those that follow it. */
  ghost predicate Sinking(s: seq<Phys>, at: nat, n: nat) {
    && at < n <= |s|
    && (forall i, j {:trigger s[i], s[j]} :: 0 <= i < j < n && i != at && j != at ==> s[i].start <= s[j].start)
    && (forall j {:trigger s[j]} :: at < j < n ==> s[at].start < s[j].start)
  }

  lemma SinkStep(s: seq<Phys>, at: nat, n: nat)
    requires Sinking(s, at, n) && at > 0 && s[at].start < s[at - 1].start
    ensures Sinking(Swapped(s, at), at - 1, n)
  {
  }

  lemma SinkStop(s: seq<Phys>, at: nat, n: nat)
    requires Sinking(s, at, n) && (at == 0 || s[at].start >= s[at - 1].start)
    ensures Rising(s[..n])
  {
    var t := s[..n];
    forall i, j | 0 <= i < j < n
      ensures t[i].start <= t[j].start
    {
      if j == at && i < at - 1 {
        assert s[i].start <= s[at - 1].start;
      }
    }
  }

  lemma SinkStart(s: seq<Phys>, at: nat)
    requires at < |s| && Rising(s[..at])
    ensures Sinking(s, at, at + 1)
  {
    forall i, j | 0 <= i < j < at ensures s[i].start <= s[j].start { assert s[..at][i].start <= s[..at][j].start; }
  }

  /** The index `done` bounds the part already in order; the outer index only walks back inside it. */
  method SortPhysical(records: array<Phys>)
    modifies records
    ensures Rising(records[..]) && multiset(records[..]) == old(multiset(records[..]))
    ensures old(Different(records[..])) ==> Different(records[..])
  {
    hide Rising, Different, Sinking;
    if records.Length == 0 {
      Trivial(records[..]);
      return;
    }
    var at := 1;
    ghost var done := 1;
    Trivial(records[..1]);
    while at < records.Length
      invariant 1 <= at <= done <= records.Length && Rising(records[..done])
      invariant multiset(records[..]) == old(multiset(records[..]))
      invariant old(Different(records[..])) ==> Different(records[..])
      decreases records.Length - done, done - at
    {
      if at == done {
        SinkStart(records[..], at);
      } else {
        AlreadyThere(records[..], at, done);
      }
      ghost var bound, from := if at == done then done + 1 else done, at;
      while at > 0 && records[at].start < records[at - 1].start
        invariant at < bound <= records.Length && (bound == done + 1 || at == from)
        invariant bound == done + 1 ==> Sinking(records[..], at, bound)
        invariant bound == done ==> Rising(records[..done]) && records[at].start >= records[at - 1].start
        invariant multiset(records[..]) == old(multiset(records[..]))
        invariant old(Different(records[..])) ==> Different(records[..])
        decreases at
      {
        SinkStep(records[..], at, bound);
        SwapKeeps(records[..], at);
        ghost var before := records[..];
        records[at], records[at - 1] := records[at - 1], records[at];
        assert records[..] == Swapped(before, at);
        at := at - 1;
      }
      if bound == done + 1 {
        SinkStop(records[..], at, bound);
      }
      done := bound;
      at := at + 1;
    }
    assert records[..done] == records[..];
  }

  lemma Trivial(s: seq<Phys>)
    requires |s| <= 1
    ensures Rising(s)
  {
  }

  lemma AlreadyThere(s: seq<Phys>, at: nat, done: nat)
    requires 0 < at < done <= |s| && Rising(s[..done])
    ensures s[at].start >= s[at - 1].start
  {
    assert s[..done][at - 1].start <= s[..done][at].start;
  }
}
