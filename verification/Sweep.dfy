/**
 The ordered N-way membership sweep (v4/go/internal/reader/algebra.go, algebraScan): one
 event a source at a time, a segment before every boundary, every event of an address
 applied as a group, and a last segment up to the maximum address.
 */
module Sweep {
  import opened Collections
  import opened EventQueue
  import opened Presence
  import opened SweepModel

  /** What the sweep hands to its sink. */
  datatype Segment = Segment(from: nat, to: nat, present: seq<nat>, counts: seq<nat>)

  /** At each address of the segment its counts are the counts of the sources. */
  ghost predicate Exact(seg: Segment, sources: seq<Source>, feeds: nat, max: nat) {
    && seg.from <= seg.to <= max && |seg.counts| == feeds
    && seg.present != [] && Distinct(seg.present)
    && (forall g {:trigger g in seg.present} :: g in seg.present <==> 0 <= g < feeds && seg.counts[g] > 0)
    && (forall a: nat, g: nat {:trigger CountAt(sources, |sources|, g, a)} ::
          seg.from <= a <= seg.to && g < feeds ==> seg.counts[g] == CountAt(sources, |sources|, g, a))
  }

  predicate Inside(segments: seq<Segment>, k: nat, a: nat) {
    k < |segments| && segments[k].from <= a <= segments[k].to
  }

  /** The segments are exact, ascending and disjoint, and miss no feed below `upto`. */
  ghost predicate Emitted(segments: seq<Segment>, sources: seq<Source>, feeds: nat, upto: int, max: nat) {
    && (forall k {:trigger segments[k]} :: 0 <= k < |segments| ==> Exact(segments[k], sources, feeds, max) && segments[k].to < upto)
    && (forall i, j {:trigger segments[i], segments[j]} :: 0 <= i < j < |segments| ==> segments[i].to < segments[j].from)
    && (forall a: nat, g: nat {:trigger CountAt(sources, |sources|, g, a)} ::
          a < upto && g < feeds && CountAt(sources, |sources|, g, a) > 0 ==> exists k: nat :: Inside(segments, k, a))
  }

  ghost predicate Counted(counts: seq<nat>, sources: seq<Source>, cursors: seq<Cursor>, feeds: nat) {
    && |counts| == feeds && |cursors| == |sources|
    && forall g {:trigger counts[g]} :: 0 <= g < feeds ==> counts[g] == Tally(sources, cursors, |sources|, g)
  }

  // ----- one event

  lemma RunIsOk(sources: seq<Source>, i: nat, k: nat, feeds: nat, max: nat)
    requires SourcesOk(sources, feeds, max) && i < |sources| && k < |sources[i].runs|
    ensures Mapping(sources[i].localToGlobal, feeds) && RunOk(sources[i].runs[k], sources[i].localToGlobal, max)
  {
    assert SourceOk(sources[i], feeds, max);
  }

  function Advanced(c: Cursor): Cursor {
    if c.active then Cursor(c.index + 1, false) else Cursor(c.index, true)
  }

  lemma AdvanceCounts(counts: seq<nat>, next: seq<nat>, sources: seq<Source>, cursors: seq<Cursor>, i: nat, feeds: nat, max: nat)
    requires Counted(counts, sources, cursors, feeds) && SourcesOk(sources, feeds, max) && i < |sources|
    requires cursors[i].index < |sources[i].runs| && |next| == feeds
    requires forall g {:trigger next[g]} :: 0 <= g < feeds ==>
      next[g] == counts[g] + One(!cursors[i].active && RunHas(sources[i], cursors[i].index, g))
                           - One(cursors[i].active && RunHas(sources[i], cursors[i].index, g))
    ensures Counted(next, sources, cursors[i := Advanced(cursors[i])], feeds)
  {
    var moved := cursors[i := Advanced(cursors[i])];
    forall g | 0 <= g < feeds
      ensures next[g] == Tally(sources, moved, |sources|, g)
    {
      TallyUpdate(sources, cursors, |sources|, i, Advanced(cursors[i]), g);
      assert counts[g] == Tally(sources, cursors, |sources|, g);
    }
  }

  lemma AdvanceSwept(sources: seq<Source>, cursors: seq<Cursor>, e: Event, feeds: nat, max: nat)
    requires SourcesOk(sources, feeds, max) && Swept(sources, cursors, e.at, max) && Awaited(sources, cursors, e, max)
    ensures Swept(sources, cursors[e.source := Advanced(cursors[e.source])], e.at, max)
  {
    var i := e.source;
    var moved := cursors[i := Advanced(cursors[i])];
    assert SourceOk(sources[i], feeds, max);
    assert InOrder(sources[i], cursors[i], e.at, max);
    assert RunOk(sources[i].runs[cursors[i].index], sources[i].localToGlobal, max);
    assert InOrder(sources[i], moved[i], e.at, max);
    forall j | 0 <= j < |sources|
      ensures InOrder(sources[j], moved[j], e.at, max)
    {
      assert j != i ==> moved[j] == cursors[j];
    }
  }

  /** The event taken is not awaited again; the source's next one takes its place. */
  lemma AdvanceQueue(queue: multiset<Event>, after: multiset<Event>, sources: seq<Source>, cursors: seq<Cursor>, e: Event, max: nat)
    requires |cursors| == |sources| && Awaited(sources, cursors, e, max) && Queued(queue, sources, cursors, {e}, max)
    requires forall x {:trigger after[x]} ::
      after[x] == queue[x] + One(x.source == e.source && Awaits(sources[e.source], Advanced(cursors[e.source]), x, max))
    ensures Queued(after, sources, cursors[e.source := Advanced(cursors[e.source])], {}, max)
  {
    var moved := cursors[e.source := Advanced(cursors[e.source])];
    forall x
      ensures after[x] == One(Awaited(sources, moved, x, max) && x !in {})
    {
      assert queue[x] == One(Awaited(sources, cursors, x, max) && x !in {e});
    }
  }

  lemma TakeEvent(queue: seq<Event>, rest: multiset<Event>, e: Event, sources: seq<Source>, cursors: seq<Cursor>, max: nat)
    requires Queued(multiset(queue), sources, cursors, {}, max) && e in queue && rest == multiset(queue) - multiset{e}
    ensures Awaited(sources, cursors, e, max) && Queued(rest, sources, cursors, {e}, max)
  {
    assert multiset(queue)[e] > 0;
    forall x
      ensures rest[x] == One(Awaited(sources, cursors, x, max) && x !in {e})
    {
      assert multiset(queue)[x] == One(Awaited(sources, cursors, x, max) && x !in {});
    }
  }

  // ----- emission

  /** A segment from `at` up to the next boundary is exact. */
  lemma SegmentExact(seg: Segment, sources: seq<Source>, cursors: seq<Cursor>, at: int, feeds: nat, max: nat)
    requires SourcesOk(sources, feeds, max) && Swept(sources, cursors, at, max) && Counted(seg.counts, sources, cursors, feeds)
    requires at <= seg.from <= seg.to <= max && Quiet(sources, cursors, seg.to + 1, max)
    requires Distinct(seg.present) && seg.present != []
    requires forall g :: g in seg.present <==> 0 <= g < feeds && seg.counts[g] > 0
    ensures Exact(seg, sources, feeds, max)
  {
    forall a: nat, g: nat | seg.from <= a <= seg.to && g < feeds
      ensures seg.counts[g] == CountAt(sources, |sources|, g, a)
    {
      assert seg.counts[g] == Tally(sources, cursors, |sources|, g);
      TallyIsCount(sources, cursors, |sources|, at, a, seg.to + 1, g, feeds, max);
    }
  }

  lemma EmitSegment(segments: seq<Segment>, seg: Segment, sources: seq<Source>, feeds: nat, max: nat)
    requires Emitted(segments, sources, feeds, seg.from, max) && Exact(seg, sources, feeds, max)
    ensures Emitted(segments + [seg], sources, feeds, seg.to + 1, max)
  {
    var all := segments + [seg];
    forall a: nat, g: nat | a < seg.to + 1 && g < feeds && CountAt(sources, |sources|, g, a) > 0
      ensures exists k: nat :: Inside(all, k, a)
    {
      if a < seg.from {
        var k: nat :| Inside(segments, k, a);
        assert Inside(all, k, a);
      } else {
        assert Inside(all, |segments|, a);
      }
    }
  }

  /** Where nothing is present, nothing is missed. */
  lemma EmitNothing(segments: seq<Segment>, counts: seq<nat>, sources: seq<Source>, cursors: seq<Cursor>, at: int, limit: nat, feeds: nat, max: nat)
    requires SourcesOk(sources, feeds, max) && Swept(sources, cursors, at, max) && Quiet(sources, cursors, limit, max)
    requires at <= limit && Counted(counts, sources, cursors, feeds) && forall g :: 0 <= g < feeds ==> counts[g] == 0
    requires Emitted(segments, sources, feeds, at, max)
    ensures Emitted(segments, sources, feeds, limit, max)
  {
    forall a: nat, g: nat | a < limit && g < feeds && CountAt(sources, |sources|, g, a) > 0
      ensures exists k: nat :: Inside(segments, k, a)
    {
      if a >= at {
        assert counts[g] == Tally(sources, cursors, |sources|, g);
        TallyIsCount(sources, cursors, |sources|, at, a, limit, g, feeds, max);
      }
    }
  }

  /** The least queued event bounds every source's next boundary. */
  lemma LeastIsQuiet(queue: seq<Event>, e: Event, sources: seq<Source>, cursors: seq<Cursor>, max: nat)
    requires |cursors| == |sources| && Queued(multiset(queue), sources, cursors, {}, max)
    requires Minimal(e, queue) && e.at <= max
    ensures Quiet(sources, cursors, e.at, max)
  {
    forall i: nat | i < |sources|
      ensures e.at <= NextAt(sources[i], cursors[i], max)
    {
      var x := Event(NextAt(sources[i], cursors[i], max), i, !cursors[i].active);
      if Awaits(sources[i], cursors[i], x, max) {
        assert Awaited(sources, cursors, x, max);
        assert multiset(queue)[x] == 1;
        assert x in queue;
      }
    }
  }

  lemma EmptyIsQuiet(sources: seq<Source>, cursors: seq<Cursor>, max: nat)
    requires |cursors| == |sources| && Queued(multiset{}, sources, cursors, {}, max)
    ensures Quiet(sources, cursors, max + 1, max)
    ensures forall i {:trigger cursors[i]} :: 0 <= i < |sources| && cursors[i].index < |sources[i].runs| ==>
      cursors[i].active && sources[i].runs[cursors[i].index].to == max
  {
    forall i: nat | i < |sources| && cursors[i].index < |sources[i].runs|
      ensures cursors[i].active && sources[i].runs[cursors[i].index].to == max
    {
      var x := Event(NextAt(sources[i], cursors[i], max), i, !cursors[i].active);
      assert multiset{}[x] == One(Awaited(sources, cursors, x, max) && x !in {});
    }
  }

  lemma AwaitedAt(sources: seq<Source>, cursors: seq<Cursor>, e: Event, feeds: nat, max: nat)
    requires SourcesOk(sources, feeds, max) && Awaited(sources, cursors, e, max)
    ensures e.at == NextAt(sources[e.source], cursors[e.source], max) && e.at <= max
  {
    var s := sources[e.source];
    assert SourceOk(s, feeds, max);
    assert RunOk(s.runs[cursors[e.source].index], s.localToGlobal, max);
  }

  // ----- the scan

  class Scanner {
    const sources: seq<Source>
    const feeds: nat
    const max: nat
    const events: Events
    const global: GlobalFeeds
    var cursors: seq<Cursor>
    var segments: seq<Segment>
    var started: bool
    var position: nat

    /** The sweep position; before the first boundary it lies under every address. */
    ghost function At(): int
      reads this
    {
      if started then position else -1
    }

    /** What holds between any two events. */
    ghost predicate Valid()
      reads this, events, global
    {
      && events.Valid() && global.Valid() && SourcesOk(sources, feeds, max)
      && Counted(global.counts, sources, cursors, feeds)
    }

    constructor (sources: seq<Source>, feeds: nat, max: nat)
      requires SourcesOk(sources, feeds, max)
      ensures this.sources == sources && this.feeds == feeds && this.max == max && !started && segments == []
      ensures Valid() && fresh(events) && fresh(global)
      ensures Swept(sources, cursors, -1, max) && Queued(multiset(events.values), sources, cursors, {}, max)
      ensures Quiet(sources, cursors, 0, max)
    {
      this.sources, this.feeds, this.max := sources, feeds, max;
      cursors, segments, started, position := seq(|sources|, _ => Cursor(0, false)), [], false, 0;
      var queue := new Events(|sources|);
      global := new GlobalFeeds(feeds);
      events := queue;
      new;
      var all := cursors;
      for i := 0 to |sources|
        invariant events.Valid() && fresh(events) && cursors == all && global.Valid() && segments == [] && !started
        invariant |global.counts| == feeds && forall g :: 0 <= g < feeds ==> global.counts[g] == 0
        invariant Queued(multiset(events.values), sources[..i], all[..i], {}, max)
      {
        ghost var queue := multiset(events.values);
        if sources[i].runs != [] {
          events.Push(Event(sources[i].runs[0].from, i, true));
        }
        forall e
          ensures multiset(events.values)[e] == One(Awaited(sources[..i + 1], all[..i + 1], e, max) && e !in {})
        {
          assert queue[e] == One(Awaited(sources[..i], all[..i], e, max) && e !in {});
        }
      }
      assert sources[..|sources|] == sources && all[..|sources|] == all;
      forall g | 0 <= g < feeds ensures Tally(sources, cursors, |sources|, g) == 0 { TallyStart(sources, cursors, |sources|, g); }
    }

    /** Apply one Start or End event; the refusals of the source cannot happen. */
    method ApplyEvent(e: Event)
      requires Valid() && Awaited(sources, cursors, e, max)
      requires Queued(multiset(events.values), sources, cursors, {e}, max)
      modifies this`cursors, events, global
      ensures Valid() && |cursors| == |old(cursors)| && cursors == old(cursors)[e.source := Advanced(old(cursors)[e.source])]
      ensures Queued(multiset(events.values), sources, cursors, {}, max)
    {
      if e.start {
        ApplyStart(e);
      } else {
        ApplyEnd(e);
      }
    }

    method ApplyStart(e: Event)
      requires Valid() && Awaited(sources, cursors, e, max) && e.start
      requires Queued(multiset(events.values), sources, cursors, {e}, max)
      modifies this`cursors, events, global
      ensures Valid() && |cursors| == |old(cursors)| && cursors == old(cursors)[e.source := Advanced(old(cursors)[e.source])]
      ensures Queued(multiset(events.values), sources, cursors, {}, max)
    {
      hide Heap, Sparse, Tally, Distinct, SourcesOk, Queued;
      var s, c := sources[e.source], cursors[e.source];
      var run := s.runs[c.index];
      ghost var counts, queue := global.counts, multiset(events.values);
      RunIsOk(sources, e.source, c.index, feeds, max);
      global.Add(run.present, s.localToGlobal);
      AdvanceCounts(counts, global.counts, sources, cursors, e.source, feeds, max);
      if run.to != max {
        events.Push(Event(run.to + 1, e.source, false));
      }
      AdvanceQueue(queue, multiset(events.values), sources, cursors, e, max);
      cursors := cursors[e.source := Cursor(c.index, true)];
    }

    method ApplyEnd(e: Event)
      requires Valid() && Awaited(sources, cursors, e, max) && !e.start
      requires Queued(multiset(events.values), sources, cursors, {e}, max)
      modifies this`cursors, events, global
      ensures Valid() && |cursors| == |old(cursors)| && cursors == old(cursors)[e.source := Advanced(old(cursors)[e.source])]
      ensures Queued(multiset(events.values), sources, cursors, {}, max)
    {
      hide Heap, Sparse, Tally, Distinct, SourcesOk, Queued;
      var s, c := sources[e.source], cursors[e.source];
      var run := s.runs[c.index];
      ghost var counts, queue := global.counts, multiset(events.values);
      RunIsOk(sources, e.source, c.index, feeds, max);
      forall g | 0 <= g < feeds && MapsTo(run.present, s.localToGlobal, |run.present|, g)
        ensures global.counts[g] > 0
      {
        TallyAtLeast(sources, cursors, |sources|, e.source, g);
      }
      global.Remove(run.present, s.localToGlobal);
      AdvanceCounts(counts, global.counts, sources, cursors, e.source, feeds, max);
      if c.index + 1 < |s.runs| {
        events.Push(Event(s.runs[c.index + 1].from, e.source, true));
      }
      AdvanceQueue(queue, multiset(events.values), sources, cursors, e, max);
      cursors := cursors[e.source := Cursor(c.index + 1, false)];
    }

    /** Apply every event at one address: the first, then each queued one. */
    method ApplyBoundary(first: Event)
      requires Valid() && Awaited(sources, cursors, first, max) && Swept(sources, cursors, first.at, max)
      requires Queued(multiset(events.values), sources, cursors, {first}, max)
      modifies this`cursors, events, global
      ensures Valid() && |cursors| == |sources| && Swept(sources, cursors, first.at, max) && Quiet(sources, cursors, first.at + 1, max)
      ensures Queued(multiset(events.values), sources, cursors, {}, max)
      ensures Remaining(sources, cursors, |sources|) < old(Remaining(sources, cursors, |sources|))
    {
      hide Heap, Sparse, Tally, Remaining, Counted, Distinct, SourcesOk;
      var at := first.at;
      AdvanceSwept(sources, cursors, first, feeds, max);
      RemainingUpdate(sources, cursors, |sources|, first.source, Advanced(cursors[first.source]));
      ApplyEvent(first);
      while true
        invariant Valid() && Swept(sources, cursors, at, max)
        invariant Queued(multiset(events.values), sources, cursors, {}, max)
        invariant Remaining(sources, cursors, |sources|) < old(Remaining(sources, cursors, |sources|))
        decreases Remaining(sources, cursors, |sources|)
      {
        if events.values == [] {
          EmptyIsQuiet(sources, cursors, max);
          AwaitedAt(sources, old(cursors), first, feeds, max);
          return;
        }
        var next := events.Peek();
        assert multiset(events.values)[next] > 0;
        AwaitedAt(sources, cursors, next, feeds, max);
        LeastIsQuiet(events.values, next, sources, cursors, max);
        assert InOrder(sources[next.source], cursors[next.source], at, max);
        if next.at != at {
          return;
        }
        ghost var queue := events.values;
        var same := events.Pop();
        TakeEvent(queue, multiset(events.values), same, sources, cursors, max);
        AwaitedAt(sources, cursors, same, feeds, max);
        assert InOrder(sources[same.source], cursors[same.source], at, max);
        assert next in queue && same in queue && same.at == at;
        AdvanceSwept(sources, cursors, same, feeds, max);
        RemainingUpdate(sources, cursors, |sources|, same.source, Advanced(cursors[same.source]));
        RemainingNat(sources, cursors, |sources|, at, max);
        ApplyEvent(same);
      }
    }

    /** The segment before one boundary, unless nothing is present. */
    method EmitBefore(boundary: nat)
      requires Valid() && Swept(sources, cursors, At(), max) && Quiet(sources, cursors, boundary, max)
      requires At() < boundary <= max && Emitted(segments, sources, feeds, At(), max)
      requires !started ==> global.present == []
      modifies this`segments
      ensures Emitted(segments, sources, feeds, boundary, max)
    {
      hide Heap, Sparse, Tally, Counted, Distinct, SourcesOk, Emitted, Exact, Swept, Quiet;
      global.Meaning();
      if !started || !(position < boundary) || global.present == [] {
        NothingPresent(global.present, global.counts, sources, cursors, feeds);
        EmitNothing(segments, global.counts, sources, cursors, At(), boundary, feeds, max);
        return;
      }
      Emit(boundary - 1);
    }

    method Emit(to: nat)
      requires Valid() && started && position <= to <= max && global.present != []
      requires Swept(sources, cursors, position, max) && Quiet(sources, cursors, to + 1, max)
      requires Emitted(segments, sources, feeds, position, max)
      modifies this`segments
      ensures Emitted(segments, sources, feeds, to + 1, max)
    {
      hide Heap, Sparse, Tally, Distinct, SourcesOk, Emitted, Exact, Swept, Quiet;
      global.Meaning();
      var seg := Segment(position, to, global.present, global.counts);
      SegmentExact(seg, sources, cursors, position, feeds, max);
      EmitSegment(segments, seg, sources, feeds, max);
      segments := segments + [seg];
    }

    /** The last segment, up to the maximum address. */
    method EmitTerminal()
      requires Valid() && Swept(sources, cursors, At(), max) && Queued(multiset{}, sources, cursors, {}, max)
      requires At() <= max && Emitted(segments, sources, feeds, At(), max)
      requires !started ==> global.present == []
      modifies this`segments
      ensures Emitted(segments, sources, feeds, max + 1, max)
    {
      hide Heap, Sparse, Tally, Distinct, SourcesOk, Emitted, Exact, Quiet, Queued;
      EmptyIsQuiet(sources, cursors, max);
      global.Meaning();
      if !started || global.present == [] {
        NothingPresent(global.present, global.counts, sources, cursors, feeds);
        EmitNothing(segments, global.counts, sources, cursors, At(), max + 1, feeds, max);
        return;
      }
      ghost var g := global.present[0];
      assert g in global.present;
      ghost var holder := TallyWitness(sources, cursors, |sources|, g);
      var i := 0;
      while !cursors[i].active
        invariant i <= holder
        decreases |cursors| - i
      {
        i := i + 1;
      }
      assert InOrder(sources[i], cursors[i], At(), max);
      var to := sources[i].runs[cursors[i].index].to;
      Emit(to);
    }

    /**
     For every address and every global feed: the segments are ascending and disjoint, an
     address lies in a segment exactly when some source holds a feed there, and the counts
     of that segment are the numbers of sources holding each feed at that address.
     */
    /** One turn of the loop: the segment before the next boundary, then the boundary itself. */
    method Turn()
      requires Valid() && events.values != [] && |cursors| == |sources|
      requires Swept(sources, cursors, At(), max) && Quiet(sources, cursors, At() + 1, max) && At() <= max
      requires Queued(multiset(events.values), sources, cursors, {}, max) && Emitted(segments, sources, feeds, At(), max)
      requires !started ==> global.present == []
      modifies this, events, global
      ensures Valid() && |cursors| == |sources| && started
      ensures Swept(sources, cursors, At(), max) && Quiet(sources, cursors, At() + 1, max) && At() <= max
      ensures Queued(multiset(events.values), sources, cursors, {}, max) && Emitted(segments, sources, feeds, At(), max)
      ensures old(Remaining(sources, cursors, |sources|)) >= 0
      ensures Remaining(sources, cursors, |sources|) < old(Remaining(sources, cursors, |sources|))
    {
      hide Heap, Sparse, Tally, Distinct, SourcesOk, Emitted, Exact, Quiet, Queued, Swept, Remaining, Awaited, Counted, Minimal, Before;
      ghost var queue := events.values;
      var event := events.Pop();
      Next(queue, multiset(events.values), event);
      EmitBefore(event.at);
      RemainingNat(sources, cursors, |sources|, event.at, max);
      ApplyBoundary(event);
      started, position := true, event.at;
    }

    method Scan()
      requires Valid() && !started && segments == []
      requires Swept(sources, cursors, -1, max) && Queued(multiset(events.values), sources, cursors, {}, max)
      requires Quiet(sources, cursors, 0, max)
      modifies this, events, global
      ensures Emitted(segments, sources, feeds, max + 1, max)
    {
      hide Heap, Sparse, Tally, Distinct, SourcesOk, Emitted, Exact, Quiet, Queued, Swept, Remaining, Awaited, Counted, Minimal, Before;
      NothingYet(sources, feeds, max);
      NoFeedsYet();
      while events.values != []
        invariant Valid() && Swept(sources, cursors, At(), max) && Quiet(sources, cursors, At() + 1, max) && At() <= max
        invariant Queued(multiset(events.values), sources, cursors, {}, max)
        invariant Emitted(segments, sources, feeds, At(), max)
        invariant !started ==> global.present == []
        invariant |cursors| == |sources|
        decreases Remaining(sources, cursors, |sources|)
      {
        Turn();
      }
      EmitTerminal();
    }

    lemma NoFeedsYet()
      requires Valid() && Swept(sources, cursors, -1, max)
      ensures global.present == [] && |cursors| == |sources|
    {
      forall i | 0 <= i < |cursors| ensures !cursors[i].active { assert InOrder(sources[i], cursors[i], -1, max); }
      global.Meaning();
      forall g | 0 <= g < feeds
        ensures global.counts[g] == 0
      {
        TallyStart(sources, cursors, |sources|, g);
      }
    }

    /** The least event lies past the position, and every source is in order up to it. */
    lemma Next(queue: seq<Event>, rest: multiset<Event>, e: Event)
      requires SourcesOk(sources, feeds, max) && Swept(sources, cursors, At(), max) && Quiet(sources, cursors, At() + 1, max)
      requires Queued(multiset(queue), sources, cursors, {}, max) && e in queue && Minimal(e, queue)
      requires rest == multiset(queue) - multiset{e}
      ensures Awaited(sources, cursors, e, max) && Queued(rest, sources, cursors, {e}, max)
      ensures At() < e.at <= max && Quiet(sources, cursors, e.at, max) && Swept(sources, cursors, e.at, max)
    {
      TakeEvent(queue, rest, e, sources, cursors, max);
      AwaitedAt(sources, cursors, e, feeds, max);
      LeastIsQuiet(queue, e, sources, cursors, max);
      assert At() + 1 <= NextAt(sources[e.source], cursors[e.source], max) by { assert cursors[e.source] == cursors[e.source]; }
      forall i | 0 <= i < |sources|
        ensures InOrder(sources[i], cursors[i], e.at, max)
      {
        assert InOrder(sources[i], cursors[i], At(), max);
      }
    }
  }

  lemma NothingPresent(present: seq<nat>, counts: seq<nat>, sources: seq<Source>, cursors: seq<Cursor>, feeds: nat)
    requires Counted(counts, sources, cursors, feeds) && present == []
    requires forall g :: g in present <==> 0 <= g < |counts| && counts[g] > 0
    ensures forall g :: 0 <= g < feeds ==> counts[g] == 0
  {
    forall g | 0 <= g < feeds ensures counts[g] == 0 { assert g !in present; }
  }

  lemma NothingYet(sources: seq<Source>, feeds: nat, max: nat)
    ensures Emitted([], sources, feeds, -1, max)
  {
  }

  lemma {:induction false} TallyStart(sources: seq<Source>, cursors: seq<Cursor>, n: nat, g: nat)
    requires n <= |sources| <= |cursors| && forall i {:trigger cursors[i]} :: 0 <= i < n ==> !cursors[i].active
    ensures Tally(sources, cursors, n, g) == 0
  {
    if n > 0 {
      TallyStart(sources, cursors, n - 1, g);
    }
  }

  /** The whole sweep over any sources. */
  method Segments(sources: seq<Source>, feeds: nat, max: nat) returns (segments: seq<Segment>)
    requires SourcesOk(sources, feeds, max)
    ensures Emitted(segments, sources, feeds, max + 1, max)
  {
    hide SourcesOk, Emitted, Swept, Quiet, Queued, Counted;
    var scanner := new Scanner(sources, feeds, max);
    scanner.Scan();
    segments := scanner.segments;
  }

  /** An address is inside a segment exactly when some source holds some feed there. */
  lemma InsideMeaning(segments: seq<Segment>, sources: seq<Source>, feeds: nat, max: nat, a: nat)
    requires Emitted(segments, sources, feeds, max + 1, max) && a <= max
    ensures (exists k: nat :: Inside(segments, k, a)) <==> exists g: nat :: g < feeds && CountAt(sources, |sources|, g, a) > 0
  {
    if k: nat :| Inside(segments, k, a) {
      var seg := segments[k];
      assert Exact(seg, sources, feeds, max);
      var g := seg.present[0];
      assert g in seg.present;
      assert seg.counts[g] == CountAt(sources, |sources|, g, a);
    }
  }
}
