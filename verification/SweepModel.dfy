/**
 What the ordered N-way membership sweep is about: sources, the feeds they hold at an
 address, and the state the sweep keeps for each source
 (v4/go/internal/reader/algebra.go).
 */
module SweepModel {
  import opened EventQueue
  import opened Presence

  /** One selected run of a source; `present` lists its local feeds. */
  datatype Run = Run(from: nat, to: nat, present: seq<nat>)

  datatype Source = Source(runs: seq<Run>, localToGlobal: seq<nat>)

  predicate RunOk(r: Run, localToGlobal: seq<nat>, max: nat) {
    r.from <= r.to <= max && r.present != [] && Locals(r.present, localToGlobal)
  }

  /** A source yields ascending disjoint runs, each with at least one feed. */
  predicate SourceOk(s: Source, feeds: nat, max: nat) {
    && Mapping(s.localToGlobal, feeds)
    && (forall i {:trigger s.runs[i]} :: 0 <= i < |s.runs| ==> RunOk(s.runs[i], s.localToGlobal, max))
    && (forall i, j {:trigger s.runs[i], s.runs[j]} :: 0 <= i < j < |s.runs| ==> s.runs[i].to < s.runs[j].from)
  }

  predicate SourcesOk(sources: seq<Source>, feeds: nat, max: nat) {
    forall i {:trigger sources[i]} :: 0 <= i < |sources| ==> SourceOk(sources[i], feeds, max)
  }

  /** Run `k` of the source carries global feed `g`. */
  ghost predicate RunHas(s: Source, k: nat, g: nat)
    requires k < |s.runs|
  {
    var r := s.runs[k];
    Locals(r.present, s.localToGlobal) && MapsTo(r.present, s.localToGlobal, |r.present|, g)
  }

  ghost predicate RunAt(s: Source, k: nat, a: nat) {
    k < |s.runs| && s.runs[k].from <= a <= s.runs[k].to
  }

  /** The source holds global feed `g` at address `a`. */
  ghost predicate HasFeed(s: Source, g: nat, a: nat) {
    exists k: nat :: RunAt(s, k, a) && RunHas(s, k, g)
  }

  /** The number of the first `n` sources holding global feed `g` at address `a`. */
  ghost function CountAt(sources: seq<Source>, n: nat, g: nat, a: nat): nat
    requires n <= |sources|
  {
    if n == 0 then 0 else CountAt(sources, n - 1, g, a) + One(HasFeed(sources[n - 1], g, a))
  }

  /** In plain terms: a run around the address lists a local feed that maps to the global one. */
  ghost predicate Carries(s: Source, g: nat, a: nat, k: nat, x: nat) {
    && k < |s.runs| && s.runs[k].from <= a <= s.runs[k].to
    && x < |s.runs[k].present| && s.runs[k].present[x] < |s.localToGlobal|
    && s.localToGlobal[s.runs[k].present[x]] == g
  }

  lemma FeedMeans(s: Source, g: nat, a: nat, feeds: nat, max: nat)
    requires SourceOk(s, feeds, max)
    ensures HasFeed(s, g, a) <==> exists k: nat, x: nat :: Carries(s, g, a, k, x)
  {
    if HasFeed(s, g, a) {
      var k: nat :| RunAt(s, k, a) && RunHas(s, k, g);
      var x :| 0 <= x < |s.runs[k].present| && s.localToGlobal[s.runs[k].present[x]] == g;
      assert Carries(s, g, a, k, x);
    }
    if k: nat, x: nat :| Carries(s, g, a, k, x) {
      assert RunOk(s.runs[k], s.localToGlobal, max);
      assert RunAt(s, k, a) && RunHas(s, k, g);
    }
  }

  lemma {:induction false} CountMeans(sources: seq<Source>, n: nat, g: nat, a: nat)
    requires n <= |sources|
    ensures CountAt(sources, n, g, a) == |set i: nat | i < n && HasFeed(sources[i], g, a)|
  {
    hide HasFeed;
    var these := set i: nat | i < n && HasFeed(sources[i], g, a);
    if n == 0 {
      assert these == {};
    } else {
      CountMeans(sources, n - 1, g, a);
      var fewer := set i: nat | i < n - 1 && HasFeed(sources[i], g, a);
      assert these == if HasFeed(sources[n - 1], g, a) then fewer + {n - 1} else fewer;
    }
  }

  /** A count is positive exactly when some source carries the feed there. */
  lemma CountSome(sources: seq<Source>, g: nat, a: nat, feeds: nat, max: nat)
    requires SourcesOk(sources, feeds, max)
    ensures CountAt(sources, |sources|, g, a) > 0 <==>
      exists i: nat, k: nat, x: nat :: i < |sources| && Carries(sources[i], g, a, k, x)
  {
    hide SourceOk, HasFeed, Carries;
    CountMeans(sources, |sources|, g, a);
    var these := set i: nat | i < |sources| && HasFeed(sources[i], g, a);
    forall i: nat | i < |sources| ensures HasFeed(sources[i], g, a) <==> exists k: nat, x: nat :: Carries(sources[i], g, a, k, x) {
      FeedMeans(sources[i], g, a, feeds, max);
    }
    if |these| > 0 {
      var i :| i in these;
      var k: nat, x: nat :| Carries(sources[i], g, a, k, x);
    }
    if i: nat, k: nat, x: nat :| i < |sources| && Carries(sources[i], g, a, k, x) {
      assert i in these;
    }
  }

  // ----- the sweep's state of one source

  datatype Cursor = Cursor(index: nat, active: bool)

  /** `e` is the boundary event the source waits for; a run to the last address awaits no end. */
  ghost predicate Awaits(s: Source, c: Cursor, e: Event, max: nat) {
    c.index < |s.runs| &&
    if c.active then s.runs[c.index].to != max && !e.start && e.at == s.runs[c.index].to + 1
    else e.start && e.at == s.runs[c.index].from
  }

  /** The address of the awaited event, or one past every address. */
  ghost function NextAt(s: Source, c: Cursor, max: nat): nat {
    if c.index >= |s.runs| then max + 1
    else if c.active then s.runs[c.index].to + 1
    else s.runs[c.index].from
  }

  /** All boundaries of the source below `at` are behind the cursor, none above it. */
  ghost predicate InOrder(s: Source, c: Cursor, at: int, max: nat) {
    && c.index <= |s.runs|
    && (c.active ==> c.index < |s.runs| && s.runs[c.index].from <= at)
    && (c.index > 0 ==> s.runs[c.index - 1].to < at)
    && at <= NextAt(s, c, max)
  }

  ghost predicate Holds(s: Source, c: Cursor, g: nat) {
    c.active && c.index < |s.runs| && RunHas(s, c.index, g)
  }

  lemma SameRun(s: Source, c: Cursor, at: int, a: nat, k: nat, feeds: nat, max: nat)
    requires SourceOk(s, feeds, max) && InOrder(s, c, at, max) && at <= a < NextAt(s, c, max) && RunAt(s, k, a)
    ensures k == c.index && c.active
  {
  }

  /** Until its next boundary the source holds exactly what its cursor says. */
  lemma HoldsUntil(s: Source, c: Cursor, at: int, a: nat, g: nat, feeds: nat, max: nat)
    requires SourceOk(s, feeds, max) && InOrder(s, c, at, max) && at <= a < NextAt(s, c, max)
    ensures HasFeed(s, g, a) <==> Holds(s, c, g)
  {
    if HasFeed(s, g, a) {
      var k: nat :| RunAt(s, k, a) && RunHas(s, k, g);
      SameRun(s, c, at, a, k, feeds, max);
    }
    if Holds(s, c, g) {
      assert RunAt(s, c.index, a);
    }
  }

  // ----- the state of all sources

  ghost function Tally(sources: seq<Source>, cursors: seq<Cursor>, n: nat, g: nat): nat
    requires n <= |sources| && n <= |cursors|
  {
    if n == 0 then 0 else Tally(sources, cursors, n - 1, g) + One(Holds(sources[n - 1], cursors[n - 1], g))
  }

  ghost predicate Awaited(sources: seq<Source>, cursors: seq<Cursor>, e: Event, max: nat) {
    && e.source < |sources| && e.source < |cursors|
    && Awaits(sources[e.source], cursors[e.source], e, max)
  }

  /** The queue holds every awaited event once, except `taken`, and nothing else. */
  ghost predicate Queued(queue: multiset<Event>, sources: seq<Source>, cursors: seq<Cursor>, taken: set<Event>, max: nat) {
    forall e {:trigger queue[e]} :: queue[e] == One(Awaited(sources, cursors, e, max) && e !in taken)
  }

  lemma {:induction false} TallyUpdate(sources: seq<Source>, cursors: seq<Cursor>, n: nat, i: nat, c: Cursor, g: nat)
    requires n <= |sources| && n <= |cursors| && i < |cursors| && i < |sources|
    ensures Tally(sources, cursors[i := c], n, g)
      == if i < n then Tally(sources, cursors, n, g) - One(Holds(sources[i], cursors[i], g)) + One(Holds(sources[i], c, g))
         else Tally(sources, cursors, n, g)
  {
    if n > 0 {
      TallyUpdate(sources, cursors, n - 1, i, c, g);
    }
  }

  lemma {:induction false} TallyAtLeast(sources: seq<Source>, cursors: seq<Cursor>, n: nat, i: nat, g: nat)
    requires n <= |sources| && n <= |cursors| && i < n
    ensures Tally(sources, cursors, n, g) >= One(Holds(sources[i], cursors[i], g))
  {
    if i < n - 1 {
      TallyAtLeast(sources, cursors, n - 1, i, g);
    }
  }

  lemma {:induction false} TallyWitness(sources: seq<Source>, cursors: seq<Cursor>, n: nat, g: nat) returns (i: nat)
    requires n <= |sources| && n <= |cursors| && Tally(sources, cursors, n, g) > 0
    ensures i < n && Holds(sources[i], cursors[i], g)
  {
    if Holds(sources[n - 1], cursors[n - 1], g) {
      i := n - 1;
    } else {
      i := TallyWitness(sources, cursors, n - 1, g);
    }
  }

  /** Every source is in order at `at`. */
  ghost predicate Swept(sources: seq<Source>, cursors: seq<Cursor>, at: int, max: nat) {
    |cursors| == |sources| && forall i {:trigger cursors[i]} :: 0 <= i < |sources| ==> InOrder(sources[i], cursors[i], at, max)
  }

  /** No source has a boundary before `limit`. */
  ghost predicate Quiet(sources: seq<Source>, cursors: seq<Cursor>, limit: int, max: nat) {
    |cursors| == |sources| && forall i {:trigger cursors[i]} :: 0 <= i < |sources| ==> limit <= NextAt(sources[i], cursors[i], max)
  }

  /** Between boundaries the tally of the cursors is the count of the sources, address by address. */
  lemma {:induction false} TallyIsCount(sources: seq<Source>, cursors: seq<Cursor>, n: nat, at: int, a: nat, limit: nat, g: nat, feeds: nat, max: nat)
    requires n <= |sources| && SourcesOk(sources, feeds, max)
    requires Swept(sources, cursors, at, max) && Quiet(sources, cursors, limit, max) && at <= a < limit
    ensures Tally(sources, cursors, n, g) == CountAt(sources, n, g, a)
  {
    if n > 0 {
      TallyIsCount(sources, cursors, n - 1, at, a, limit, g, feeds, max);
      assert InOrder(sources[n - 1], cursors[n - 1], at, max) && limit <= NextAt(sources[n - 1], cursors[n - 1], max);
      assert SourceOk(sources[n - 1], feeds, max);
      HoldsUntil(sources[n - 1], cursors[n - 1], at, a, g, feeds, max);
    }
  }

  /** Boundaries that a source still has to meet. */
  ghost function Remaining(sources: seq<Source>, cursors: seq<Cursor>, n: nat): int
    requires n <= |sources| && n <= |cursors|
  {
    if n == 0 then 0
    else Remaining(sources, cursors, n - 1) + 2 * (|sources[n - 1].runs| - cursors[n - 1].index) - One(cursors[n - 1].active)
  }

  lemma {:induction false} RemainingUpdate(sources: seq<Source>, cursors: seq<Cursor>, n: nat, i: nat, c: Cursor)
    requires n <= |sources| && n <= |cursors| && i < |cursors| && i < |sources|
    requires 2 * c.index + One(c.active) == 2 * cursors[i].index + One(cursors[i].active) + 1
    ensures Remaining(sources, cursors[i := c], n) == Remaining(sources, cursors, n) - One(i < n)
  {
    if n > 0 {
      RemainingUpdate(sources, cursors, n - 1, i, c);
    }
  }

  lemma {:induction false} RemainingNat(sources: seq<Source>, cursors: seq<Cursor>, n: nat, at: int, max: nat)
    requires n <= |sources| && Swept(sources, cursors, at, max)
    ensures Remaining(sources, cursors, n) >= 0
  {
    if n > 0 {
      RemainingNat(sources, cursors, n - 1, at, max);
      assert InOrder(sources[n - 1], cursors[n - 1], at, max);
    }
  }
}
