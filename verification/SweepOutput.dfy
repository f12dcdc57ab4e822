/**
 The materialized output of the sweep (v4/go/internal/reader/algebra_output.go,
 algebraOutputSink): qualification, output positions, adjacent coalescing and interning.
 */
module SweepOutput {
  import opened Collections
  import opened Presence
  import opened SweepModel
  import opened Sweep
  import opened SweepAnalysis
  import opened SetPlan
  import opened AddressCount

  /** One set operation over one sweep; `preserve` keeps feeds, otherwise there is one flat feed. */
  datatype Job = Job(sources: seq<Source>, feeds: nat, max: nat, plan: Plan, preserve: bool)

  ghost predicate JobOk(job: Job) {
    SourcesOk(job.sources, job.feeds, job.max) && PlanOk(job.plan, job.feeds)
  }

  ghost function FeedsAt(job: Job, a: nat): set<nat> {
    set g: nat | g < job.feeds && CountAt(job.sources, |job.sources|, g, a) > 0
  }

  /** The output membership of one address: the operation, evaluated at that address alone. */
  ghost function Wanted(job: Job, catalog: seq<nat>, a: nat): set<nat> {
    if job.preserve then Places(catalog, Kept(job.plan, FeedsAt(job, a), job.feeds))
    else if Qualified(job.plan, FeedsAt(job, a), job.feeds) then {0} else {}
  }

  ghost function WantedSet(job: Job, catalog: seq<nat>): set<nat> {
    set a: nat | a <= job.max && Wanted(job, catalog, a) != {}
  }

  lemma WantedSome(job: Job, catalog: seq<nat>, a: nat)
    requires Elements(catalog) == Chosen(Target(job.plan), job.feeds)
    ensures Wanted(job, catalog, a) != {} <==> Qualified(job.plan, FeedsAt(job, a), job.feeds)
  {
    var kept := Kept(job.plan, FeedsAt(job, a), job.feeds);
    KeptSome(job.plan, FeedsAt(job, a), job.feeds);
    if g :| g in kept {
      assert g in Elements(catalog);
      var j :| 0 <= j < |catalog| && catalog[j] == g;
      assert j in Places(catalog, kept);
    }
  }

  // ----- the three operations as sets of addresses

  /**
   What an operation is to yield, on whole sets: a union what its selection covers, an exclusion
   what the included feeds cover less what the excluded ones do, an intersection what every
   selected feed covers, and nothing if none is selected.
   */
  ghost predicate ResultOf(job: Job, result: set<nat>) {
    match job.plan
    case Union(s) => result == Covered(job.sources, s, job.feeds, job.max)
    case Exclusion(i, e) => result == Covered(job.sources, i, job.feeds, job.max) - Covered(job.sources, e, job.feeds, job.max)
    case Intersection(s) =>
      forall a: nat {:trigger a in result} :: a in result <==>
        && (exists g: nat :: g < job.feeds && Selects(s, g))
        && a <= job.max
        && (forall g: nat :: g < job.feeds && Selects(s, g) ==> a in FeedAddresses(job.sources, g, job.max))
  }

  lemma AnyHere(job: Job, s: Selection, a: nat)
    requires a <= job.max
    ensures Chosen(s, job.feeds) * FeedsAt(job, a) != {} <==> a in Covered(job.sources, s, job.feeds, job.max)
  {
    if g :| g in Chosen(s, job.feeds) * FeedsAt(job, a) {
      assert Covers(job.sources, s, job.feeds, a);
    }
    if Covers(job.sources, s, job.feeds, a) {
      var g: nat :| g < job.feeds && Selects(s, g) && CountAt(job.sources, |job.sources|, g, a) > 0;
      assert g in Chosen(s, job.feeds) * FeedsAt(job, a);
    }
  }

  /** A union yields what its selection covers. */
  lemma UnionMeans(job: Job, catalog: seq<nat>)
    requires job.plan.Union? && Elements(catalog) == Chosen(job.plan.selection, job.feeds)
    ensures WantedSet(job, catalog) == Covered(job.sources, job.plan.selection, job.feeds, job.max)
  {
    hide Chosen, FeedsAt, Covered, Wanted;
    forall a: nat | a <= job.max
      ensures Wanted(job, catalog, a) != {} <==> a in Covered(job.sources, job.plan.selection, job.feeds, job.max)
    {
      WantedSome(job, catalog, a);
      AnyHere(job, job.plan.selection, a);
    }
    CoveredBelow(job, job.plan.selection);
  }

  /** An exclusion yields what the included feeds cover and the excluded ones do not. */
  lemma ExclusionMeans(job: Job, catalog: seq<nat>)
    requires job.plan.Exclusion? && Elements(catalog) == Chosen(job.plan.included, job.feeds)
    ensures WantedSet(job, catalog) ==
      Covered(job.sources, job.plan.included, job.feeds, job.max) - Covered(job.sources, job.plan.excluded, job.feeds, job.max)
  {
    hide Chosen, FeedsAt, Covered, Wanted;
    forall a: nat | a <= job.max
      ensures Wanted(job, catalog, a) != {} <==>
        a in Covered(job.sources, job.plan.included, job.feeds, job.max) && a !in Covered(job.sources, job.plan.excluded, job.feeds, job.max)
    {
      WantedSome(job, catalog, a);
      AnyHere(job, job.plan.included, a);
      AnyHere(job, job.plan.excluded, a);
    }
    CoveredBelow(job, job.plan.included);
  }

  lemma CoveredBelow(job: Job, s: Selection)
    ensures forall a :: a in Covered(job.sources, s, job.feeds, job.max) ==> a <= job.max
  {
  }

  /** An intersection yields the addresses every chosen feed covers, and nothing if none is chosen. */
  lemma IntersectionMeans(job: Job, catalog: seq<nat>, a: nat)
    requires job.plan.Intersection? && Elements(catalog) == Chosen(job.plan.selection, job.feeds)
    ensures
      a in WantedSet(job, catalog) <==>
        && (exists g: nat :: g < job.feeds && Selects(job.plan.selection, g))
        && a <= job.max
        && (forall g: nat :: g < job.feeds && Selects(job.plan.selection, g) ==> a in FeedAddresses(job.sources, g, job.max))
  {
    WantedSome(job, catalog, a);
    var s := job.plan.selection;
    var chosen := Chosen(s, job.feeds);
    assert chosen != {} <==> exists g: nat :: g < job.feeds && Selects(s, g) by {
      if g: nat :| g < job.feeds && Selects(s, g) { assert g in chosen; }
    }
    if a <= job.max {
      forall g: nat | g < job.feeds && Selects(s, g)
        ensures g in chosen && (g in FeedsAt(job, a) <==> a in FeedAddresses(job.sources, g, job.max))
      {
      }
    }
  }

  lemma OperationMeans(job: Job, catalog: seq<nat>)
    requires Elements(catalog) == Chosen(Target(job.plan), job.feeds)
    ensures ResultOf(job, WantedSet(job, catalog))
  {
    hide WantedSet, Covered, FeedAddresses, Chosen, Selects;
    match job.plan
    case Union(_) => UnionMeans(job, catalog);
    case Exclusion(_, _) => ExclusionMeans(job, catalog);
    case Intersection(s) =>
      forall a: nat
        ensures a in WantedSet(job, catalog) <==>
          && (exists g: nat :: g < job.feeds && Selects(s, g))
          && a <= job.max
          && (forall g: nat :: g < job.feeds && Selects(s, g) ==> a in FeedAddresses(job.sources, g, job.max))
      {
        IntersectionMeans(job, catalog, a);
      }
  }

  /** Which feeds an address of the result carries: with feeds kept, those of the catalog that cover it; else one flat feed. */
  lemma WantedMeans(job: Job, catalog: seq<nat>, a: nat, j: nat)
    requires Elements(catalog) == Chosen(Target(job.plan), job.feeds)
    requires a in WantedSet(job, catalog)
    ensures job.preserve ==> (j in Wanted(job, catalog, a) <==> j < |catalog| && a in FeedAddresses(job.sources, catalog[j], job.max))
    ensures !job.preserve ==> (j in Wanted(job, catalog, a) <==> j == 0)
  {
    WantedSome(job, catalog, a);
    if j < |catalog| {
      assert catalog[j] in Elements(catalog);
    }
  }

  // ----- membership words

  datatype Piece = Piece(from: nat, to: nat, positions: seq<nat>)

  datatype Range = Range(from: nat, to: nat, membership: nat)

  /** A 64-bit word as the set of its one bits. */
  type Words = seq<set<nat>>

  ghost predicate WordsHave(words: Words, x: nat) {
    x / 64 < |words| && x % 64 in words[x / 64]
  }

  ghost predicate Encodes(words: Words, positions: seq<nat>) {
    && positions != [] && |words| == positions[|positions| - 1] / 64 + 1
    && (forall x: nat {:trigger WordsHave(words, x)} :: WordsHave(words, x) <==> x in positions)
    && (forall w, b {:trigger b in words[w]} :: 0 <= w < |words| && b in words[w] ==> b < 64)
  }

  method PositionWords(positions: seq<nat>) returns (words: Words)
    requires Ascending(positions) && positions != []
    ensures |words| == positions[|positions| - 1] / 64 + 1
    ensures forall w, b {:trigger b in words[w]} :: 0 <= w < |words| ==> (b in words[w] <==> 0 <= b < 64 && 64 * w + b in positions)
    ensures Encodes(words, positions)
  {
    var last := positions[|positions| - 1];
    words := seq(last / 64 + 1, _ => {});
    for i := 0 to |positions|
      invariant |words| == last / 64 + 1
      invariant forall w, b {:trigger b in words[w]} :: 0 <= w < |words| && b in words[w] ==> b < 64
      invariant forall x: nat {:trigger WordsHave(words, x)} :: WordsHave(words, x) <==> x in positions[..i]
    {
      var position := positions[i];
      assert position <= last;
      ghost var before := words;
      words := words[position / 64 := words[position / 64] + {position % 64}];
      forall x: nat
        ensures WordsHave(words, x) <==> x in positions[..i + 1]
      {
        assert WordsHave(before, x) <==> x in positions[..i];
        assert x / 64 == position / 64 && x % 64 == position % 64 ==> x == position;
      }
    }
    assert positions[..|positions|] == positions;
    forall w, b | 0 <= w < |words|
      ensures b in words[w] <==> 0 <= b < 64 && 64 * w + b in positions
    {
      if 0 <= b < 64 {
        var x := 64 * w + b;
        assert x / 64 == w && x % 64 == b;
        assert WordsHave(words, x) <==> x in positions;
      }
    }
  }

  lemma {:induction false} AscendingUnique(p: seq<nat>, q: seq<nat>)
    requires Ascending(p) && Ascending(q) && forall x :: x in p <==> x in q
    ensures p == q
  {
    assert Elements(p) == Elements(q) && Distinct(p) && Distinct(q);
    ElementsSize(p);
    ElementsSize(q);
    if p == [] {
      assert |q| == 0;
    } else {
      var m, n := |p| - 1, |q| - 1;
      assert p[m] in q && q[n] in p;
      assert p[m] == q[n] by { LastIsGreatest(p, q[n]); LastIsGreatest(q, p[m]); }
      forall x
        ensures x in p[..m] <==> x in q[..n]
      {
        WithoutLast(p, x);
        WithoutLast(q, x);
      }
      AscendingUnique(p[..m], q[..n]);
    }
  }

  lemma LastIsGreatest(p: seq<nat>, x: nat)
    requires Ascending(p) && x in p
    ensures x <= p[|p| - 1]
  {
  }

  lemma WithoutLast(p: seq<nat>, x: nat)
    requires Ascending(p) && p != []
    ensures x in p[..|p| - 1] <==> x in p && x != p[|p| - 1]
  {
  }

  lemma EncodesOnce(words: Words, p: seq<nat>, q: seq<nat>)
    requires Ascending(p) && Ascending(q) && Encodes(words, p) && Encodes(words, q)
    ensures p == q
  {
    forall x ensures x in p <==> x in q { assert WordsHave(words, x) <==> x in p; }
    AscendingUnique(p, q);
  }

  lemma EncodedOnce(v: Words, w: Words, p: seq<nat>)
    requires Encodes(v, p) && Encodes(w, p)
    ensures v == w
  {
    forall i | 0 <= i < |v|
      ensures v[i] == w[i]
    {
      forall b: nat
        ensures b in v[i] <==> b in w[i]
      {
        if b < 64 {
          var x := 64 * i + b;
          assert x / 64 == i && x % 64 == b;
          assert WordsHave(v, x) <==> WordsHave(w, x);
        }
      }
    }
  }

  // ----- pieces

  predicate InPiece(pieces: seq<Piece>, k: nat, a: nat) {
    k < |pieces| && pieces[k].from <= a <= pieces[k].to
  }

  ghost predicate PieceOk(job: Job, catalog: seq<nat>, p: Piece) {
    && p.from <= p.to <= job.max && Ascending(p.positions) && p.positions != []
    && forall a: nat {:trigger Wanted(job, catalog, a)} :: p.from <= a <= p.to ==> Wanted(job, catalog, a) == Elements(p.positions)
  }

  /** Exact, ascending, and never two neighbours that could be one. */
  ghost predicate PiecesOk(job: Job, catalog: seq<nat>, pieces: seq<Piece>, upto: nat) {
    && (forall k {:trigger pieces[k]} :: 0 <= k < |pieces| ==> PieceOk(job, catalog, pieces[k]) && pieces[k].to < upto)
    && (forall i, j {:trigger pieces[i], pieces[j]} :: 0 <= i < j < |pieces| ==> pieces[i].to < pieces[j].from)
    && (forall i, j {:trigger pieces[i], pieces[j]} :: 0 <= i < j < |pieces| && pieces[i].to + 1 == pieces[j].from ==> pieces[i].positions != pieces[j].positions)
    && (forall a: nat {:trigger Wanted(job, catalog, a)} :: a < upto && Wanted(job, catalog, a) != {} ==> exists k: nat :: InPiece(pieces, k, a))
  }

  lemma PiecesSkip(job: Job, catalog: seq<nat>, pieces: seq<Piece>, lo: nat, hi: nat)
    requires PiecesOk(job, catalog, pieces, lo) && lo <= hi
    requires forall a: nat {:trigger Wanted(job, catalog, a)} :: lo <= a < hi ==> Wanted(job, catalog, a) == {}
    ensures PiecesOk(job, catalog, pieces, hi)
  {
  }

  lemma PiecesAppend(job: Job, catalog: seq<nat>, pieces: seq<Piece>, p: Piece)
    requires PiecesOk(job, catalog, pieces, p.from) && PieceOk(job, catalog, p)
    requires pieces != [] && pieces[|pieces| - 1].to + 1 == p.from ==> pieces[|pieces| - 1].positions != p.positions
    ensures PiecesOk(job, catalog, pieces + [p], p.to + 1)
  {
    var all := pieces + [p];
    forall i | 0 <= i < |pieces| - 1
      ensures pieces[i].to + 1 < p.from
    {
      assert pieces[i].to < pieces[|pieces| - 1].from;
      assert PieceOk(job, catalog, pieces[|pieces| - 1]);
    }
    forall a: nat | a < p.to + 1 && Wanted(job, catalog, a) != {}
      ensures exists k: nat :: InPiece(all, k, a)
    {
      if a < p.from {
        var k: nat :| InPiece(pieces, k, a);
        assert InPiece(all, k, a);
      } else {
        assert InPiece(all, |pieces|, a);
      }
    }
  }

  /** Widening the last piece over a segment with the same positions. */
  lemma PiecesWiden(job: Job, catalog: seq<nat>, pieces: seq<Piece>, p: Piece, q: Piece)
    requires PiecesOk(job, catalog, pieces + [p], q.from) && PieceOk(job, catalog, q)
    requires p.to + 1 == q.from && p.positions == q.positions
    ensures PiecesOk(job, catalog, pieces + [Piece(p.from, q.to, p.positions)], q.to + 1)
  {
    var was, all := pieces + [p], pieces + [Piece(p.from, q.to, p.positions)];
    assert was[|pieces|] == p;
    assert PieceOk(job, catalog, all[|pieces|]);
    forall k | 0 <= k < |pieces|
      ensures was[k] == pieces[k] && all[k] == pieces[k]
    {
    }
    forall a: nat | a < q.to + 1 && Wanted(job, catalog, a) != {}
      ensures exists k: nat :: InPiece(all, k, a)
    {
      if a < q.from {
        var k: nat :| InPiece(was, k, a);
        assert InPiece(all, k, a);
      } else {
        assert InPiece(all, |pieces|, a);
      }
    }
  }

  // ----- interned memberships

  ghost predicate Coded(table: seq<Words>, id: nat, positions: seq<nat>) {
    1 <= id <= |table| && Encodes(table[id - 1], positions)
  }

  ghost predicate TableOk(table: seq<Words>) {
    forall i, j :: 0 <= i < j < |table| ==> table[i] != table[j]
  }

  ghost predicate CacheOk(cache: map<seq<nat>, nat>, table: seq<Words>) {
    forall p {:trigger p in cache} :: p in cache ==> Coded(table, cache[p], p)
  }

  ghost predicate Pushed(ranges: seq<Range>, pieces: seq<Piece>, table: seq<Words>) {
    && |ranges| == |pieces|
    && forall k {:trigger ranges[k]} {:trigger pieces[k]} :: 0 <= k < |ranges| ==>
         ranges[k].from == pieces[k].from && ranges[k].to == pieces[k].to && Coded(table, ranges[k].membership, pieces[k].positions)
  }

  /** The intern bridge of the writer: equal words share one identifier. */
  method Intern(table: seq<Words>, words: Words) returns (id: nat, grown: seq<Words>)
    requires TableOk(table)
    ensures TableOk(grown) && table <= grown && 1 <= id <= |grown| && grown[id - 1] == words
  {
    for i := 0 to |table|
      invariant forall j :: 0 <= j < i ==> table[j] != words
    {
      if table[i] == words {
        return i + 1, table;
      }
    }
    return |table| + 1, table + [words];
  }

  lemma Regrown(table: seq<Words>, grown: seq<Words>, cache: map<seq<nat>, nat>, ranges: seq<Range>, pieces: seq<Piece>, id: nat, positions: seq<nat>)
    requires table <= grown && CacheOk(cache, table) && Pushed(ranges, pieces, table)
    ensures CacheOk(cache, grown) && Pushed(ranges, pieces, grown)
    ensures Coded(table, id, positions) ==> Coded(grown, id, positions)
  {
  }

  lemma Remember(cache: map<seq<nat>, nat>, table: seq<Words>, positions: seq<nat>, id: nat)
    requires CacheOk(cache, table) && Coded(table, id, positions)
    ensures CacheOk(cache[positions := id], table)
  {
  }

  lemma Recall(cache: map<seq<nat>, nat>, table: seq<Words>, positions: seq<nat>)
    requires CacheOk(cache, table) && positions in cache
    ensures Coded(table, cache[positions], positions)
  {
  }

  lemma SegmentFeeds(job: Job, seg: Segment)
    requires Exact(seg, job.sources, job.feeds, job.max)
    ensures Listed(seg.present, seg.counts) && Distinct(seg.present) && |seg.counts| == job.feeds && seg.from <= seg.to <= job.max
    ensures forall a: nat {:trigger FeedsAt(job, a)} :: seg.from <= a <= seg.to ==> FeedsAt(job, a) == Elements(seg.present)
  {
    forall a: nat | seg.from <= a <= seg.to
      ensures FeedsAt(job, a) == Elements(seg.present)
    {
      forall g: nat
        ensures g in FeedsAt(job, a) <==> g in Elements(seg.present)
      {
        assert g < job.feeds ==> seg.counts[g] == CountAt(job.sources, |job.sources|, g, a);
        assert g in seg.present <==> g < job.feeds && seg.counts[g] > 0;
      }
    }
  }

  lemma GapCount(job: Job, catalog: seq<nat>, lo: nat, hi: nat)
    requires lo <= hi && forall a: nat {:trigger Wanted(job, catalog, a)} :: lo <= a < hi ==> Wanted(job, catalog, a) == {}
    ensures |Cut(WantedSet(job, catalog), hi)| == |Cut(WantedSet(job, catalog), lo)|
  {
    CutGap(WantedSet(job, catalog), lo, hi);
  }

  /** The wanted membership is the same throughout a segment, and empty where it does not qualify. */
  lemma SegmentWanted(job: Job, catalog: seq<nat>, globalToOutput: seq<nat>, seg: Segment, qualifies: bool)
    requires Exact(seg, job.sources, job.feeds, job.max) && Catalog(catalog, globalToOutput, job.plan, job.feeds)
    requires qualifies <==> Qualified(job.plan, Elements(seg.present), job.feeds)
    ensures forall a: nat {:trigger Wanted(job, catalog, a)} :: seg.from <= a <= seg.to ==> (Wanted(job, catalog, a) != {} <==> qualifies)
    ensures forall a :: seg.from <= a < seg.to + 1 ==> (a in WantedSet(job, catalog) <==> qualifies)
  {
    SegmentFeeds(job, seg);
    forall a: nat | seg.from <= a <= seg.to
      ensures Wanted(job, catalog, a) != {} <==> qualifies
    {
      WantedSome(job, catalog, a);
    }
  }

  lemma SegmentPiece(job: Job, catalog: seq<nat>, globalToOutput: seq<nat>, seg: Segment, current: seq<nat>)
    requires Exact(seg, job.sources, job.feeds, job.max) && Catalog(catalog, globalToOutput, job.plan, job.feeds)
    requires Qualified(job.plan, Elements(seg.present), job.feeds) && Ascending(current)
    requires if job.preserve then Elements(current) == Places(catalog, Kept(job.plan, Elements(seg.present), job.feeds)) else current == [0]
    ensures PieceOk(job, catalog, Piece(seg.from, seg.to, current))
  {
    SegmentFeeds(job, seg);
    SegmentWanted(job, catalog, globalToOutput, seg, true);
    assert Elements([0]) == {0};
    assert Wanted(job, catalog, seg.from) == Elements(current);
    assert current == [] ==> Elements(current) == {};
  }

  lemma LastBelow(job: Job, catalog: seq<nat>, pieces: seq<Piece>, upto: nat)
    requires PiecesOk(job, catalog, pieces, upto)
    ensures pieces != [] ==> pieces[|pieces| - 1].to < upto
  {
  }

  lemma OneIsAscending()
    ensures Ascending([0])
  {
  }

  class OutputSink {
    const limit: nat
    var pendingPositions: seq<nat>
    var pendingFrom: nat
    var pendingTo: nat
    var hasPending: bool
    var internedPositions: seq<nat>
    var internedMembership: nat
    var cache: map<seq<nat>, nat>
    var table: seq<Words>
    var ranges: seq<Range>
    var addresses: nat
    ghost var pieces: seq<Piece>

    constructor (limit: nat)
      ensures Interned() && !hasPending && ranges == [] && pieces == [] && addresses == 0
    {
      this.limit := limit;
      pendingPositions, pendingFrom, pendingTo, hasPending := [], 0, 0, false;
      internedPositions, internedMembership, cache, table := [], 0, map[], [];
      ranges, addresses, pieces := [], 0, [];
    }

    /** What has been pushed, and the memos that spare an interning. */
    ghost predicate Interned()
      reads this
    {
      && TableOk(table) && CacheOk(cache, table) && Pushed(ranges, pieces, table)
      && (internedPositions != [] ==> Coded(table, internedMembership, internedPositions))
      && (hasPending ==> pendingPositions != [] && Ascending(pendingPositions))
    }

    ghost function All(): seq<Piece>
      reads this
    {
      if hasPending then pieces + [Piece(pendingFrom, pendingTo, pendingPositions)] else pieces
    }

    /** Push the pending range under the identifier of its positions. */
    method Flush()
      requires Interned()
      modifies this
      ensures Interned() && !hasPending && All() == old(All()) && addresses == old(addresses)
    {
      hide TableOk, Encodes, Ascending, CacheOk;
      if !hasPending {
        return;
      }
      hasPending := false;
      var membership := internedMembership;
      if pendingPositions != internedPositions {
        if pendingPositions in cache {
          Recall(cache, table, pendingPositions);
          membership := cache[pendingPositions];
        } else {
          var words := PositionWords(pendingPositions);
          ghost var before := table;
          membership, table := Intern(table, words);
          Regrown(before, table, cache, ranges, pieces, internedMembership, internedPositions);
          if |cache| < limit {
            Remember(cache, table, pendingPositions, membership);
            cache := cache[pendingPositions := membership];
          }
        }
        internedPositions, internedMembership := pendingPositions, membership;
      }
      ranges := ranges + [Range(pendingFrom, pendingTo, membership)];
      pieces := pieces + [Piece(pendingFrom, pendingTo, pendingPositions)];
      pendingPositions := [];
    }

    /** Everything handed over so far, up to address `upto`. */
    ghost predicate Valid(job: Job, catalog: seq<nat>, upto: nat)
      reads this
    {
      && Interned() && PiecesOk(job, catalog, All(), upto) && addresses == |Cut(WantedSet(job, catalog), upto)|
      && (!hasPending && pieces != [] ==> pieces[|pieces| - 1].to + 1 < upto)
    }

    /** Fold one segment into the pending output membership. */
    method Fold(job: Job, ghost catalog: seq<nat>, globalToOutput: seq<nat>, seg: Segment, ghost upto: nat)
      requires JobOk(job) && Catalog(catalog, globalToOutput, job.plan, job.feeds)
      requires Valid(job, catalog, upto) && Exact(seg, job.sources, job.feeds, job.max) && upto <= seg.from
      requires forall a: nat {:trigger Wanted(job, catalog, a)} :: upto <= a < seg.from ==> Wanted(job, catalog, a) == {}
      modifies this
      ensures Valid(job, catalog, seg.to + 1)
    {
      hide SourcesOk, PlanOk, Catalog, TableOk, CacheOk, Pushed, PiecesOk, PieceOk, Encodes, Ascending, Cut, Wanted, WantedSet, Exact,
        Listed, Distinct, Elements, Qualified, Kept, Places, Coded;
      SegmentFeeds(job, seg);
      PiecesSkip(job, catalog, All(), upto, seg.from);
      GapCount(job, catalog, upto, seg.from);
      LastBelow(job, catalog, All(), seg.from);
      var qualifies := Qualifies(job.plan, seg.present, seg.counts);
      SegmentWanted(job, catalog, globalToOutput, seg, qualifies);
      CutStretch(WantedSet(job, catalog), seg.from, seg.to + 1, qualifies);
      if !qualifies {
        PiecesSkip(job, catalog, All(), seg.from, seg.to + 1);
        Flush();
        return;
      }
      var current := [0];
      if job.preserve {
        current := FillOutput(job.plan, seg.present, seg.counts, catalog, globalToOutput);
      } else {
        OneIsAscending();
      }
      addresses := addresses + (seg.to - seg.from + 1);
      SegmentPiece(job, catalog, globalToOutput, seg, current);
      if hasPending && pendingTo + 1 == seg.from && current == pendingPositions {
        PiecesWiden(job, catalog, pieces, Piece(pendingFrom, pendingTo, pendingPositions), Piece(seg.from, seg.to, current));
        pendingTo := seg.to;
        return;
      }
      PiecesAppend(job, catalog, All(), Piece(seg.from, seg.to, current));
      Flush();
      pendingPositions := current;
      pendingFrom, pendingTo, hasPending := seg.from, seg.to, true;
    }
  }

  /** The ranges carry exactly the operation's value at every address, with no needless boundary. */
  ghost predicate Materialized(ranges: seq<Range>, table: seq<Words>, job: Job, catalog: seq<nat>) {
    && TableOk(table)
    && (forall k {:trigger ranges[k]} :: 0 <= k < |ranges| ==>
          ranges[k].from <= ranges[k].to <= job.max && 1 <= ranges[k].membership <= |table|)
    && (forall i, j {:trigger ranges[i], ranges[j]} :: 0 <= i < j < |ranges| ==>
          ranges[i].to < ranges[j].from && (ranges[i].to + 1 == ranges[j].from ==> ranges[i].membership != ranges[j].membership))
    && (forall i, j {:trigger ranges[i], ranges[j]} :: 0 <= i < j < |ranges| ==>
          (ranges[i].membership == ranges[j].membership <==> Wanted(job, catalog, ranges[i].from) == Wanted(job, catalog, ranges[j].from)))
    && (forall a: nat {:trigger Wanted(job, catalog, a)} :: a <= job.max && Wanted(job, catalog, a) != {} ==>
          exists k: nat :: Within(ranges, k, a))
    && (forall k: nat, a: nat {:trigger Within(ranges, k, a)} :: Within(ranges, k, a) ==>
          Wanted(job, catalog, a) != {} && Holding(table[ranges[k].membership - 1], Wanted(job, catalog, a)))
  }

  predicate Within(ranges: seq<Range>, k: nat, a: nat) {
    k < |ranges| && ranges[k].from <= a <= ranges[k].to
  }

  /** The words hold exactly the given positions. */
  ghost predicate Holding(words: Words, wanted: set<nat>) {
    forall x: nat {:trigger WordsHave(words, x)} :: WordsHave(words, x) <==> x in wanted
  }

  lemma PushedMaterialized(ranges: seq<Range>, pieces: seq<Piece>, table: seq<Words>, job: Job, catalog: seq<nat>)
    requires Pushed(ranges, pieces, table) && TableOk(table) && PiecesOk(job, catalog, pieces, job.max + 1)
    ensures Materialized(ranges, table, job, catalog)
  {
    forall i, j | 0 <= i < j < |ranges|
      ensures ranges[i].to < ranges[j].from && (ranges[i].to + 1 == ranges[j].from ==> ranges[i].membership != ranges[j].membership)
    {
      Distinguished(ranges, pieces, table, job, catalog, i, j);
    }
    forall i, j | 0 <= i < j < |ranges|
      ensures ranges[i].membership == ranges[j].membership <==> Wanted(job, catalog, ranges[i].from) == Wanted(job, catalog, ranges[j].from)
    {
      SharedIdentifier(ranges, pieces, table, job, catalog, i, j);
    }
    forall a: nat | a <= job.max && Wanted(job, catalog, a) != {}
      ensures exists k: nat :: Within(ranges, k, a)
    {
      var k: nat :| InPiece(pieces, k, a);
      assert Within(ranges, k, a);
    }
    forall k: nat, a: nat | Within(ranges, k, a)
      ensures 1 <= ranges[k].membership <= |table|
      ensures Wanted(job, catalog, a) != {} && Holding(table[ranges[k].membership - 1], Wanted(job, catalog, a))
    {
      assert PieceOk(job, catalog, pieces[k]) && Coded(table, ranges[k].membership, pieces[k].positions);
      assert Wanted(job, catalog, a) == Elements(pieces[k].positions);
      assert pieces[k].positions[0] in Elements(pieces[k].positions);
    }
    forall k | 0 <= k < |ranges|
      ensures ranges[k].from <= ranges[k].to <= job.max && 1 <= ranges[k].membership <= |table|
    {
      assert PieceOk(job, catalog, pieces[k]);
    }
  }

  /** Bit b of word w of a written range's membership is set exactly when its addresses carry output feed 64 * w + b. */
  lemma DecodedMeans(ranges: seq<Range>, table: seq<Words>, job: Job, catalog: seq<nat>, k: nat, a: nat, w: nat, b: nat)
    requires Materialized(ranges, table, job, catalog) && Elements(catalog) == Chosen(Target(job.plan), job.feeds)
    requires k < |ranges| && ranges[k].from <= a <= ranges[k].to && b < 64
    ensures 1 <= ranges[k].membership <= |table| && a in WantedSet(job, catalog)
    ensures
      var words := table[ranges[k].membership - 1];
      (w < |words| && b in words[w]) <==>
        if job.preserve then 64 * w + b < |catalog| && a in FeedAddresses(job.sources, catalog[64 * w + b], job.max)
        else w == 0 && b == 0
  {
    hide Wanted, FeedAddresses, Chosen, Elements;
    var x := 64 * w + b;
    assert x / 64 == w && x % 64 == b;
    assert Within(ranges, k, a);
    var words := table[ranges[k].membership - 1];
    assert Holding(words, Wanted(job, catalog, a));
    assert WordsHave(words, x) <==> x in Wanted(job, catalog, a);
    WantedMeans(job, catalog, a, x);
  }

  /** The ranges cover exactly the addresses of a set. */
  ghost predicate Written(ranges: seq<Range>, result: set<nat>) {
    forall a: nat {:trigger a in result} :: a in result <==> exists k: nat :: k < |ranges| && ranges[k].from <= a <= ranges[k].to
  }

  lemma WrittenMeans(ranges: seq<Range>, table: seq<Words>, job: Job, catalog: seq<nat>)
    requires Materialized(ranges, table, job, catalog)
    ensures Written(ranges, WantedSet(job, catalog))
  {
    hide Wanted;
    forall a: nat ensures a in WantedSet(job, catalog) <==> exists k: nat :: k < |ranges| && ranges[k].from <= a <= ranges[k].to {
      if k: nat :| k < |ranges| && ranges[k].from <= a <= ranges[k].to {
        assert Within(ranges, k, a);
      }
      if a in WantedSet(job, catalog) {
        var k: nat :| Within(ranges, k, a);
        assert k < |ranges| && ranges[k].from <= a <= ranges[k].to;
      }
    }
  }

  /** Ranges share an identifier exactly when they carry the same membership. */
  lemma SharedIdentifier(ranges: seq<Range>, pieces: seq<Piece>, table: seq<Words>, job: Job, catalog: seq<nat>, i: nat, j: nat)
    requires Pushed(ranges, pieces, table) && TableOk(table) && PiecesOk(job, catalog, pieces, job.max + 1) && i < j < |ranges|
    ensures ranges[i].membership == ranges[j].membership <==> Wanted(job, catalog, ranges[i].from) == Wanted(job, catalog, ranges[j].from)
  {
    hide Encodes, Wanted, Ascending, Elements;
    var p, q := pieces[i], pieces[j];
    assert PieceOk(job, catalog, p) && PieceOk(job, catalog, q);
    assert Wanted(job, catalog, p.from) == Elements(p.positions) && Wanted(job, catalog, q.from) == Elements(q.positions);
    if ranges[i].membership == ranges[j].membership {
      EncodesOnce(table[ranges[i].membership - 1], p.positions, q.positions);
    }
    if Elements(p.positions) == Elements(q.positions) {
      SameElements(p.positions, q.positions);
      EncodedOnce(table[ranges[i].membership - 1], table[ranges[j].membership - 1], p.positions);
    }
  }

  lemma SameElements(p: seq<nat>, q: seq<nat>)
    requires Ascending(p) && Ascending(q) && Elements(p) == Elements(q)
    ensures p == q
  {
    forall x ensures x in p <==> x in q { assert x in Elements(p) <==> x in Elements(q); }
    AscendingUnique(p, q);
  }

  lemma Distinguished(ranges: seq<Range>, pieces: seq<Piece>, table: seq<Words>, job: Job, catalog: seq<nat>, i: nat, j: nat)
    requires Pushed(ranges, pieces, table) && PiecesOk(job, catalog, pieces, job.max + 1) && i < j < |ranges|
    ensures ranges[i].to < ranges[j].from
    ensures ranges[i].to + 1 == ranges[j].from ==> ranges[i].membership != ranges[j].membership
  {
    var p, q := pieces[i], pieces[j];
    assert PieceOk(job, catalog, p) && PieceOk(job, catalog, q);
    if ranges[i].membership == ranges[j].membership {
      EncodesOnce(table[ranges[i].membership - 1], p.positions, q.positions);
    }
  }

  /** Fold every segment into one sink, then flush it. */
  method Collect(job: Job, ghost catalog: seq<nat>, globalToOutput: seq<nat>, segments: seq<Segment>, cacheLimit: nat)
    returns (ranges: seq<Range>, table: seq<Words>, addresses: nat, ghost pieces: seq<Piece>)
    requires JobOk(job) && Catalog(catalog, globalToOutput, job.plan, job.feeds)
    requires Emitted(segments, job.sources, job.feeds, job.max + 1, job.max)
    ensures Pushed(ranges, pieces, table) && TableOk(table) && PiecesOk(job, catalog, pieces, EndOf(segments, |segments|))
    ensures addresses == |Cut(WantedSet(job, catalog), EndOf(segments, |segments|))|
  {
    hide SourcesOk, PlanOk, PiecesOk, Pushed, TableOk, CacheOk, Cut, Wanted, WantedSet, Coded, Emitted, Exact, Catalog, Ascending, Elements, Chosen;
    var sink := new OutputSink(cacheLimit);
    NoPieces(job, catalog);
    for i := 0 to |segments|
      invariant fresh(sink) && sink.Valid(job, catalog, EndOf(segments, i))
    {
      NotWantedBetween(job, catalog, globalToOutput, segments, i);
      sink.Fold(job, catalog, globalToOutput, segments[i], EndOf(segments, i));
    }
    sink.Flush();
    ranges, table, addresses, pieces := sink.ranges, sink.table, sink.addresses, sink.pieces;
  }

  /** The whole materialization: one sweep into one sink, then the terminal flush. */
  method Materialize(job: Job, cacheLimit: nat) returns (ranges: seq<Range>, table: seq<Words>, catalog: seq<nat>, addresses: nat)
    requires JobOk(job)
    ensures Ascending(catalog) && Elements(catalog) == Chosen(Target(job.plan), job.feeds)
    ensures Materialized(ranges, table, job, catalog) && addresses == |WantedSet(job, catalog)|
    ensures Written(ranges, WantedSet(job, catalog))
    ensures ResultOf(job, WantedSet(job, catalog))
  {
    hide SourcesOk, PlanOk, Materialized, PiecesOk, Pushed, TableOk, Cut, Wanted, WantedSet, Emitted, Exact, Catalog, Ascending, Elements, Chosen,
      ResultOf, Written;
    var globalToOutput;
    catalog, globalToOutput := BuildCatalog(job.plan, job.feeds);
    var segments := Segments(job.sources, job.feeds, job.max);
    ghost var pieces;
    ranges, table, addresses, pieces := Collect(job, catalog, globalToOutput, segments, cacheLimit);
    NotWantedBetween(job, catalog, globalToOutput, segments, |segments|);
    PiecesSkip(job, catalog, pieces, EndOf(segments, |segments|), job.max + 1);
    GapCount(job, catalog, EndOf(segments, |segments|), job.max + 1);
    CutWanted(job, catalog);
    PushedMaterialized(ranges, pieces, table, job, catalog);
    WrittenMeans(ranges, table, job, catalog);
    OperationMeans(job, catalog);
  }

  lemma NoPieces(job: Job, catalog: seq<nat>)
    ensures PiecesOk(job, catalog, [], 0) && |Cut(WantedSet(job, catalog), 0)| == 0
  {
    CutNone(WantedSet(job, catalog));
  }

  lemma CutWanted(job: Job, catalog: seq<nat>)
    ensures Cut(WantedSet(job, catalog), job.max + 1) == WantedSet(job, catalog)
  {
  }

  /** Where no source holds a feed, no operation wants a membership. */
  lemma NotWantedBetween(job: Job, catalog: seq<nat>, globalToOutput: seq<nat>, segments: seq<Segment>, n: nat)
    requires Emitted(segments, job.sources, job.feeds, job.max + 1, job.max) && n <= |segments|
    requires Catalog(catalog, globalToOutput, job.plan, job.feeds)
    ensures EndOf(segments, n) <= StartOf(segments, n, job.max)
    ensures n < |segments| ==> Exact(segments[n], job.sources, job.feeds, job.max)
    ensures forall a: nat {:trigger Wanted(job, catalog, a)} :: EndOf(segments, n) <= a < StartOf(segments, n, job.max) ==> Wanted(job, catalog, a) == {}
  {
    Gap(segments, n, job.sources, All, job.feeds, job.max);
    forall a: nat | EndOf(segments, n) <= a < StartOf(segments, n, job.max)
      ensures Wanted(job, catalog, a) == {}
    {
      StartBound(segments, n, job);
      assert a !in Covered(job.sources, All, job.feeds, job.max);
      assert FeedsAt(job, a) == {};
      WantedSome(job, catalog, a);
    }
  }

  lemma StartBound(segments: seq<Segment>, n: nat, job: Job)
    requires Emitted(segments, job.sources, job.feeds, job.max + 1, job.max) && n <= |segments|
    ensures StartOf(segments, n, job.max) <= job.max + 1
  {
    if n < |segments| {
      assert Exact(segments[n], job.sources, job.feeds, job.max);
    }
  }
}
