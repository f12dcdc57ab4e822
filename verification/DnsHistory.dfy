/**
 What the resolver said against what the pool made of it (src/ipset_dns.c): every address of
 every answer reaches the set, and a request is retried exactly as long as it should be. The
 histories are read off the actions of a run, not kept by the pool.
 */
module DnsHistory {
  import opened DnsPool

  /** The worker a step is about looks a request up, and the step is the resolver's word on it. */
  ghost predicate Hears(s: State, a: Action) {
    a.Work? && a.t in s.workers && s.workers[a.t].Looking? && (a.move.Answer? || a.move.NoAnswer?)
  }

  /** The step that starts the next batch. */
  ghost predicate Restarts(s: State, a: Action) {
    a.NextBatch? && s.main.Finished?
  }

  // ----- addresses

  /** The addresses a step's answer brings. */
  ghost function Given(s: State, a: Action): multiset<nat> {
    if Hears(s, a) && a.move.Answer? then multiset(a.move.addresses) else multiset{}
  }

  /** The address a step passes over because it cannot be used. */
  ghost function Thrown(s: State, a: Action): multiset<nat> {
    if a.Work? && a.t in s.workers && s.workers[a.t].Pushing? && s.workers[a.t].left != [] && a.move.Skip?
    then multiset{s.workers[a.t].left[0]} else multiset{}
  }

  /** Every address of every answer of the batch, each as often as it came. */
  ghost function Answered(actions: seq<Action>): multiset<nat> {
    if actions == [] then multiset{}
    else
      var s, a := Run(actions[..|actions| - 1]), actions[|actions| - 1];
      if Restarts(s, a) then multiset{} else Answered(actions[..|actions| - 1]) + Given(s, a)
  }

  ghost function Skipped(actions: seq<Action>): multiset<nat> {
    if actions == [] then multiset{}
    else
      var s, a := Run(actions[..|actions| - 1]), actions[|actions| - 1];
      if Restarts(s, a) then multiset{} else Skipped(actions[..|actions| - 1]) + Thrown(s, a)
  }

  ghost function HeldBy(w: Worker): multiset<nat> {
    if w.Pushing? then multiset(w.left) else multiset{}
  }

  ghost function Held(workers: map<nat, Worker>, t: nat): multiset<nat> {
    if t in workers then HeldBy(workers[t]) else multiset{}
  }

  /** What the workers below `n` have still to hand over. */
  ghost function InHand(workers: map<nat, Worker>, n: nat): multiset<nat> {
    if n == 0 then multiset{} else InHand(workers, n - 1) + Held(workers, n - 1)
  }

  lemma {:induction false} InHandUpdate(workers: map<nat, Worker>, t: nat, w: Worker, n: nat, x: nat)
    ensures t < n ==> InHand(workers[t := w], n)[x] + Held(workers, t)[x] == InHand(workers, n)[x] + HeldBy(w)[x]
    ensures t >= n ==> InHand(workers[t := w], n)[x] == InHand(workers, n)[x]
  {
    hide HeldBy;
    if n > 0 {
      InHandUpdate(workers, t, w, n - 1, x);
    }
  }

  lemma {:induction false} NoneInHand(workers: map<nat, Worker>, n: nat)
    requires forall t {:trigger workers[t]} :: t in workers ==> workers[t].Idle?
    ensures InHand(workers, n) == multiset{}
  {
    if n > 0 {
      NoneInHand(workers, n - 1);
    }
  }

  /** Everything the pool has of one address, wherever it is. */
  ghost function Total(s: State, n: nat, x: nat): nat {
    InHand(s.workers, n)[x] + multiset(s.replies)[x] + s.ipset[x]
  }

  lemma PushCount(a: nat, replies: seq<nat>, x: nat)
    ensures multiset([a] + replies)[x] == multiset(replies)[x] + if a == x then 1 else 0
  {
    assert multiset([a] + replies) == multiset{a} + multiset(replies);
  }

  lemma PopCount(left: seq<nat>, x: nat)
    requires left != []
    ensures multiset(left)[x] == multiset(left[1..])[x] + if left[0] == x then 1 else 0
  {
    assert left == [left[0]] + left[1..];
    PushCount(left[0], left[1..], x);
  }

  /** One worker's hand and the replies change; everything else stays. */
  lemma HandConserves(s: State, s': State, t: nat, w: Worker, n: nat, x: nat, given: nat, thrown: nat)
    requires t in s.workers && t < n && s'.workers == s.workers[t := w] && s'.ipset == s.ipset
    requires HeldBy(s.workers[t])[x] + multiset(s.replies)[x] + given == HeldBy(w)[x] + multiset(s'.replies)[x] + thrown
    ensures Total(s, n, x) + given == Total(s', n, x) + thrown
  {
    hide InHand, HeldBy;
    InHandUpdate(s.workers, t, w, n, x);
  }

  lemma PushingConserves(s: State, t: nat, move: Move, n: nat, x: nat)
    requires t in s.workers && t < n && s.workers[t].Pushing?
    ensures Total(s, n, x) == Total(WorkerNext(s, t, s.workers[t], move), n, x) + Thrown(s, Work(t, move))[x]
  {
    hide InHand, Total;
    var w, s' := s.workers[t], WorkerNext(s, t, s.workers[t], move);
    if w.left == [] {
      assert multiset(w.left)[x] == 0;
      if s' != s { HandConserves(s, s', t, Idle, n, x, 0, 0); }
    } else {
      PopCount(w.left, x);
      PushCount(w.left[0], s.replies, x);
      if move.Skip? {
        HandConserves(s, s', t, s'.workers[t], n, x, 0, Thrown(s, Work(t, move))[x]);
      } else if move.Proceed? {
        HandConserves(s, s', t, s'.workers[t], n, x, 0, 0);
      }
    }
  }

  /** A worker's step: what it is given is in its hand, what it hands over is among the replies. */
  lemma WorkConserves(s: State, t: nat, move: Move, n: nat, x: nat)
    requires t in s.workers && t < n
    ensures
      var a := Work(t, move);
      Total(s, n, x) + Given(s, a)[x] == Total(WorkerNext(s, t, s.workers[t], move), n, x) + Thrown(s, a)[x]
  {
    hide InHand, Total;
    if s.workers[t].Pushing? {
      PushingConserves(s, t, move, n, x);
    } else {
      var s' := WorkerNext(s, t, s.workers[t], move);
      if s' != s { HandConserves(s, s', t, s'.workers[t], n, x, Given(s, Work(t, move))[x], 0); }
    }
  }

  lemma NothingWaits(s: State)
    requires Inv(s) && s.made == 0
    ensures s.replies == []
  {
    HandingIsBusy(s);
  }

  lemma EverybodyIdle(s: State)
    requires Inv(s) && s.pending == 0
    ensures forall t {:trigger s.workers[t]} :: t in s.workers ==> s.workers[t].Idle?
  {
    forall t | t in s.workers ensures s.workers[t].Idle? { BusyHere(s, t); }
  }

  /** A step of the main thread moves addresses from the replies to the set, and no other way. */
  lemma MainConserves(s: State, a: Action, n: nat, x: nat)
    requires Inv(s) && !a.Work? && !Restarts(s, a)
    ensures Total(s, n, x) == Total(Next(s, a), n, x)
  {
    hide InHand, Inv;
    if a.AskDone? && s.made == 0 { NothingWaits(s); }
    if a.CreateWorker? && a.t !in s.workers { InHandUpdate(s.workers, a.t, Idle, n, x); }
  }

  ghost predicate Below(workers: map<nat, Worker>, n: nat) {
    forall t {:trigger t in workers} :: t in workers ==> t < n
  }

  lemma StepConserves(s: State, a: Action, n: nat, x: nat)
    requires Inv(s) && Below(s.workers, n) && !Restarts(s, a)
    ensures Total(s, n, x) + Given(s, a)[x] == Total(Next(s, a), n, x) + Thrown(s, a)[x]
  {
    hide Total, Inv;
    if a.Work? {
      if a.t in s.workers { WorkConserves(s, a.t, a.move, n, x); }
    } else {
      MainConserves(s, a, n, x);
    }
  }

  lemma Restarted(s: State, n: nat, x: nat)
    requires Inv(s) && s.main.Finished?
    ensures Total(Next(s, NextBatch), n, x) == 0
  {
    EverybodyIdle(s);
    NoneInHand(s.workers, n);
    hide Inv;
    assert multiset([])[x] == 0;
  }

  lemma WorkersStay(s: State, a: Action)
    ensures forall t {:trigger t in s.workers} :: t in s.workers ==> t in Next(s, a).workers
  {
  }

  /** Addresses are conserved in every interleaving: answered is passed over, in hand, waiting or in the set. */
  lemma {:induction false} Conserved(actions: seq<Action>, n: nat, x: nat)
    requires Below(Run(actions).workers, n)
    ensures Answered(actions)[x] == Skipped(actions)[x] + Total(Run(actions), n, x)
  {
    if actions == [] {
      NoneInHand(map[], n);
      assert multiset([])[x] == 0;
    } else {
      var before, a := actions[..|actions| - 1], actions[|actions| - 1];
      var s := Run(before);
      RunKeeps(before);
      hide Run, Inv, Total, Given, Thrown;
      assert Run(actions) == Next(s, a) by { RunLast(actions); }
      WorkersStay(s, a);
      if Restarts(s, a) {
        Restarted(s, n, x);
      } else {
        Conserved(before, n, x);
        StepConserves(s, a, n, x);
      }
    }
  }

  lemma RunLast(actions: seq<Action>)
    requires actions != []
    ensures Run(actions) == Next(Run(actions[..|actions| - 1]), actions[|actions| - 1])
  {
  }

  lemma {:induction false} SomeBound(workers: map<nat, Worker>) returns (n: nat)
    ensures Below(workers, n)
    decreases workers.Keys
  {
    n := 0;
    if t :| t in workers {
      n := SomeBound(workers - {t});
      n := if n > t then n else t + 1;
      forall u | u in workers ensures u < n { assert u == t || u in workers - {t}; }
    }
  }

  /**
   When dns_done has drained for the last time, the set has gained every address of every answer of
   the batch, as often as it came, except those passed over as unusable.
   */
  lemma NothingLost(actions: seq<Action>)
    ensures Run(actions).main.Finished? ==> Answered(actions) == Skipped(actions) + Run(actions).ipset
  {
    var s := Run(actions);
    if s.main.Finished? {
      AllEnded(actions);
      RunKeeps(actions);
      EverybodyIdle(s);
      var n := SomeBound(s.workers);
      NoneInHand(s.workers, n);
      hide Run, Inv, Answered, Skipped;
      forall x: nat ensures Answered(actions)[x] == (Skipped(actions) + s.ipset)[x] {
        Conserved(actions, n, x);
        assert multiset([])[x] == 0;
      }
    }
  }

  // ----- requests

  /** The host of every request the caller made in this batch and did not get back, by its number. */
  ghost function Requested(actions: seq<Action>): map<nat, nat> {
    if actions == [] then map[]
    else
      var s, a := Run(actions[..|actions| - 1]), actions[|actions| - 1];
      var before := Requested(actions[..|actions| - 1]);
      match a
      case Request(host) => if s.main.Reading? then before[s.next := host] else before
      case CreateFailed =>
        if s.main.Starting? && s.main.create && |s.workers| == 0 then before - {s.main.req.id} else before
      case NextBatch => if s.main.Finished? then map[] else before
      case _ => before
  }

  /** The pool's requests are the caller's, host by host. */
  lemma {:induction false} IssuedIs(actions: seq<Action>)
    ensures Run(actions).issued == Requested(actions)
  {
    if actions != [] {
      var before, a := actions[..|actions| - 1], actions[|actions| - 1];
      IssuedIs(before);
      RunKeeps(before);
      RunLast(actions);
      var s := Run(before);
      IssuedStep(s, a);
      hide Run, Inv, Next;
    }
  }

  lemma IssuedStep(s: State, a: Action)
    requires Inv(s)
    ensures Next(s, a).issued ==
      match a
      case Request(host) => if s.main.Reading? then s.issued[s.next := host] else s.issued
      case CreateFailed => if s.main.Starting? && s.main.create && |s.workers| == 0 then s.issued - {s.main.req.id} else s.issued
      case NextBatch => if s.main.Finished? then map[] else s.issued
      case _ => s.issued
  {
    hide Balanced, Requests, Delivered;
  }

  /** When the batch is over, the requests that ended are the caller's, each once and with its own host. */
  lemma RequestsEnded(actions: seq<Action>)
    ensures
      var s := Run(actions);
      s.main.Finished? ==>
        && Ids(s.done) == Requested(actions).Keys && Unlike(s.done)
        && forall i {:trigger s.done[i]} :: 0 <= i < |s.done| ==> s.done[i].id in Requested(actions) && Requested(actions)[s.done[i].id] == s.done[i].host
  {
    AllEnded(actions);
    IssuedIs(actions);
    EveryRequestOnce(actions);
    var s := Run(actions);
    hide Run, Requested;
    forall i | 0 <= i < |s.done| ensures Named(s.done[i], s.issued) {}
  }

  // ----- retries

  /** What the resolver said about one request, in order. */
  ghost function Said(actions: seq<Action>, id: nat): seq<Move> {
    if actions == [] then []
    else
      var s, a := Run(actions[..|actions| - 1]), actions[|actions| - 1];
      Said(actions[..|actions| - 1], id) + if Hears(s, a) && s.workers[a.t].req.id == id then [a.move] else []
  }

  /** Failures that may pass. */
  ghost predicate Temporary(h: seq<Move>) {
    forall i {:trigger h[i]} :: 0 <= i < |h| ==> h[i] == NoAnswer(true)
  }

  /** A last word after temporary failures only. */
  ghost predicate Closing(h: seq<Move>, last: Move) {
    h != [] && Temporary(h[..|h| - 1]) && h[|h| - 1] == last
  }

  ghost predicate Trying(r: Req, h: seq<Move>) {
    |h| == r.asked && Temporary(h)
  }

  ghost predicate WorkerTraced(w: Worker, h: seq<Move>) {
    match w
    case Idle => true
    case Looking(r) => Trying(r, h)
    case Failing(r, again) => |h| == r.asked && Closing(h, NoAnswer(again))
    case Pushing(r, _) => |h| == r.asked && h != [] && h[|h| - 1].Answer? && Closing(h, h[|h| - 1])
  }

  /** How a request may end: answered, refused for good, or failed for now on its 21st attempt. */
  ghost predicate Ends(h: seq<Move>) {
    && h != [] && |h| <= 21 && Temporary(h[..|h| - 1])
    && (h[|h| - 1].Answer? || h[|h| - 1] == NoAnswer(false) || (h[|h| - 1] == NoAnswer(true) && |h| == 21))
  }

  /** The history of every request, by its id. */
  type History = nat -> seq<Move>

  ghost predicate QueueTraced(queue: seq<Req>, h: History) {
    forall i {:trigger queue[i]} :: 0 <= i < |queue| ==> Trying(queue[i], h(queue[i].id))
  }

  ghost predicate WorkersTraced(workers: map<nat, Worker>, h: History) {
    forall t {:trigger workers[t]} :: t in workers && !workers[t].Idle? ==> WorkerTraced(workers[t], h(workers[t].req.id))
  }

  ghost predicate DoneTraced(done: seq<Req>, h: History) {
    forall i {:trigger done[i]} :: 0 <= i < |done| ==> Ends(h(done[i].id))
  }

  ghost predicate UnaskedTraced(next: nat, h: History) {
    forall id: nat {:trigger h(id)} :: id >= next ==> h(id) == []
  }

  ghost predicate Traced(s: State, h: History) {
    QueueTraced(s.queue, h) && WorkersTraced(s.workers, h) && DoneTraced(s.done, h) && UnaskedTraced(s.next, h)
  }

  ghost predicate Same(h: History, h': History) {
    forall id: nat {:trigger h'(id)} :: h'(id) == h(id)
  }

  lemma LongerHistory(h: seq<Move>, m: Move)
    requires Temporary(h)
    ensures Closing(h + [m], m) && (h + [m])[|h|] == m && |h + [m]| == |h| + 1
  {
    assert (h + [m])[..|h|] == h;
  }

  lemma ClosedIsTemporary(h: seq<Move>)
    requires Closing(h, NoAnswer(true))
    ensures Temporary(h)
  {
    forall i | 0 <= i < |h| ensures h[i] == NoAnswer(true) { if i < |h| - 1 { assert h[..|h| - 1][i] == h[i]; } }
  }

  lemma TracedTail(queue: seq<Req>, h: History)
    requires QueueTraced(queue, h) && queue != []
    ensures QueueTraced(queue[1..], h) && Trying(queue[0], h(queue[0].id))
  {
    hide Trying;
  }

  lemma TracedCons(r: Req, queue: seq<Req>, h: History)
    requires QueueTraced(queue, h) && Trying(r, h(r.id))
    ensures QueueTraced([r] + queue, h)
  {
    hide Trying;
    var q := [r] + queue;
    forall i | 0 <= i < |q| ensures Trying(q[i], h(q[i].id)) { if i > 0 { assert q[i] == queue[i - 1]; } }
  }

  lemma TracedWorker(workers: map<nat, Worker>, t: nat, w: Worker, h: History)
    requires WorkersTraced(workers, h) && (!w.Idle? ==> WorkerTraced(w, h(w.req.id)))
    ensures WorkersTraced(workers[t := w], h)
  {
    hide WorkerTraced;
  }

  lemma TracedDone(done: seq<Req>, r: Req, h: History)
    requires DoneTraced(done, h) && Ends(h(r.id))
    ensures DoneTraced(done + [r], h)
  {
    hide Ends;
  }

  lemma TracedSame(s: State, h: History, h': History)
    requires Traced(s, h) && Same(h, h')
    ensures Traced(s, h')
  {
    hide Trying, WorkerTraced, Ends;
  }

  /** The main thread's steps make, withdraw and forget requests; what was said stays. */
  lemma MainTraced(s: State, a: Action, h: History)
    requires Traced(s, h) && !a.Work?
    ensures Traced(Next(s, a), h)
  {
    hide QueueTraced, WorkersTraced, DoneTraced, WorkerNext, Trying, WorkerTraced, Ends, Drained;
    NoneTraced(h);
    match a
    case Request(host) =>
      var r := Req(s.next, host, TRIES, 0, DnsPool.Open);
      UnaskedOpen(r, h);
      TracedCons(r, s.queue, h);
    case CreateWorker(t) => TracedWorker(s.workers, t, Idle, h);
    case CreateFailed => if s.queue != [] { TracedTail(s.queue, h); }
    case Drain => DrainKeepsRequests(s);
    case _ =>
  }

  lemma DrainKeepsRequests(s: State)
    ensures var n := Drained(s); n.queue == s.queue && n.workers == s.workers && n.done == s.done && n.next == s.next
  {
  }

  lemma NoneTraced(h: History)
    ensures QueueTraced([], h) && DoneTraced([], h)
  {
  }

  lemma UnaskedOpen(r: Req, h: History)
    requires r.asked == 0 && h(r.id) == []
    ensures Trying(r, h(r.id))
  {
  }

  /** A worker's own steps, other than hearing: take a request, give it back, end it, hand addresses over. */
  lemma QuietTraced(s: State, t: nat, move: Move, h: History)
    requires Traced(s, h) && t in s.workers && WorkerOk(s.workers[t]) && !Hears(s, Work(t, move))
    ensures Traced(WorkerNext(s, t, s.workers[t], move), h)
  {
    hide QueueTraced, WorkersTraced, DoneTraced;
    var w, n := s.workers[t], WorkerNext(s, t, s.workers[t], move);
    if n != s {
      TracedHere(s.workers, t, h);
      if w.Idle? {
        TracedTail(s.queue, h);
      } else if w.Failing? {
        if w.again { ClosedIsTemporary(h(w.req.id)); }
        if n.queue != s.queue { TracedCons(n.queue[0], s.queue, h); } else { TracedDone(s.done, n.done[|s.done|], h); }
      } else if n.done != s.done {
        TracedDone(s.done, n.done[|s.done|], h);
      }
      TracedWorker(s.workers, t, n.workers[t], h);
    }
  }

  lemma TracedHere(workers: map<nat, Worker>, t: nat, h: History)
    requires WorkersTraced(workers, h) && t in workers
    ensures !workers[t].Idle? ==> WorkerTraced(workers[t], h(workers[t].req.id))
  {
    hide WorkerTraced;
  }

  /** The resolver's word on one request. */
  ghost predicate Grown(h: History, h': History, id: nat, move: Move) {
    h'(id) == h(id) + [move] && forall other: nat {:trigger h'(other)} :: other != id ==> h'(other) == h(other)
  }

  lemma HeardTraced(s: State, t: nat, move: Move, h: History, h': History)
    requires Traced(s, h) && Placed(s) && Hears(s, Work(t, move)) && Grown(h, h', s.workers[t].req.id, move)
    ensures Traced(WorkerNext(s, t, s.workers[t], move), h')
  {
    OnlyHere(s, t);
    TracedHere(s.workers, t, h);
    var n := WorkerNext(s, t, s.workers[t], move);
    LongerHistory(h(s.workers[t].req.id), move);
    assert WorkerTraced(n.workers[t], h'(n.workers[t].req.id));
    hide Placed, Trying, WorkerTraced, Ends;
  }

  /** A request in work is nowhere else. */
  lemma OnlyHere(s: State, t: nat)
    requires Placed(s) && t in s.workers && !s.workers[t].Idle?
    ensures forall i {:trigger s.queue[i]} :: 0 <= i < |s.queue| ==> s.queue[i].id != s.workers[t].req.id
    ensures forall i {:trigger s.done[i]} :: 0 <= i < |s.done| ==> s.done[i].id != s.workers[t].req.id
    ensures forall u {:trigger s.workers[u]} :: u in s.workers && u != t && !s.workers[u].Idle? ==> s.workers[u].req.id != s.workers[t].req.id
    ensures s.workers[t].req.id < s.next
  {
    InWorkHas(s.workers, t);
    forall i | 0 <= i < |s.queue| ensures s.queue[i].id != s.workers[t].req.id { assert s.queue[i].id in Ids(s.queue); }
    forall i | 0 <= i < |s.done| ensures s.done[i].id != s.workers[t].req.id { assert s.done[i].id in Ids(s.done); }
    assert Named(s.workers[t].req, s.issued);
  }

  ghost function Saids(actions: seq<Action>): History {
    (id: nat) => Said(actions, id)
  }

  lemma SaidNext(actions: seq<Action>, id: nat)
    requires actions != []
    ensures
      var before, a := actions[..|actions| - 1], actions[|actions| - 1];
      Said(actions, id) == Said(before, id) + if Hears(Run(before), a) && Run(before).workers[a.t].req.id == id then [a.move] else []
  {
  }

  lemma SaidsNext(actions: seq<Action>)
    requires actions != []
    ensures
      var before, a := actions[..|actions| - 1], actions[|actions| - 1];
      if Hears(Run(before), a) then Grown(Saids(before), Saids(actions), Run(before).workers[a.t].req.id, a.move)
      else Same(Saids(before), Saids(actions))
  {
    hide Said, Run;
    var before, a := actions[..|actions| - 1], actions[|actions| - 1];
    forall id: nat
      ensures Saids(actions)(id) == Saids(before)(id) + if Hears(Run(before), a) && Run(before).workers[a.t].req.id == id then [a.move] else []
    {
      SaidNext(actions, id);
    }
  }

  lemma WorkerIsOk(s: State, t: nat)
    requires Inv(s) && t in s.workers
    ensures WorkerOk(s.workers[t])
  {
  }

  /** One step of any kind. */
  lemma StepTraced(s: State, a: Action, h: History, h': History)
    requires Traced(s, h) && Inv(s) && Placed(s)
    requires if Hears(s, a) then Grown(h, h', s.workers[a.t].req.id, a.move) else Same(h, h')
    ensures Traced(Next(s, a), h')
  {
    hide Traced, Inv, Placed, Grown, Same, WorkerNext, Drained;
    if Hears(s, a) {
      HeardTraced(s, a.t, a.move, h, h');
    } else {
      TracedSame(s, h, h');
      if !a.Work? {
        MainTraced(s, a, h');
      } else if a.t in s.workers {
        WorkerIsOk(s, a.t);
        QuietTraced(s, a.t, a.move, h');
      }
    }
  }

  /** In every interleaving every request has been asked about exactly as it should. */
  lemma {:induction false} RunTraced(actions: seq<Action>)
    ensures Traced(Run(actions), Saids(actions))
  {
    if actions != [] {
      var before, a := actions[..|actions| - 1], actions[|actions| - 1];
      RunTraced(before);
      RunKeeps(before);
      EveryRequestOnce(before);
      RunLast(actions);
      SaidsNext(actions);
      hide Run, Traced, Inv, Placed, Saids, Grown, Same, Hears;
      StepTraced(Run(before), a, Saids(before), Saids(actions));
    }
  }

  /**
   When the batch is over, the resolver has spoken on every request of it like this: at most 20
   temporary failures, then an answer or a permanent failure; or exactly 21 temporary failures.
   */
  lemma RetriedExactly(actions: seq<Action>, id: nat)
    ensures Run(actions).main.Finished? && id in Requested(actions) ==> Ends(Said(actions, id))
  {
    var s := Run(actions);
    IssuedIs(actions);
    if s.main.Finished? && id in s.issued {
      AllEnded(actions);
      RunTraced(actions);
      assert id in Ids(s.done);
      var i :| 0 <= i < |s.done| && s.done[i].id == id;
      assert Ends(Saids(actions)(s.done[i].id));
    }
  }

  /** Before that, a request that waits has only failed for now, and at most 20 times. */
  lemma WaitingIsTemporary(actions: seq<Action>, i: nat)
    requires i < |Run(actions).queue|
    ensures Temporary(Said(actions, Run(actions).queue[i].id)) && |Said(actions, Run(actions).queue[i].id)| <= 20
  {
    RunTraced(actions);
    AttemptsBounded(actions);
    assert Trying(Run(actions).queue[i], Saids(actions)(Run(actions).queue[i].id));
  }
}
