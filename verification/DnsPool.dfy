/**
 The DNS resolver pool (src/ipset_dns.c) as interleaved steps: one section under a lock, or
 one resolver call, is one step. Any number of workers, any number of batches; the
 resolver's answers are free.
 */
module DnsPool {
  import opened Collections

  /** Retries a new request is given. */
  const TRIES: nat := 20

  /** Why a request ended: answered, refused for good, or still failing after the last retry. */
  datatype End = Open | Resolved | Refused | GaveUp

  /** `id` tells requests for one host apart; `asked` counts the resolver calls made. */
  datatype Req = Req(id: nat, host: nat, tries: nat, asked: nat, end: End)

  datatype Worker =
    | Idle
    | Looking(req: Req)                                  // took a request, before the resolver call
    | Failing(req: Req, again: bool)                     // the resolver failed, perhaps for now
    | Pushing(req: Req, left: seq<nat>)                  // addresses still to hand over

  /** The main thread between its own steps. */
  datatype Main =
    | Reading                 // adding requests
    | Starting(req: Req, create: bool)  // queued a request; `create` if it is to start a worker
    | Waiting                 // in the loop of dns_done
    | Leaving                 // saw nothing pending, before the last drain
    | Finished

  datatype State = State(
    queue: seq<Req>, replies: seq<nat>, workers: map<nat, Worker>, main: Main,
    pending: int, made: int, finished: int,
    most: nat,                // the greatest number of workers
    issued: map<nat, nat>,    // the host of every request of this batch
    next: nat,                // the id of the next request
    done: seq<Req>,           // every request that was finished, as it was then
    ipset: multiset<nat>)     // the addresses added to the set, each as often as it was added

  /** What a worker does next; the resolver's answer is free. */
  datatype Move =
    | Take
    | Answer(addresses: seq<nat>)
    | NoAnswer(again: bool)
    | Skip                    // an address that cannot be used
    | Proceed

  datatype Action =
    | Request(host: nat)
    | SetThreads(most: nat)
    | CreateWorker(t: nat)
    | CreateFailed
    | NoWorker
    | Drain
    | AskDone
    | Poll
    | NextBatch
    | Work(t: nat, move: Move)

  function With(s: State, t: nat, w: Worker): State {
    s.(workers := s.workers[t := w])
  }

  /** dns_request_done. */
  function Ended(s: State, t: nat, req: Req, end: End): State {
    With(s.(pending := s.pending - 1, finished := s.finished + 1, done := s.done + [req.(end := end)]), t, Idle)
  }

  ghost function Drained(s: State): State {
    s.(ipset := s.ipset + multiset(s.replies), replies := [])
  }

  /** One step; an action that does not apply changes nothing. */
  ghost function Next(s: State, a: Action): State {
    match a
    case Request(host) =>
      if !s.main.Reading? then s
      else
        var req := Req(s.next, host, TRIES, 0, Open);
        s.(queue := [req] + s.queue, pending := s.pending + 1, made := s.made + 1, 
           main := Starting(req, s.pending + 1 > |s.workers| && |s.workers| < s.most),
           issued := s.issued[s.next := host], next := s.next + 1)
    case SetThreads(most) =>
      if s.main.Reading? && most >= 1 then s.(most := most) else s
    case CreateWorker(t) =>
      if !s.main.Starting? || !s.main.create || t in s.workers then s else With(s.(main := Reading), t, Idle)
    case CreateFailed =>
      if !s.main.Starting? || !s.main.create then s
      else if |s.workers| == 0 && s.queue != [] then
        s.(queue := s.queue[1..], pending := s.pending - 1, made := s.made - 1, main := Reading,
           issued := s.issued - {s.queue[0].id})
      else s.(main := Reading)
    case NoWorker =>
      if s.main.Starting? && !s.main.create then s.(main := Reading) else s
    case Drain =>
      if s.main.Reading? || s.main.Waiting? then Drained(s)
      else if s.main.Leaving? then Drained(s).(main := Finished)
      else s
    case AskDone =>
      if !s.main.Reading? then s
      else if s.made == 0 then s.(main := Finished, queue := [], replies := [])
      else s.(main := Waiting)
    case Poll =>
      if s.main.Waiting? && s.pending == 0 then s.(main := Leaving) else s
    case NextBatch =>
      // dns_reset_stats; the workers live on
      if !s.main.Finished? then s
      else
        s.(queue := [], replies := [], pending := 0, made := 0, finished := 0, main := Reading,
           issued := map[], done := [], ipset := multiset{})
    case Work(t, move) =>
      if t in s.workers then WorkerNext(s, t, s.workers[t], move) else s
  }

  /** One step of a worker; a move that does not apply changes nothing. */
  function WorkerNext(s: State, t: nat, w: Worker, move: Move): State {
    match w
    case Idle =>
      if move.Take? && s.queue != [] then With(s.(queue := s.queue[1..]), t, Looking(s.queue[0])) else s
    case Looking(req) =>
      var asked := req.(asked := req.asked + 1);
      if move.Answer? then With(s, t, Pushing(asked, move.addresses))
      else if move.NoAnswer? then With(s, t, Failing(asked, move.again))
      else s
    case Failing(req, again) =>
      if !move.Proceed? then s
      else if again && req.tries > 0 then With(s.(queue := [req.(tries := req.tries - 1)] + s.queue), t, Idle)
      else Ended(s, t, req, if again then GaveUp else Refused)
    case Pushing(req, left) =>
      if left == [] then if move.Proceed? then Ended(s, t, req, Resolved) else s
      else if move.Skip? then With(s, t, Pushing(req, left[1..]))
      else if move.Proceed? then
        With(s.(replies := [left[0]] + s.replies), t, Pushing(req, left[1..]))
      else s
  }

  function Initial(): State {
    State([], [], map[], Reading, 0, 0, 0, 5, map[], 0, [], multiset{})
  }

  ghost function Run(actions: seq<Action>): State {
    if actions == [] then Initial() else Next(Run(actions[..|actions| - 1]), actions[|actions| - 1])
  }

  // ----- the invariant

  ghost function Busy(s: State): set<nat> {
    set t | t in s.workers && !s.workers[t].Idle?
  }

  predicate Fresh(r: Req) {
    r.asked + r.tries == TRIES
  }

  predicate Asked(r: Req) {
    r.asked + r.tries == TRIES + 1 && r.tries <= TRIES
  }

  predicate WorkerOk(w: Worker) {
    match w
    case Idle => true
    case Looking(r) => Fresh(r)
    case Failing(r, _) => Asked(r)
    case Pushing(r, _) => Asked(r)
  }

  ghost predicate Requests(s: State) {
    && (forall i {:trigger s.queue[i]} :: 0 <= i < |s.queue| ==> Fresh(s.queue[i]))
    && (forall t {:trigger s.workers[t]} :: t in s.workers ==> WorkerOk(s.workers[t]))
    && (forall i {:trigger s.done[i]} :: 0 <= i < |s.done| ==> Asked(s.done[i]) && (s.done[i].end.GaveUp? ==> s.done[i].tries == 0))
  }

  // ----- where every request is

  ghost function Ids(q: seq<Req>): set<nat> {
    set i | 0 <= i < |q| :: q[i].id
  }

  ghost predicate Unlike(q: seq<Req>) {
    forall i, j {:trigger q[i], q[j]} :: 0 <= i < j < |q| ==> q[i].id != q[j].id
  }

  ghost function InWork(workers: map<nat, Worker>): set<nat> {
    set t | t in workers && !workers[t].Idle? :: workers[t].req.id
  }

  ghost predicate OneEach(workers: map<nat, Worker>) {
    forall t, u {:trigger workers[t], workers[u]} :: t in workers && u in workers && !workers[t].Idle? && !workers[u].Idle? && t != u ==>
      workers[t].req.id != workers[u].req.id
  }

  ghost predicate Named(r: Req, issued: map<nat, nat>) {
    r.id in issued && issued[r.id] == r.host
  }

  /** Each request of the batch, with its host, is queued, in work or done: in one place, and once. */
  ghost predicate Placed(s: State) {
    && Unlike(s.queue) && Unlike(s.done) && OneEach(s.workers)
    && Ids(s.queue) !! InWork(s.workers) && Ids(s.queue) !! Ids(s.done) && InWork(s.workers) !! Ids(s.done)
    && Ids(s.queue) + InWork(s.workers) + Ids(s.done) == s.issued.Keys
    && (forall id :: id in s.issued ==> id < s.next)
    && (forall i {:trigger s.queue[i]} :: 0 <= i < |s.queue| ==> Named(s.queue[i], s.issued))
    && (forall i {:trigger s.done[i]} :: 0 <= i < |s.done| ==> Named(s.done[i], s.issued))
    && (forall t {:trigger s.workers[t]} :: t in s.workers && !s.workers[t].Idle? ==> Named(s.workers[t].req, s.issued))
  }

  lemma IdsCons(r: Req, q: seq<Req>)
    ensures Ids([r] + q) == {r.id} + Ids(q)
    ensures Unlike([r] + q) <==> r.id !in Ids(q) && Unlike(q)
  {
    var s := [r] + q;
    forall i | 0 <= i < |q| ensures q[i].id in Ids(s) && q[i].id in Ids(q) { assert s[i + 1] == q[i]; }
    assert s[0] == r;
    if Unlike(s) {
      forall i, j | 0 <= i < j < |q| ensures q[i].id != q[j].id { assert s[i + 1] == q[i] && s[j + 1] == q[j]; }
      forall i | 0 <= i < |q| ensures q[i].id != r.id { assert s[i + 1] == q[i]; }
    }
  }

  lemma IdsTail(q: seq<Req>)
    requires q != []
    ensures Ids(q) == {q[0].id} + Ids(q[1..]) && (Unlike(q) ==> q[0].id !in Ids(q[1..]) && Unlike(q[1..]))
  {
    IdsCons(q[0], q[1..]);
    assert [q[0]] + q[1..] == q;
  }

  lemma IdsAppend(q: seq<Req>, r: Req)
    ensures Ids(q + [r]) == Ids(q) + {r.id} && (Unlike(q) && r.id !in Ids(q) ==> Unlike(q + [r]))
  {
    var s := q + [r];
    forall i | 0 <= i < |q| ensures q[i].id in Ids(s) && q[i].id in Ids(q) { assert s[i] == q[i]; }
    assert s[|q|] == r;
  }

  lemma WorkSwitch(workers: map<nat, Worker>, t: nat, w: Worker)
    requires OneEach(workers)
    requires !w.Idle? ==> w.req.id !in InWork(workers) || (t in workers && !workers[t].Idle? && workers[t].req.id == w.req.id)
    ensures OneEach(workers[t := w])
    ensures
      var was := if t in workers && !workers[t].Idle? then {workers[t].req.id} else {};
      InWork(workers[t := w]) == InWork(workers) - was + if w.Idle? then {} else {w.req.id}
  {
    var n := workers[t := w];
    forall u | u in workers && u != t && !workers[u].Idle? ensures workers[u].req.id in InWork(n) && workers[u].req.id in InWork(workers) {
      assert n[u] == workers[u];
    }
    if t in workers && !workers[t].Idle? { assert workers[t].req.id in InWork(workers); }
    if !w.Idle? { assert n[t] == w; }
  }

  /** Some worker is handing addresses over. */
  ghost predicate Handing(s: State) {
    exists t :: t in s.workers && s.workers[t].Pushing?
  }

  /** The counters against the queue, the workers and what is done. */
  ghost predicate Balanced(s: State) {
    && s.made == s.pending + s.finished
    && s.pending == |s.queue| + |Busy(s)|
    && s.finished == |s.done|
  }

  /** Replies that wait come from a request that ended or is handing over. */
  ghost predicate Delivered(s: State) {
    s.replies != [] ==> s.finished > 0 || Handing(s)
  }

  /** What the main thread may rely on where it is. */
  ghost predicate Phased(s: State) {
    && (s.main.Starting? && |s.workers| == 0 ==> s.queue != [] && s.queue[0] == s.main.req)
    && s.most >= 1 && (|s.workers| == 0 ==> s.pending == if s.main.Starting? then 1 else 0)
    && (s.main.Starting? && |s.workers| == 0 ==> s.main.create)
    && (s.main.Leaving? || s.main.Finished? ==> s.pending == 0)
    && (s.main.Finished? ==> s.replies == [])
  }

  ghost predicate Inv(s: State) {
    Balanced(s) && Requests(s) && Delivered(s) && Phased(s)
  }

  lemma BusyBound(s: State)
    requires |s.workers| == 0
    ensures Busy(s) == {}
  {
    assert s.workers == map[];
  }

  lemma SameWorkers(s: State, n: State)
    requires s.workers == n.workers
    ensures Busy(s) == Busy(n) && (Handing(s) <==> Handing(n))
  {
  }

  /** One worker's state changes; the number of busy workers changes with it. */
  lemma Switched(s: State, n: State, t: nat, w: Worker)
    requires n.workers == s.workers[t := w]
    ensures |Busy(n)| == |Busy(s)| + (if w.Idle? then 0 else 1) - (if t in s.workers && !s.workers[t].Idle? then 1 else 0)
    ensures !w.Idle? ==> Busy(n) != {}
    ensures |n.workers| > 0
  {
    var b, c := Busy(s), Busy(n);
    assert c == if w.Idle? then b - {t} else b + {t};
    assert t in b <==> t in s.workers && !s.workers[t].Idle?;
    assert t in n.workers;
    hide Busy;
    Toggle(b, t);
    assert !w.Idle? ==> t in c;
  }

  lemma RequestKeeps(s: State, host: nat)
    requires Inv(s)
    ensures Inv(Next(s, Request(host)))
  {
    hide Busy, Handing, Requests, WorkerNext, Delivered;
    var n := Next(s, Request(host));
    SameWorkers(s, n);
    SameDelivered(s, n);
    QueueRequests(s, n);
  }

  /** The main thread goes on reading. */
  lemma NoWorkerKeeps(s: State)
    requires Inv(s) && s.main.Starting? && |s.workers| > 0
    ensures Inv(s.(main := Reading))
  {
    hide Busy, Handing, Requests, Delivered, Balanced;
    var n := s.(main := Reading);
    SameDelivered(s, n);
    QueueRequests(s, n);
    SameBalance(s, n);
  }

  /** The last request is withdrawn. */
  lemma WithdrawKeeps(s: State, n: State)
    requires Inv(s) && s.main.Starting? && s.queue != [] && |s.workers| == 0
    requires n == s.(queue := s.queue[1..], pending := s.pending - 1, made := s.made - 1, main := Reading, issued := n.issued)
    ensures Inv(n)
  {
    hide Busy, Handing, Requests, Delivered, Balanced;
    SameDelivered(s, n);
    QueueRequests(s, n);
    Unbalance(s, n);
  }

  lemma ThreadsKeep(s: State, most: nat)
    requires Inv(s) && s.main.Reading? && most >= 1
    ensures Inv(s.(most := most))
  {
    hide Busy, Handing, Requests, Delivered, Balanced;
    var n := s.(most := most);
    SameDelivered(s, n);
    QueueRequests(s, n);
    SameBalance(s, n);
  }

  lemma SomebodyWorks(s: State)
    requires Inv(s)
    ensures s.main.Starting? && |s.workers| == 0 ==> s.main.create && s.queue != []
  {
    hide Balanced, Requests, Delivered;
  }

  lemma StartKeeps(s: State, a: Action)
    requires Inv(s) && (a.CreateFailed? || a.NoWorker?)
    ensures Inv(Next(s, a))
  {
    SomebodyWorks(s);
    hide Inv, WorkerNext;
    if Next(s, a) != s {
      if |s.workers| == 0 { WithdrawKeeps(s, Next(s, a)); } else { NoWorkerKeeps(s); }
    }
  }

  lemma Unbalance(s: State, n: State)
    requires Balanced(s) && s.queue != [] && n.queue == s.queue[1..] && n.workers == s.workers && n.done == s.done
    requires n.made == s.made - 1 && n.pending == s.pending - 1 && n.finished == s.finished
    ensures Balanced(n)
  {
    SameWorkers(s, n);
  }

  lemma SameDelivered(s: State, n: State)
    requires Delivered(s) && n.workers == s.workers && n.replies == s.replies && n.finished == s.finished
    ensures Delivered(n)
  {
    SameWorkers(s, n);
  }

  lemma QueueRequests(s: State, n: State)
    requires Requests(s) && n.workers == s.workers && n.done == s.done
    requires n.queue == s.queue || (s.queue != [] && n.queue == s.queue[1..]) || exists r :: Fresh(r) && n.queue == [r] + s.queue
    ensures Requests(n)
  {
  }

  lemma CreateKeeps(s: State, t: nat)
    requires Inv(s)
    ensures Inv(Next(s, CreateWorker(t)))
  {
    hide Busy, Handing;
    var n := Next(s, CreateWorker(t));
    if s.main.Starting? && s.main.create && t !in s.workers {
      Switched(s, n, t, Idle);
      Idles(s, n, t);
      StillHanding(s, n, t);
    }
  }

  lemma DrainKeeps(s: State)
    requires Inv(s)
    ensures Inv(Next(s, Drain))
  {
    hide Busy, Handing, Requests, WorkerNext, Balanced, Delivered;
    var n := Next(s, Drain);
    SameRequests(s, n);
    SameBalance(s, n);
    if n != s { NoneWaits(n); }
  }

  lemma SameBalance(s: State, n: State)
    requires Balanced(s) && n.queue == s.queue && n.workers == s.workers && n.done == s.done
    requires n.made == s.made && n.pending == s.pending && n.finished == s.finished
    ensures Balanced(n)
  {
    SameWorkers(s, n);
  }

  lemma WaitKeeps(s: State, a: Action)
    requires Inv(s) && (a.AskDone? || a.Poll?)
    ensures Inv(Next(s, a))
  {
    hide Busy, Handing, Requests;
    var n := Next(s, a);
    SameWorkers(s, n);
    SameRequests(s, n);
    HandingIsBusy(s);
  }

  lemma BatchKeeps(s: State)
    requires Inv(s)
    ensures Inv(Next(s, NextBatch))
  {
    hide Busy, Handing;
    var n := Next(s, NextBatch);
    SameWorkers(s, n);
  }

  lemma SameRequests(s: State, n: State)
    requires Requests(s) && n.workers == s.workers && n.done == s.done && (n.queue == s.queue || n.queue == [])
    ensures Requests(n) && (Handing(n) <==> Handing(s))
  {
  }

  lemma HandingIsBusy(s: State)
    ensures Handing(s) ==> |Busy(s)| >= 1
  {
    if t :| t in s.workers && s.workers[t].Pushing? {
      assert t in Busy(s);
    }
  }

  lemma Idles(s: State, n: State, t: nat)
    requires t !in s.workers && n.workers == s.workers[t := Idle]
    ensures Busy(n) == Busy(s)
  {
  }

  lemma NoneWaits(s: State)
    requires s.replies == []
    ensures Delivered(s)
  {
  }

  lemma WorkKeeps(s: State, t: nat, move: Move)
    requires Inv(s) && t in s.workers
    ensures Inv(WorkerNext(s, t, s.workers[t], move))
  {
    hide Busy, Handing, Requests;
    var n := WorkerNext(s, t, s.workers[t], move);
    if n != s {
      WorkRequests(s, t, move);
      Switched(s, n, t, n.workers[t]);
      BusyHere(s, t);
      StillHanding(s, n, t);
    }
  }

  lemma WorkRequests(s: State, t: nat, move: Move)
    requires Requests(s) && t in s.workers
    ensures Requests(WorkerNext(s, t, s.workers[t], move))
  {
  }

  lemma StillHanding(s: State, n: State, t: nat)
    requires t in n.workers && n.workers == s.workers[t := n.workers[t]]
    ensures Handing(s) && !(t in s.workers && s.workers[t].Pushing?) ==> Handing(n)
    ensures n.workers[t].Pushing? ==> Handing(n)
  {
    if Handing(s) && !(t in s.workers && s.workers[t].Pushing?) {
      var u :| u in s.workers && s.workers[u].Pushing?;
      assert n.workers[u].Pushing?;
    }
  }

  lemma BusyHere(s: State, t: nat)
    requires t in s.workers
    ensures !s.workers[t].Idle? ==> |Busy(s)| >= 1
  {
    assert !s.workers[t].Idle? ==> t in Busy(s);
  }

  /** Every step keeps the accounts. */
  lemma NextKeeps(s: State, a: Action)
    requires Inv(s)
    ensures Inv(Next(s, a))
  {
    match a
    case Work(t, move) => if t in s.workers { WorkKeeps(s, t, move); }
    case CreateWorker(t) => CreateKeeps(s, t);
    case Request(host) => RequestKeeps(s, host);
    case SetThreads(most) => if s.main.Reading? && most >= 1 { ThreadsKeep(s, most); }
    case CreateFailed => StartKeeps(s, a);
    case NoWorker => StartKeeps(s, a);
    case NextBatch => BatchKeeps(s);
    case Drain => DrainKeeps(s);
    case AskDone => WaitKeeps(s, a);
    case Poll => WaitKeeps(s, a);
  }

  lemma TakePlaces(s: State, t: nat, move: Move)
    requires Placed(s) && t in s.workers && s.workers[t].Idle?
    ensures Placed(WorkerNext(s, t, s.workers[t], move))
  {
    hide Ids, InWork, Unlike, OneEach;
    var n := WorkerNext(s, t, s.workers[t], move);
    if n != s {
      IdsTail(s.queue);
      WorkSwitch(s.workers, t, n.workers[t]);
    }
  }

  ghost predicate Works(s: State, t: nat, r: Req) {
    t in s.workers && !s.workers[t].Idle? && s.workers[t].req.id == r.id && s.workers[t].req.host == r.host
  }

  lemma StayPlaces(s: State, t: nat, w: Worker)
    requires Placed(s) && !w.Idle? && Works(s, t, w.req)
    ensures Placed(With(s, t, w))
  {
    hide Ids, InWork, Unlike, OneEach;
    InWorkHas(s.workers, t);
    WorkSwitch(s.workers, t, w);
  }

  lemma RequeuePlaces(s: State, t: nat, r: Req)
    requires Placed(s) && Works(s, t, r)
    ensures Placed(With(s.(queue := [r] + s.queue), t, Idle))
  {
    hide Ids, InWork, Unlike, OneEach;
    InWorkHas(s.workers, t);
    IdsCons(r, s.queue);
    WorkSwitch(s.workers, t, Idle);
  }

  lemma EndPlaces(s: State, t: nat, r: Req)
    requires Placed(s) && Works(s, t, r)
    ensures Placed(With(s.(done := s.done + [r]), t, Idle))
  {
    hide Ids, InWork, Unlike, OneEach;
    InWorkHas(s.workers, t);
    IdsAppend(s.done, r);
    WorkSwitch(s.workers, t, Idle);
  }

  /** A worker's step moves at most its own request. */
  lemma WorkPlaces(s: State, t: nat, move: Move)
    requires Placed(s) && t in s.workers && !s.workers[t].Idle?
    ensures Placed(WorkerNext(s, t, s.workers[t], move))
  {
    hide Placed;
    var n := WorkerNext(s, t, s.workers[t], move);
    if n.queue != s.queue {
      RequeuePlaces(s, t, n.queue[0]);
    } else if n.done != s.done {
      var r := n.done[|s.done|];
      EndPlaces(s, t, r);
      SamePlaces(With(s.(done := s.done + [r]), t, Idle), n);
    } else if n != s {
      StayPlaces(s, t, n.workers[t]);
      SamePlaces(With(s, t, n.workers[t]), n);
    }
  }

  lemma InWorkHas(workers: map<nat, Worker>, t: nat)
    requires t in workers && !workers[t].Idle?
    ensures workers[t].req.id in InWork(workers)
  {
  }

  lemma NobodyWorks(s: State)
    requires Inv(s) && s.pending == 0
    ensures InWork(s.workers) == {} && s.queue == []
  {
    forall t | t in s.workers ensures s.workers[t].Idle? { BusyHere(s, t); }
  }

  lemma NoIds()
    ensures Ids([]) == {} && Unlike([])
  {
  }

  lemma SamePlaces(s: State, n: State)
    requires Placed(s) && n.queue == s.queue && n.workers == s.workers && n.done == s.done && n.issued == s.issued && n.next == s.next
    ensures Placed(n)
  {
    hide Ids, InWork, Unlike, OneEach, Named;
  }

  lemma RequestPlaces(s: State, r: Req)
    requires Placed(s) && r.id == s.next
    ensures Placed(s.(queue := [r] + s.queue, issued := s.issued[r.id := r.host], next := s.next + 1))
  {
    hide Ids, InWork, Unlike, OneEach;
    IdsCons(r, s.queue);
  }

  lemma CreatePlaces(s: State, t: nat)
    requires Placed(s) && t !in s.workers
    ensures Placed(With(s, t, Idle))
  {
    hide Ids, InWork, Unlike, OneEach;
    WorkSwitch(s.workers, t, Idle);
  }

  lemma BatchPlaces(s: State)
    requires Inv(s) && Placed(s) && s.pending == 0
    ensures Placed(s.(queue := [], issued := map[], done := []))
  {
    hide Ids, Unlike, Busy, Handing, Requests;
    NoIds();
    NobodyWorks(s);
  }

  /** The steps that create, withdraw or forget requests or create workers. */
  lemma ChangePlaces(s: State, a: Action)
    requires Inv(s) && Placed(s) && (a.Request? || a.CreateWorker? || a.CreateFailed? || a.NextBatch?) && Next(s, a) != s
    ensures Placed(Next(s, a))
  {
    hide Placed, Inv;
    var n, m := Next(s, a), s;
    match a {
      case Request(host) => m := RequestedPlaces(s, host);
      case CreateWorker(t) => CreatePlaces(s, t); m := With(s, t, Idle);
      case CreateFailed => if |s.workers| == 0 && s.queue != [] { Withdrawn(s); m := s.(queue := s.queue[1..], issued := s.issued - {s.queue[0].id}); }
      case NextBatch => NothingPending(s); BatchPlaces(s); m := s.(queue := [], issued := map[], done := []);
    }
    SamePlaces(m, n);
  }

  lemma NothingPending(s: State)
    requires Inv(s) && s.main.Finished?
    ensures s.pending == 0
  {
    hide Busy, Handing, Requests;
  }

  lemma MainPlaces(s: State, a: Action)
    requires Inv(s) && Placed(s) && !a.Work?
    ensures Placed(Next(s, a))
  {
    hide Placed, Inv;
    if a.Request? || a.CreateWorker? || a.CreateFailed? || a.NextBatch? {
      if Next(s, a) != s { ChangePlaces(s, a); }
    } else {
      if s.made == 0 { NoneMade(s); }
      SamePlaces(s, Next(s, a));
    }
  }

  lemma RequestedPlaces(s: State, host: nat) returns (m: State)
    requires Placed(s)
    ensures Placed(m) && m.workers == s.workers && m.done == s.done && m.next == s.next + 1
    ensures m.queue == [Req(s.next, host, TRIES, 0, Open)] + s.queue && m.issued == s.issued[s.next := host]
  {
    hide Placed;
    var r := Req(s.next, host, TRIES, 0, Open);
    RequestPlaces(s, r);
    m := s.(queue := [r] + s.queue, issued := s.issued[r.id := r.host], next := s.next + 1);
  }

  /** An empty batch has nothing queued that the reset could drop. */
  lemma NoneMade(s: State)
    requires Inv(s) && s.made == 0
    ensures s.queue == []
  {
    hide Handing, Requests;
  }

  lemma Withdrawn(s: State)
    requires Placed(s) && s.queue != []
    ensures Placed(s.(queue := s.queue[1..], issued := s.issued - {s.queue[0].id}))
  {
    hide InWork, OneEach;
    IdsTail(s.queue);
    var n := s.(queue := s.queue[1..], issued := s.issued - {s.queue[0].id});
    forall i | 0 <= i < |n.queue| ensures Named(n.queue[i], n.issued) { assert n.queue[i].id in Ids(n.queue); }
    forall i | 0 <= i < |n.done| ensures Named(n.done[i], n.issued) { assert n.done[i].id in Ids(n.done); }
    forall t | t in n.workers && !n.workers[t].Idle? ensures Named(n.workers[t].req, n.issued) { InWorkHas(n.workers, t); }
  }

  /** Every step keeps every request in its one place. */
  lemma NextPlaces(s: State, a: Action)
    requires Inv(s) && Placed(s)
    ensures Placed(Next(s, a))
  {
    hide Placed, Inv;
    if a.Work? {
      if a.t in s.workers {
        if s.workers[a.t].Idle? { TakePlaces(s, a.t, a.move); } else { WorkPlaces(s, a.t, a.move); }
      }
    } else {
      MainPlaces(s, a);
    }
  }

  /**
   In every interleaving each request of the batch is queued, in work or done, with the host it
   was made for: none is lost and none is doubled.
   */
  lemma {:induction false} EveryRequestOnce(actions: seq<Action>)
    ensures Placed(Run(actions))
  {
    if actions != [] {
      EveryRequestOnce(actions[..|actions| - 1]);
      RunKeeps(actions[..|actions| - 1]);
      NextPlaces(Run(actions[..|actions| - 1]), actions[|actions| - 1]);
    }
  }

  lemma {:induction false} RunKeeps(actions: seq<Action>)
    ensures Inv(Run(actions))
  {
    if actions == [] {
      assert Busy(Initial()) == {};
    } else {
      RunKeeps(actions[..|actions| - 1]);
      NextKeeps(Run(actions[..|actions| - 1]), actions[|actions| - 1]);
    }
  }

  /** The pool cannot get stuck: while dns_done waits for pending requests, some worker has a step to make. */
  lemma NeverStuck(actions: seq<Action>)
    ensures
      var s := Run(actions);
      s.main.Waiting? && s.pending > 0 ==> exists t: nat, move: Move :: t in s.workers && Next(s, Work(t, move)) != s
  {
    RunKeeps(actions);
    var s := Run(actions);
    hide Run;
    if s.main.Waiting? && s.pending > 0 {
      assert |s.workers| > 0;
      if Busy(s) != {} {
        var t :| t in Busy(s);
        var move := if s.workers[t].Looking? then NoAnswer(false) else Proceed;
        assert Next(s, Work(t, move)) != s by { Moves(s, t, move); }
      } else {
        var t :| t in s.workers;
        assert t !in Busy(s);
        assert Next(s, Work(t, Take)).queue != s.queue;
      }
    }
  }

  lemma Moves(s: State, t: nat, move: Move)
    requires t in s.workers && !s.workers[t].Idle? && move == if s.workers[t].Looking? then NoAnswer(false) else Proceed
    ensures Next(s, Work(t, move)) != s
  {
    assert Next(s, Work(t, move)).workers[t] != s.workers[t];
  }

  /** In every interleaving: nothing is lost between the counters, the queue and the workers. */
  lemma Accounts(actions: seq<Action>)
    ensures
      var s := Run(actions);
      s.made == s.pending + s.finished && s.pending == |s.queue| + |Busy(s)|
  {
    RunKeeps(actions);
  }

  /** No request is given to the resolver more than 21 times, and one that is given up was given exactly 21 times. */
  lemma AttemptsBounded(actions: seq<Action>)
    ensures
      var s := Run(actions);
      && (forall i {:trigger s.queue[i]} :: 0 <= i < |s.queue| ==> s.queue[i].asked <= 20)
      && (forall t {:trigger s.workers[t]} :: t in s.workers && !s.workers[t].Idle? ==> s.workers[t].req.asked <= 21)
      && (forall i {:trigger s.done[i]} :: 0 <= i < |s.done| ==> 1 <= s.done[i].asked <= 21)
      && (forall i {:trigger s.done[i]} :: 0 <= i < |s.done| && s.done[i].end.GaveUp? ==> s.done[i].asked == 21)
  {
    RunKeeps(actions);
    hide Run, Busy, Handing;
  }

  /**
   When dns_done has drained for the last time nothing is queued, in flight or waiting, and every
   request of the batch ended, once.
   */
  lemma AllEnded(actions: seq<Action>)
    ensures
      var s := Run(actions);
      s.main.Finished? ==>
        && s.queue == [] && Busy(s) == {} && s.replies == []
        && Unlike(s.done) && Ids(s.done) == s.issued.Keys && |s.done| == s.made
  {
    RunKeeps(actions);
    EveryRequestOnce(actions);
    var s := Run(actions);
    hide Run;
    if s.main.Finished? {
      NobodyWorks(s);
      NoIds();
    }
  }
}
