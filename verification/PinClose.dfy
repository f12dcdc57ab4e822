/**
 The Pin / Close handshake of a reader (v4/go/reader_public.go), one atomic access a step,
 with any number of threads. Closing a pin tests and sets its own flag in one step: the
 pin's documentation forbids racing it.
 */
module PinClose {
  import opened Collections

  /** Where one call stands. */
  datatype Pc =
    // Pin
    | PinLoad            // before the first load of `closed`
    | PinAdd             // loaded false, before the add
    | PinCheck           // added, before the second load
    | PinUndo            // loaded true, before taking the add back
    | PinRefused
    | Pinned             // returned a pin that is not closed
    | Unpinning          // the pin's flag is set, before the add of -1
    | PinClosed
    // Close
    | CloseSwap          // before the compare-and-swap
    | CloseCheck         // swapped, before the load of `pins`
    | CloseBack          // pins were seen, before storing false
    | CloseRefused
    | Releasing          // past the check: the mapping is being released
    | Released

  datatype State = State(closed: bool, pins: int, threads: map<nat, Pc>)

  datatype Action =
    | CallPin(t: nat)
    | CallClose(t: nat)
    | ClosePin(t: nat)
    | Step(t: nat)

  function At(s: State, t: nat, pc: Pc): State {
    s.(threads := s.threads[t := pc])
  }

  /** The next atomic access of a thread; a call that returned stays. */
  function Advance(s: State, t: nat): State
    requires t in s.threads
  {
    match s.threads[t]
    case PinLoad => At(s, t, if s.closed then PinRefused else PinAdd)
    case PinAdd => At(s.(pins := s.pins + 1), t, PinCheck)
    case PinCheck => At(s, t, if s.closed then PinUndo else Pinned)
    case PinUndo => At(s.(pins := s.pins - 1), t, PinRefused)
    case Unpinning => At(s.(pins := s.pins - 1), t, PinClosed)
    case CloseSwap => if s.closed then At(s, t, CloseRefused) else At(s.(closed := true), t, CloseCheck)
    case CloseCheck => At(s, t, if s.pins != 0 then CloseBack else Releasing)
    case CloseBack => At(s.(closed := false), t, CloseRefused)
    case Releasing => At(s, t, Released)
    case _ => s
  }

  function Next(s: State, a: Action): State {
    match a
    case CallPin(t) => if t in s.threads then s else At(s, t, PinLoad)
    case CallClose(t) => if t in s.threads then s else At(s, t, CloseSwap)
    case ClosePin(t) => if t in s.threads && s.threads[t].Pinned? then At(s, t, Unpinning) else s
    case Step(t) => if t in s.threads then Advance(s, t) else s
  }

  function Initial(): State {
    State(false, 0, map[])
  }

  function Run(actions: seq<Action>): State {
    if actions == [] then Initial() else Next(Run(actions[..|actions| - 1]), actions[|actions| - 1])
  }

  // ----- the invariant

  predicate Counted(pc: Pc) {
    pc.PinCheck? || pc.PinUndo? || pc.Pinned? || pc.Unpinning?
  }

  predicate Owner(pc: Pc) {
    pc.CloseCheck? || pc.CloseBack? || pc.Releasing? || pc.Released?
  }

  predicate Past(pc: Pc) {
    pc.Releasing? || pc.Released?
  }

  ghost function Adds(s: State): set<nat> {
    set t | t in s.threads && Counted(s.threads[t])
  }

  ghost function Owners(s: State): set<nat> {
    set t | t in s.threads && Owner(s.threads[t])
  }

  /** No thread is past the check while another holds a pin. */
  ghost predicate Apart(s: State) {
    forall t, u {:trigger s.threads[t], s.threads[u]} :: t in s.threads && u in s.threads && Past(s.threads[t]) ==> !s.threads[u].Pinned?
  }

  /** The pin count is the number of adds not taken back; the flag is held by one Close at most. */
  ghost predicate Inv(s: State) {
    && s.pins == |Adds(s)|
    && |Owners(s)| == (if s.closed then 1 else 0)
    && Apart(s)
  }

  function One(b: bool): int {
    if b then 1 else 0
  }

  /** One thread moves on; the count and the flag change by what it adds and gives up. */
  lemma Moved(s: State, n: State, t: nat, pc: Pc)
    requires Inv(s) && n.threads == s.threads[t := pc]
    requires n.pins == s.pins + One(Counted(pc)) - One(t in s.threads && Counted(s.threads[t]))
    requires One(n.closed) == One(s.closed) + One(Owner(pc)) - One(t in s.threads && Owner(s.threads[t]))
    requires Apart(n)
    ensures Inv(n)
  {
    hide Counted, Owner, Apart, Adds, Owners;
    MovedAdds(s, n, t, pc);
    MovedOwners(s, n, t, pc);
  }

  lemma MovedAdds(s: State, n: State, t: nat, pc: Pc)
    requires n.threads == s.threads[t := pc]
    ensures |Adds(n)| == |Adds(s)| + One(Counted(pc)) - One(t in s.threads && Counted(s.threads[t]))
  {
    hide Counted;
    assert Adds(n) == if Counted(pc) then Adds(s) + {t} else Adds(s) - {t};
    assert t in Adds(s) <==> t in s.threads && Counted(s.threads[t]);
    hide Adds;
    Toggle(Adds(s), t);
  }

  lemma MovedOwners(s: State, n: State, t: nat, pc: Pc)
    requires n.threads == s.threads[t := pc]
    ensures |Owners(n)| == |Owners(s)| + One(Owner(pc)) - One(t in s.threads && Owner(s.threads[t]))
  {
    hide Owner;
    assert Owners(n) == if Owner(pc) then Owners(s) + {t} else Owners(s) - {t};
    assert t in Owners(s) <==> t in s.threads && Owner(s.threads[t]);
    hide Owners;
    Toggle(Owners(s), t);
  }

  lemma NobodyOwns(s: State)
    requires Inv(s) && !s.closed
    ensures forall u {:trigger s.threads[u]} :: u in s.threads ==> !Owner(s.threads[u])
  {
    assert Owners(s) == {};
    forall u | u in s.threads ensures !Owner(s.threads[u]) { assert u !in Owners(s); }
  }

  lemma NobodyCounts(s: State)
    requires Inv(s) && s.pins == 0
    ensures forall u {:trigger s.threads[u]} :: u in s.threads ==> !Counted(s.threads[u])
  {
    assert Adds(s) == {};
    forall u | u in s.threads ensures !Counted(s.threads[u]) { assert u !in Adds(s); }
  }

  lemma OnlyOwner(s: State, t: nat)
    requires Inv(s) && t in s.threads && Owner(s.threads[t])
    ensures s.closed && Owners(s) == {t} && forall u {:trigger s.threads[u]} :: u in s.threads && u != t ==> !Owner(s.threads[u])
  {
    assert t in Owners(s);
    assert Owners(s) - {t} == {} by { assert |Owners(s) - {t}| == 0; }
    forall u | u in s.threads && u != t ensures !Owner(s.threads[u]) { assert u !in Owners(s) - {t}; }
  }

  lemma NextKeeps(s: State, a: Action)
    requires Inv(s)
    ensures Inv(Next(s, a))
  {
    hide Adds, Owners;
    match a
    case CallPin(t) =>
      if t !in s.threads { Moved(s, At(s, t, PinLoad), t, PinLoad); }
    case CallClose(t) =>
      if t !in s.threads { Moved(s, At(s, t, CloseSwap), t, CloseSwap); }
    case ClosePin(t) =>
      if t in s.threads && s.threads[t].Pinned? { Moved(s, At(s, t, Unpinning), t, Unpinning); }
    case Step(t) =>
      if t in s.threads { AdvanceKeeps(s, t); }
  }

  lemma AdvanceKeeps(s: State, t: nat)
    requires Inv(s) && t in s.threads
    ensures Inv(Advance(s, t))
  {
    hide Adds, Owners;
    var n := Advance(s, t);
    match s.threads[t] {
      case CloseCheck =>
        OnlyOwner(s, t);
        if s.pins == 0 { NobodyCounts(s); }
      case PinCheck =>
        if !s.closed { NobodyOwns(s); }
      case CloseSwap =>
        if !s.closed { NobodyOwns(s); }
      case CloseBack =>
        OnlyOwner(s, t);
      case _ =>
    }
    if n != s { Moved(s, n, t, n.threads[t]); }
  }

  lemma {:induction false} RunKeeps(actions: seq<Action>)
    ensures Inv(Run(actions))
  {
    if actions == [] {
      assert Adds(Initial()) == {} && Owners(Initial()) == {};
    } else {
      RunKeeps(actions[..|actions| - 1]);
      NextKeeps(Run(actions[..|actions| - 1]), actions[|actions| - 1]);
    }
  }

  /** In every interleaving, no mapping is released while a returned pin is not yet closed. */
  lemma NoReleaseUnderPin(actions: seq<Action>, t: nat, u: nat)
    ensures
      var s := Run(actions);
      t in s.threads && Past(s.threads[t]) && u in s.threads ==> !s.threads[u].Pinned?
  {
    RunKeeps(actions);
  }

  /** At most one Close ever gets past its check. */
  lemma OneRelease(actions: seq<Action>, t: nat, u: nat)
    ensures
      var s := Run(actions);
      t in s.threads && u in s.threads && Past(s.threads[t]) && Past(s.threads[u]) ==> t == u
  {
    RunKeeps(actions);
    var s := Run(actions);
    if t in s.threads && Past(s.threads[t]) {
      OnlyOwner(s, t);
    }
  }

  /** Once every call has returned, the count is exactly the number of pins not closed. */
  lemma QuietCount(actions: seq<Action>)
    requires forall t {:trigger Run(actions).threads[t]} :: t in Run(actions).threads ==>
      var pc := Run(actions).threads[t]; pc.PinRefused? || pc.Pinned? || pc.PinClosed? || pc.CloseRefused? || pc.Released?
    ensures Run(actions).pins == |set t | t in Run(actions).threads && Run(actions).threads[t].Pinned?|
  {
    RunKeeps(actions);
    var s := Run(actions);
    assert Adds(s) == set t | t in s.threads && s.threads[t].Pinned?;
  }

  // ----- what each call does when it is alone

  lemma RunOne(actions: seq<Action>, a: Action)
    ensures Run(actions + [a]) == Next(Run(actions), a)
  {
    var all := actions + [a];
    assert all[..|all| - 1] == actions;
  }

  lemma RunTwo(actions: seq<Action>, a: Action, b: Action)
    ensures Run(actions + [a, b]) == Next(Next(Run(actions), a), b)
  {
    RunOne(actions, a);
    RunOne(actions + [a], b);
    assert actions + [a] + [b] == actions + [a, b];
  }

  lemma RunFour(actions: seq<Action>, a: Action, b: Action, c: Action, d: Action)
    ensures Run(actions + [a, b, c, d]) == Next(Next(Next(Next(Run(actions), a), b), c), d)
  {
    hide Run, Next;
    RunTwo(actions, a, b);
    RunTwo(actions + [a, b], c, d);
    assert actions + [a, b] + [c, d] == actions + [a, b, c, d];
  }

  /** Whatever happened before, a Pin that nobody races gets its pin exactly when the reader is open. */
  lemma PinAlone(actions: seq<Action>, t: nat)
    requires t !in Run(actions).threads
    ensures
      var s, n := Run(actions), Run(actions + [CallPin(t), Step(t), Step(t), Step(t)]);
      && n.closed == s.closed
      && n.threads == s.threads[t := if s.closed then PinRefused else Pinned]
      && n.pins == if s.closed then s.pins else s.pins + 1
  {
    RunFour(actions, CallPin(t), Step(t), Step(t), Step(t));
    hide Run;
  }

  /** A Close that nobody races releases an open reader without pins, and otherwise leaves everything as it was. */
  lemma CloseAlone(actions: seq<Action>, t: nat)
    requires t !in Run(actions).threads
    ensures
      var s, n := Run(actions), Run(actions + [CallClose(t), Step(t), Step(t), Step(t)]);
      && n.pins == s.pins
      && n.threads == s.threads[t := if !s.closed && s.pins == 0 then Released else CloseRefused]
      && n.closed == (s.closed || s.pins == 0)
  {
    RunFour(actions, CallClose(t), Step(t), Step(t), Step(t));
    hide Run;
  }

  /** Closing a pin gives its count back. */
  lemma ClosePinAlone(actions: seq<Action>, t: nat)
    requires t in Run(actions).threads && Run(actions).threads[t].Pinned?
    ensures
      var s, n := Run(actions), Run(actions + [ClosePin(t), Step(t)]);
      n == s.(pins := s.pins - 1, threads := s.threads[t := PinClosed])
  {
    RunTwo(actions, ClosePin(t), Step(t));
    hide Run;
  }

  // ----- why a call ended as it did

  /** After some prefix of the run, thread `t` stood at `pc` and the reader was in the given state. */
  ghost predicate Saw(actions: seq<Action>, t: nat, pc: Pc, closed: bool) {
    exists k: nat :: k <= |actions| && StoodAt(Run(actions[..k]), t, pc) && Run(actions[..k]).closed == closed
  }

  ghost predicate SawPins(actions: seq<Action>, t: nat, some: bool) {
    exists k: nat :: k <= |actions| && StoodAt(Run(actions[..k]), t, CloseCheck) && (Run(actions[..k]).pins != 0) == some
  }

  predicate StoodAt(s: State, t: nat, pc: Pc) {
    t in s.threads && s.threads[t] == pc
  }

  ghost predicate Reason(actions: seq<Action>, t: nat, pc: Pc) {
    match pc
    case PinRefused => Saw(actions, t, PinLoad, true) || Saw(actions, t, PinCheck, true)
    case PinUndo => Saw(actions, t, PinCheck, true)
    case Pinned => Saw(actions, t, PinCheck, false)
    case Unpinning => Saw(actions, t, PinCheck, false)
    case PinClosed => Saw(actions, t, PinCheck, false)
    case CloseRefused => Saw(actions, t, CloseSwap, true) || SawPins(actions, t, true)
    case CloseBack => SawPins(actions, t, true)
    case Releasing => SawPins(actions, t, false)
    case Released => SawPins(actions, t, false)
    case _ => true
  }

  lemma SawLonger(actions: seq<Action>, a: Action, t: nat, pc: Pc, closed: bool)
    ensures Saw(actions, t, pc, closed) ==> Saw(actions + [a], t, pc, closed)
    ensures StoodAt(Run(actions), t, pc) && Run(actions).closed == closed ==> Saw(actions + [a], t, pc, closed)
  {
    hide Run;
    var all := actions + [a];
    if k: nat :| k <= |actions| && StoodAt(Run(actions[..k]), t, pc) && Run(actions[..k]).closed == closed {
      assert all[..k] == actions[..k];
    }
    assert all[..|actions|] == actions;
  }

  lemma SawPinsLonger(actions: seq<Action>, a: Action, t: nat, some: bool)
    ensures SawPins(actions, t, some) ==> SawPins(actions + [a], t, some)
    ensures StoodAt(Run(actions), t, CloseCheck) && (Run(actions).pins != 0) == some ==> SawPins(actions + [a], t, some)
  {
    hide Run;
    var all := actions + [a];
    if k: nat :| k <= |actions| && StoodAt(Run(actions[..k]), t, CloseCheck) && (Run(actions[..k]).pins != 0) == some {
      assert all[..k] == actions[..k];
    }
    assert all[..|actions|] == actions;
  }

  /**
   In every interleaving: a Pin was refused only because it saw the reader closed, and granted only
   because its second look saw it open; a Close was refused only because it found the reader closed
   or saw pins, and released only because it saw none.
   */
  lemma {:induction false} Reasons(actions: seq<Action>, t: nat)
    ensures t in Run(actions).threads ==> Reason(actions, t, Run(actions).threads[t])
  {
    if actions != [] {
      var n := |actions| - 1;
      var before, a := actions[..n], actions[n];
      assert actions == before + [a];
      Reasons(before, t);
      RunOne(before, a);
      ReasonStep(before, a, t);
    }
  }

  lemma ReasonStep(before: seq<Action>, a: Action, t: nat)
    requires t in Run(before).threads ==> Reason(before, t, Run(before).threads[t])
    requires Run(before + [a]) == Next(Run(before), a)
    ensures t in Run(before + [a]).threads ==> Reason(before + [a], t, Run(before + [a]).threads[t])
  {
    hide Run, Saw, SawPins;
    SawLonger(before, a, t, PinLoad, true);
    SawLonger(before, a, t, PinCheck, true);
    SawLonger(before, a, t, PinCheck, false);
    SawLonger(before, a, t, CloseSwap, true);
    SawPinsLonger(before, a, t, true);
    SawPinsLonger(before, a, t, false);
  }
}
