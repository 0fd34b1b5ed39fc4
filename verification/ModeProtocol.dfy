/**
 The daemon's modes, as its threads interleave: one changes the mode under the mode mutex, and starts or
 stops the DPA handler meanwhile; the worker of the transaction queue tries that mutex, and goes on whether or
 not it got it; clients push transactions at any time.
 */
module ModeProtocol {
  import opened Options
  import opened Runs

  datatype Mode = Operational | Forwarding | Service

  /** How a transaction ended, or was refused. */
  datatype Fate = Executed | Forwarded | Failed | NoInterface | RefusedByService

  /** A client's transaction, or the one that a new DPA handler is probed with. */
  datatype Transaction = Client(id: int) | Probe(n: nat)

  /** What creating a DPA handler comes to: no handler, one that was not probed, or one that is probed. */
  datatype Creation = NoHandler | NotProbed | Probed

  datatype Owner = Nobody | Commander | Worker

  /** Where the thread that changes the mode is, by what it did last; it holds the mutex but at Idle. */
  datatype Change =
    | Idle
    | Entered(target: Mode)
    | Released(target: Mode)
    | Switched(target: Mode)
    | Created(target: Mode)
    | Probing(target: Mode, n: nat)
    | Deleted
    | Cleared
    | Final(target: Mode)
    | Done

  /** Where the queue's worker is; `locked` when it got the mutex. */
  datatype Work =
    | Resting
    | Took(tr: Transaction)
    | Tried(tr: Transaction, locked: bool)
    | Saw(tr: Transaction, locked: bool, mode: Mode)
    | Checked(tr: Transaction, locked: bool, mode: Mode)
    | Using(tr: Transaction, locked: bool, mode: Mode, handler: nat)
    | Ended(tr: Transaction, locked: bool, fate: Fate)
    | Leaving(locked: bool)
  {
    function InHand(): seq<Transaction> {
      if Resting? || Leaving? then [] else [tr]
    }

    predicate Locked() {
      !Resting? && !Took? && locked
    }
  }

  /** How far the daemon's stop is: the queue stopped, the handler deleted, the pointer to it cleared. */
  datatype Stop = Serving | Halted | Dropped(handler: nat) | Gone

  datatype State = State(
    /** Whether there is a UDP component, which forwards messages and may take the interface. */
    configured: bool,
    mode: Mode,
    /** The UDP component has the interface to itself. */
    exclusive: bool,
    /** The handler that is pointed to, none being 0, the handlers not deleted, and how many were made. */
    handler: nat,
    alive: set<nat>,
    made: nat,
    mutex: Owner,
    queue: seq<Transaction>,
    finished: seq<(Transaction, Fate)>,
    probes: nat,
    change: Change,
    work: Work,
    /** The modes asked for so far. */
    asked: seq<Mode>,
    stop: Stop
  ) {
    /** The daemon's stop has not come to the handler. */
    predicate Intact() {
      stop.Serving? || stop.Halted?
    }

    /** The transactions not finished, in order. */
    function Pending(): seq<Transaction> {
      work.InHand() + queue
    }
  }

  predicate Answered(finished: seq<(Transaction, Fate)>, tr: Transaction) {
    exists k :: 0 <= k < |finished| && finished[k].0 == tr
  }

  datatype Step =
    | Push(id: int)
    | Ask(target: Mode)
    | ChangeStep(creation: Creation)
    | Take
    | Try(gets: bool)
    | WorkStep(throws: bool)
    | StopStep

  /** After start-up, with the handler that it created, if any. */
  function Start(configured: bool, made: nat): State
    requires made <= 1
  {
    State(configured, Operational, false, made, if made == 0 then {} else {made}, made,
          Nobody, [], [], 0, Idle, Resting, [], Serving)
  }

  function ChangeNext(s: State, creation: Creation): Option<State> {
    match s.change
    case Idle => None
    case Entered(t) =>
      if t == Service then
        if s.configured then Some(s.(mode := Service, change := Switched(Service))) else Some(s.(change := Done))
      else if t == Forwarding && !s.configured then Some(s.(change := Done))
      else if s.configured && s.mode == Service then Some(s.(exclusive := false, change := Released(t)))
      else Some(s.(mode := t, change := Done))
    case Released(t) => Some(s.(mode := t, change := Switched(t)))
    case Switched(t) =>
      if t == Service then Some(s.(alive := s.alive - {s.handler}, change := Deleted))
      else if creation == NoHandler then Some(s.(change := Final(t)))
      else
        var h := s.made + 1;
        Some(s.(handler := h, alive := s.alive + {h}, made := h,
                change := if creation == Probed then Created(t) else Final(t)))
    case Created(t) =>
      Some(s.(queue := s.queue + [Probe(s.probes)], probes := s.probes + 1, change := Probing(t, s.probes)))
    case Probing(t, n) => if Answered(s.finished, Probe(n)) then Some(s.(change := Final(t))) else None
    case Deleted => Some(s.(handler := 0, change := Cleared))
    case Cleared => Some(s.(exclusive := true, change := Final(Service)))
    case Final(t) => Some(s.(mode := t, change := Done))
    case Done => Some(s.(mutex := Nobody, change := Idle))
  }

  /** The pointer is read twice, when it is checked and when the handler is called. */
  function WorkNext(s: State, throws: bool): Option<State> {
    match s.work
    case Resting => None
    case Took(_) => None
    case Tried(tr, locked) => Some(s.(work := Saw(tr, locked, s.mode)))
    case Saw(tr, locked, mode) =>
      if mode == Service then Some(s.(work := Ended(tr, locked, RefusedByService)))
      else if s.handler == 0 || (mode == Forwarding && !s.configured) then
          Some(s.(work := Ended(tr, locked, NoInterface)))
      else Some(s.(work := Checked(tr, locked, mode)))
    case Checked(tr, locked, mode) => Some(s.(work := Using(tr, locked, mode, s.handler)))
    case Using(tr, locked, mode, _) =>
      Some(s.(work := Ended(tr, locked, if throws then Failed else if mode == Forwarding then Forwarded else Executed)))
    case Ended(tr, locked, fate) => Some(s.(finished := s.finished + [(tr, fate)], work := Leaving(locked)))
    case Leaving(locked) => Some(s.(mutex := if locked then Nobody else s.mutex, work := Resting))
  }

  /** The daemon's stop does not try the mutex. A transaction in hand is told to end, which is up to the handler. */
  function StopNext(s: State): Option<State> {
    match s.stop
    case Serving => Some(s.(stop := Halted))
    case Halted => Some(s.(alive := s.alive - {s.handler}, stop := Dropped(s.handler)))
    case Dropped(_) => Some(s.(handler := 0, stop := Gone))
    case Gone => None
  }

  /** Trying a mutex may fail although it is free. A queue that was stopped gives nothing out. */
  function Next(s: State, a: Step): Option<State> {
    match a
    case Push(id) => Some(s.(queue := s.queue + [Client(id)]))
    case Ask(target) =>
      if s.mutex == Nobody then
        Some(s.(mutex := Commander, change := Entered(target), asked := s.asked + [target]))
      else None
    case ChangeStep(creation) => ChangeNext(s, creation)
    case Take =>
      if s.work.Resting? && s.queue != [] && s.stop.Serving? then
        Some(s.(work := Took(s.queue[0]), queue := s.queue[1..]))
      else None
    case Try(gets) =>
      if s.work.Took? && (gets ==> s.mutex == Nobody) then
        Some(s.(mutex := if gets then Worker else s.mutex, work := Tried(s.work.tr, gets)))
      else None
    case WorkStep(throws) => WorkNext(s, throws)
    case StopStep => StopNext(s)
  }

  // What commands come to.

  /** The mode after one is asked for. */
  function After(mode: Mode, target: Mode, configured: bool): Mode {
    if configured || target == Operational then target else mode
  }

  function AfterAll(mode: Mode, asked: seq<Mode>, configured: bool): Mode {
    if asked == [] then mode
    else After(AfterAll(mode, asked[..|asked| - 1], configured), asked[|asked| - 1], configured)
  }

  /** With the component the last mode asked for decides; without it the daemon stays operational. */
  lemma {:induction false} LastDecides(asked: seq<Mode>, configured: bool)
    ensures AfterAll(Operational, asked, configured)
         == if configured && asked != [] then asked[|asked| - 1] else Operational
    decreases |asked|
  {
    if asked != [] {
      LastDecides(asked[..|asked| - 1], configured);
    }
  }

  // The invariant.

  predicate Locks(s: State) {
    && (s.mutex == Commander <==> !s.change.Idle?)
    && (s.mutex == Worker <==> s.work.Locked())
  }

  /** Between changes the interface is held exactly in service mode, in which there is no handler. */
  predicate Settled(s: State) {
    && (s.exclusive <==> s.mode == Service)
    && (s.mode == Service ==> s.handler == 0 && s.configured)
    && (s.mode == Forwarding ==> s.configured)
  }

  predicate Phase(s: State) {
    match s.change
    case Idle => Settled(s)
    case Entered(_) => Settled(s)
    case Released(t) => s.configured && t != Service && !s.exclusive && s.handler == 0 && s.mode == Service
    case Switched(t) =>
      s.configured && s.mode == t && (s.exclusive ==> t == Service) && (t != Service || s.exclusive ==> s.handler == 0)
    case Created(t) => s.configured && t != Service && s.mode == t && !s.exclusive && (s.Intact() ==> s.handler != 0)
    case Probing(t, _) =>
      s.configured && t != Service && s.mode == t && !s.exclusive && (s.Intact() ==> s.handler != 0)
    case Deleted => s.configured && s.mode == Service
    case Cleared => s.configured && s.mode == Service && s.handler == 0
    case Final(t) => s.mode == t && Settled(s) && s.configured
    case Done => Settled(s)
  }

  /** The handler pointed to is deleted. */
  predicate Stale(s: State) {
    s.change.Deleted? || s.stop == Dropped(s.handler)
  }

  /** Until the daemon stops no handler is left that is not pointed to. */
  predicate Handlers(s: State) {
    && (s.handler in s.alive <==> s.handler != 0 && !Stale(s))
    && (s.Intact() ==> s.alive <= {s.handler})
    && (forall h :: h in s.alive ==> 0 < h <= s.made)
    && s.handler <= s.made && (s.work.Using? ==> s.work.handler <= s.made)
    && (s.stop.Dropped? ==> s.stop.handler <= s.made)
  }

  /** The mode is the one that what was asked for came to, but for the change under way. */
  predicate Obeyed(change: Change, mode: Mode, asked: seq<Mode>, configured: bool) {
    if change.Idle? || change.Done? then mode == AfterAll(Operational, asked, configured)
    else
      && asked != []
      && (if change.Entered? then
            asked[|asked| - 1] == change.target && mode == AfterAll(Operational, asked[..|asked| - 1], configured)
          else if change.Deleted? || change.Cleared? then asked[|asked| - 1] == Service
          else asked[|asked| - 1] == change.target)
  }

  /** A probe that is not finished is the one waited for, which is either pending, once, or finished. */
  predicate Probes(p: seq<Transaction>, finished: seq<(Transaction, Fate)>, probes: nat, change: Change) {
    && (forall tr :: tr in p && tr.Probe? ==> change.Probing? && tr.n == change.n)
    && (change.Probing? ==>
          var probe := Probe(change.n);
          change.n < probes && multiset(p)[probe] == if Answered(finished, probe) then 0 else 1)
    && (forall k :: 0 <= k < |finished| && finished[k].0.Probe? ==> finished[k].0.n < probes)
  }

  predicate Ran(fate: Fate) {
    fate == Executed || fate == Forwarded || fate == Failed
  }

  /** A probe is not refused, and runs unless the daemon stops. */
  predicate Fares(fate: Fate, intact: bool) {
    fate != RefusedByService && (intact ==> Ran(fate))
  }

  /** The probe meets the new handler, in the new mode. */
  predicate Met(s: State) {
    && (s.work.Saw? && s.work.tr.Probe? ==> s.work.mode == s.mode)
    && (s.work.Using? && s.work.tr.Probe? && s.Intact() ==> s.work.handler == s.handler)
    && (s.work.Ended? && s.work.tr.Probe? ==> Fares(s.work.fate, s.Intact()))
    && (forall k :: 0 <= k < |s.finished| && s.finished[k].0.Probe? ==> Fares(s.finished[k].1, s.Intact()))
  }

  /** Whoever got the mutex uses a handler that is not deleted, unless the daemon stops. */
  predicate Guarded(s: State) {
    && (s.work.Checked? && s.work.locked && s.Intact() ==> s.handler != 0)
    && (s.work.Using? && s.work.locked && s.Intact() ==> s.work.handler == s.handler != 0)
  }

  ghost predicate Inv(s: State) {
    && Locks(s) && Phase(s) && Handlers(s) && Obeyed(s.change, s.mode, s.asked, s.configured)
    && Probes(s.Pending(), s.finished, s.probes, s.change) && Met(s) && Guarded(s)
  }

  lemma LocksStep(s: State, a: Step)
    requires Locks(s) && Next(s, a).Some?
    ensures Locks(Next(s, a).value)
  {
  }

  lemma PhaseByChange(s: State, creation: Creation)
    requires Phase(s) && Handlers(s) && ChangeNext(s, creation).Some?
    ensures Phase(ChangeNext(s, creation).value)
  {
  }

  lemma HandlersStep(s: State, a: Step)
    requires Locks(s) && Phase(s) && Handlers(s) && Next(s, a).Some?
    ensures Handlers(Next(s, a).value)
  {
  }

  lemma PhaseStep(s: State, a: Step)
    requires Locks(s) && Phase(s) && Handlers(s) && Next(s, a).Some?
    ensures Phase(Next(s, a).value) && Handlers(Next(s, a).value)
  {
    HandlersStep(s, a);
    if a.ChangeStep? {
      PhaseByChange(s, a.creation);
    }
  }

  lemma ObeyedAsked(mode: Mode, asked: seq<Mode>, target: Mode, configured: bool)
    requires Obeyed(Idle, mode, asked, configured)
    ensures Obeyed(Entered(target), mode, asked + [target], configured)
  {
    assert (asked + [target])[..|asked|] == asked;
  }

  /** A change that is over, or has only to give the mutex back, has come to what was asked for. */
  lemma ObeyedDone(s: State, target: Mode)
    requires s.asked != [] && s.asked[|s.asked| - 1] == target && (s.configured || target == Operational)
    ensures Obeyed(Done, target, s.asked, s.configured)
  {
  }

  lemma ObeyedEntered(s: State, creation: Creation)
    requires s.change.Entered? && Settled(s) && Obeyed(s.change, s.mode, s.asked, s.configured)
    ensures var t := ChangeNext(s, creation).value; Obeyed(t.change, t.mode, t.asked, t.configured)
  {
  }

  lemma ObeyedStep(s: State, a: Step)
    requires Locks(s) && Phase(s) && Obeyed(s.change, s.mode, s.asked, s.configured) && Next(s, a).Some?
    ensures var t := Next(s, a).value; Obeyed(t.change, t.mode, t.asked, t.configured)
  {
    match a {
      case Ask(target) => ObeyedAsked(s.mode, s.asked, target, s.configured);
      case ChangeStep(creation) =>
        if s.change.Entered? {
          ObeyedEntered(s, creation);
        } else if s.change.Final? {
          ObeyedDone(s, s.change.target);
        }
      case _ =>
    }
  }

  /** One more is pending, at the end; a probe is new. */
  lemma ProbesPushed(p: seq<Transaction>, finished: seq<(Transaction, Fate)>, probes: nat,
      change: Change, tr: Transaction, t: Mode)
    requires Probes(p, finished, probes, change)
    ensures tr.Client? ==> Probes(p + [tr], finished, probes, change)
    ensures !change.Probing? && tr == Probe(probes) ==> Probes(p + [tr], finished, probes + 1, Probing(t, probes))
  {
    assert multiset(p + [tr]) == multiset(p) + multiset{tr};
    if tr == Probe(probes) && !change.Probing? {
      assert tr !in p;
    }
  }

  /** The one in hand is finished. */
  lemma ProbesEnded(tr: Transaction, p: seq<Transaction>, finished: seq<(Transaction, Fate)>,
      fate: Fate, probes: nat, change: Change)
    requires Probes([tr] + p, finished, probes, change)
    ensures Probes(p, finished + [(tr, fate)], probes, change)
  {
    var all, after := [tr] + p, finished + [(tr, fate)];
    assert multiset(all) == multiset{tr} + multiset(p);
    assert tr in all && forall x :: x in p ==> x in all;
    forall x ensures Answered(after, x) <==> x == tr || Answered(finished, x) {
      AnsweredNext(finished, tr, fate, x);
    }
  }

  lemma AnsweredNext(finished: seq<(Transaction, Fate)>, tr: Transaction, fate: Fate, x: Transaction)
    ensures Answered(finished + [(tr, fate)], x) <==> x == tr || Answered(finished, x)
  {
    var after := finished + [(tr, fate)];
    assert after[|finished|].0 == tr;
    if k :| 0 <= k < |finished| && finished[k].0 == x {
      assert after[k].0 == x;
    }
  }

  /** With the probe finished none is pending. */
  lemma ProbesOver(p: seq<Transaction>, finished: seq<(Transaction, Fate)>, probes: nat,
      change: Change, next: Change)
    requires Probes(p, finished, probes, change) && !next.Probing?
    requires change.Probing? ==> Answered(finished, Probe(change.n))
    ensures Probes(p, finished, probes, next)
  {
    if change.Probing? {
      assert Probe(change.n) !in multiset(p);
    }
  }

  lemma ChangeKeeps(s: State, creation: Creation)
    requires ChangeNext(s, creation).Some? && !s.change.Created?
    ensures
      var t := ChangeNext(s, creation).value;
      && t.Pending() == s.Pending() && t.finished == s.finished && t.probes == s.probes && !t.change.Probing?
      && (s.change.Probing? ==> Answered(s.finished, Probe(s.change.n)))
  {
  }

  lemma ChangePushes(s: State, creation: Creation)
    requires ChangeNext(s, creation).Some? && s.change.Created?
    ensures
      var t := ChangeNext(s, creation).value;
      && t.Pending() == s.Pending() + [Probe(s.probes)] && t.finished == s.finished && t.probes == s.probes + 1
      && t.change == Probing(s.change.target, s.probes)
  {
  }

  lemma ProbesByChange(s: State, creation: Creation)
    requires Probes(s.Pending(), s.finished, s.probes, s.change) && ChangeNext(s, creation).Some?
    ensures var t := ChangeNext(s, creation).value; Probes(t.Pending(), t.finished, t.probes, t.change)
  {
    if s.change.Created? {
      ChangePushes(s, creation);
      ProbesPushed(s.Pending(), s.finished, s.probes, s.change, Probe(s.probes), s.change.target);
    } else {
      ChangeKeeps(s, creation);
      ProbesOver(s.Pending(), s.finished, s.probes, s.change, ChangeNext(s, creation).value.change);
    }
  }

  lemma WorkKeeps(s: State, throws: bool)
    requires WorkNext(s, throws).Some?
    ensures
      var t := WorkNext(s, throws).value;
      && t.probes == s.probes && t.change == s.change
      && (if s.work.Ended? then
            s.Pending() == [s.work.tr] + t.Pending() && t.finished == s.finished + [(s.work.tr, s.work.fate)]
          else t.Pending() == s.Pending() && t.finished == s.finished)
  {
  }

  lemma ProbesByWork(s: State, throws: bool)
    requires Probes(s.Pending(), s.finished, s.probes, s.change) && WorkNext(s, throws).Some?
    ensures var t := WorkNext(s, throws).value; Probes(t.Pending(), t.finished, t.probes, t.change)
  {
    WorkKeeps(s, throws);
    if s.work.Ended? {
      ProbesEnded(s.work.tr, WorkNext(s, throws).value.Pending(), s.finished, s.work.fate, s.probes, s.change);
    }
  }

  /** The other steps. */
  lemma OthersKeep(s: State, a: Step)
    requires Next(s, a).Some? && (a.Push? || a.Ask? || a.Take? || a.Try? || a.StopStep?)
    ensures
      var t := Next(s, a).value;
      && t.Pending() == (if a.Push? then s.Pending() + [Client(a.id)] else s.Pending())
      && t.finished == s.finished && t.probes == s.probes
      && (if a.Ask? then !t.change.Probing? else t.change == s.change)
  {
  }

  lemma ProbesStep(s: State, a: Step)
    requires Locks(s) && Probes(s.Pending(), s.finished, s.probes, s.change) && Next(s, a).Some?
    ensures var t := Next(s, a).value; Probes(t.Pending(), t.finished, t.probes, t.change)
  {
    match a {
      case ChangeStep(creation) => ProbesByChange(s, creation);
      case WorkStep(throws) => ProbesByWork(s, throws);
      case Push(id) =>
        OthersKeep(s, a);
        ProbesPushed(s.Pending(), s.finished, s.probes, s.change, Client(id), Operational);
      case Ask(target) =>
        OthersKeep(s, a);
        ProbesOver(s.Pending(), s.finished, s.probes, s.change, Entered(target));
      case _ => OthersKeep(s, a);
    }
  }

  lemma MetByWork(s: State, throws: bool)
    requires Phase(s) && Probes(s.Pending(), s.finished, s.probes, s.change) && Met(s) && WorkNext(s, throws).Some?
    ensures Met(WorkNext(s, throws).value)
  {
    if s.work.InHand() != [] && s.work.tr.Probe? {
      assert s.work.tr in s.Pending();
    }
  }

  lemma MetStep(s: State, a: Step)
    requires Locks(s) && Phase(s) && Probes(s.Pending(), s.finished, s.probes, s.change) && Met(s) && Next(s, a).Some?
    ensures Met(Next(s, a).value)
  {
    if a.WorkStep? {
      MetByWork(s, a.throws);
    } else if s.work.InHand() != [] && s.work.tr.Probe? {
      assert s.work.tr in s.Pending();
    }
    if s.change.Probing? && Answered(s.finished, Probe(s.change.n)) {
      assert Probe(s.change.n) !in multiset(s.Pending());
    }
  }

  lemma GuardedStep(s: State, a: Step)
    requires Locks(s) && Phase(s) && Guarded(s) && Next(s, a).Some?
    ensures Guarded(Next(s, a).value)
  {
  }

  lemma InvStep(s: State, a: Step)
    requires Inv(s) && Next(s, a).Some?
    ensures Inv(Next(s, a).value)
  {
    LocksStep(s, a);
    PhaseStep(s, a);
    ObeyedStep(s, a);
    ProbesStep(s, a);
    MetStep(s, a);
    GuardedStep(s, a);
  }

  // Runs.

  lemma RunKeepsInv(s: State, steps: seq<Step>, end: State)
    requires Inv(s) && Run(Next, s, steps, end)
    ensures Inv(end)
  {
    forall t, a | Inv(t) && Next(t, a).Some? ensures Inv(Next(t, a).value) {
      InvStep(t, a);
    }
    Kept(Next, Inv, s, steps, end);
  }

  lemma StartInv(configured: bool, made: nat)
    requires made <= 1
    ensures Inv(Start(configured, made))
  {
  }

  /**
   In every reachable state a probe that is waiting or running meets a mode other than service, and no probe that
   has ended was refused. Until the daemon's stop deletes the handler it meets one, and ran if it has ended.
   */
  lemma ProbeNotRefused(configured: bool, made: nat, steps: seq<Step>, end: State)
    requires made <= 1 && Run(Next, Start(configured, made), steps, end)
    ensures forall tr :: tr in end.Pending() && tr.Probe? ==>
              end.mode != Service && (end.Intact() ==> end.handler in end.alive)
    ensures forall k :: 0 <= k < |end.finished| && end.finished[k].0.Probe? ==>
              end.finished[k].1 != RefusedByService && (end.Intact() ==> Ran(end.finished[k].1))
  {
    StartInv(configured, made);
    RunKeepsInv(Start(configured, made), steps, end);
  }

  /**
   Whenever nobody changes the mode, it is the one that the commands came to, the interface is held exactly
   in service mode, and that mode has no handler.
   */
  lemma HeldInService(configured: bool, made: nat, steps: seq<Step>, end: State)
    requires made <= 1 && Run(Next, Start(configured, made), steps, end) && end.mutex != Commander
    ensures end.exclusive <==> end.mode == Service
    ensures end.mode == Service ==> end.handler == 0
    ensures end.mode == if configured && end.asked != [] then end.asked[|end.asked| - 1] else Operational
  {
    StartInv(configured, made);
    RunKeepsInv(Start(configured, made), steps, end);
    RunConfigured(Start(configured, made), steps, end);
    LastDecides(end.asked, configured);
  }

  lemma RunConfigured(s: State, steps: seq<Step>, end: State)
    requires Run(Next, s, steps, end)
    ensures end.configured == s.configured
    decreases |steps|
  {
    if steps != [] {
      RunConfigured(Next(s, steps[0]).value, steps[1..], end);
    }
  }

  // How transactions end.

  /** The change under way is to a mode that was asked for. */
  predicate Targeted(change: Change, asked: seq<Mode>) {
    !change.Idle? && !change.Deleted? && !change.Cleared? && !change.Done? ==> change.target in asked
  }

  predicate Known(mode: Mode, asked: seq<Mode>) {
    mode != Operational ==> mode in asked
  }

  predicate Owed(fate: Fate, asked: seq<Mode>) {
    (fate == Forwarded ==> Forwarding in asked) && (fate == RefusedByService ==> Service in asked)
  }

  predicate Owing(s: State) {
    && Known(s.mode, s.asked) && Targeted(s.change, s.asked)
    && (s.change.Deleted? || s.change.Cleared? ==> Service in s.asked)
    && (s.work.Saw? || s.work.Checked? || s.work.Using? ==> Known(s.work.mode, s.asked))
    && (s.work.Ended? ==> Owed(s.work.fate, s.asked))
    && (forall k :: 0 <= k < |s.finished| ==> Owed(s.finished[k].1, s.asked))
  }

  lemma OwingByWork(s: State, throws: bool)
    requires Owing(s) && WorkNext(s, throws).Some?
    ensures Owing(WorkNext(s, throws).value)
  {
  }

  lemma OwingStep(s: State, a: Step)
    requires Owing(s) && Next(s, a).Some?
    ensures Owing(Next(s, a).value)
  {
    if a.WorkStep? {
      OwingByWork(s, a.throws);
    }
  }

  /** Nothing is forwarded, or refused, unless the mode that does so was asked for. */
  lemma FatesAsked(configured: bool, made: nat, steps: seq<Step>, end: State, k: nat)
    requires made <= 1 && Run(Next, Start(configured, made), steps, end) && k < |end.finished|
    ensures end.finished[k].1 == Forwarded ==> Forwarding in end.asked
    ensures end.finished[k].1 == RefusedByService ==> Service in end.asked
  {
    forall t, a | Owing(t) && Next(t, a).Some? ensures Owing(Next(t, a).value) {
      OwingStep(t, a);
    }
    Kept(Next, Owing, Start(configured, made), steps, end);
  }

  /** What the mode that the worker read makes of a transaction. */
  lemma FateByMode(s: State, throws: bool)
    requires s.work.Using?
    ensures
      var t := WorkNext(s, throws).value;
      && t.work.Ended? && t.work.tr == s.work.tr
      && (t.work.fate == Failed <==> throws)
      && (t.work.fate == Executed <==> !throws && s.work.mode != Forwarding)
  {
  }

  /** The daemon's stop, whoever has the mutex, has three steps: then the handler is deleted and its pointer cleared. */
  lemma StopEnds(s: State, a: State, b: State, c: State)
    requires s.stop.Serving?
    requires Next(s, StopStep) == Some(a) && Next(a, StopStep) == Some(b) && Next(b, StopStep) == Some(c)
    ensures a == s.(stop := Halted) && b.handler == s.handler && b.alive == s.alive - {s.handler}
    ensures c.stop == Gone && c.handler == 0 && c.alive == b.alive && c.mutex == s.mutex
    ensures Next(c, StopStep) == None
  {
  }

  /** And can always go on. */
  lemma StopGoesOn(s: State)
    ensures Next(s, StopStep).Some? <==> s.stop != Gone
    ensures Next(s, StopStep).Some? ==> Next(s, StopStep).value.work == s.work
  {
  }

  // The probe is waited for, under the mutex, by a thread that the worker never waits for.

  /** The worker's steps to the end of the transaction in hand. */
  function Rank(w: Work): nat {
    match w
    case Resting => 0
    case Leaving(_) => 1
    case Ended(_, _, _) => 2
    case Using(_, _, _, _) => 3
    case Checked(_, _, _) => 4
    case Saw(_, _, _) => 5
    case Tried(_, _) => 6
    case Took(_) => 7
  }

  /** How many transactions are taken before this one is, it included. */
  function Before(queue: seq<Transaction>, tr: Transaction): nat {
    if queue == [] || queue[0] == tr then 1 else 1 + Before(queue[1..], tr)
  }

  /** A bound for the worker's steps until the transaction is finished. */
  function Ahead(s: State, tr: Transaction): nat {
    Rank(s.work) + if tr in s.work.InHand() then 0 else 8 * Before(s.queue, tr)
  }

  predicate ByWorker(a: Step) { a.Take? || a.Try? || a.WorkStep? }

  lemma {:induction false} BeforePushed(queue: seq<Transaction>, tr: Transaction, other: Transaction)
    requires tr in queue || tr != other
    ensures tr in queue ==> Before(queue + [other], tr) == Before(queue, tr)
  {
    if queue != [] && queue[0] != tr {
      assert (queue + [other])[1..] == queue[1..] + [other];
      if tr in queue {
        BeforePushed(queue[1..], tr, other);
      }
    }
  }

  /** Where the probe that is waited for is. */
  lemma ProbeSomewhere(s: State)
    requires Inv(s) && s.change.Probing? && !Answered(s.finished, Probe(s.change.n))
    ensures Probe(s.change.n) in s.work.InHand() || Probe(s.change.n) in s.queue
  {
    assert Probe(s.change.n) in multiset(s.Pending());
  }

  lemma ProbeNearer(s: State, a: Step, probe: Transaction)
    requires Next(s, a).Some? && (probe in s.work.InHand() || probe in s.queue) && ByWorker(a)
    ensures var t := Next(s, a).value; Answered(t.finished, probe) || Ahead(t, probe) < Ahead(s, probe)
  {
    if a.WorkStep? && s.work.Ended? {
      AnsweredNext(s.finished, s.work.tr, s.work.fate, probe);
    }
  }

  /**
   While a probe is waited for each step of the worker brings it nearer, and no other delays it. The worker can
   go on exactly when the queue was not stopped or it has a transaction in hand.
   */
  lemma ProbeProgress(s: State, a: Step)
    requires Inv(s) && s.change.Probing? && !Answered(s.finished, Probe(s.change.n)) && Next(s, a).Some?
    ensures
      var (t, probe) := (Next(s, a).value, Probe(s.change.n));
      && t.change == s.change
      && (Answered(t.finished, probe)
          || (if ByWorker(a) then Ahead(t, probe) < Ahead(s, probe) else Ahead(t, probe) == Ahead(s, probe)))
    ensures Next(s, Take).Some? || Next(s, Try(false)).Some? || Next(s, WorkStep(false)).Some?
       <==> s.stop.Serving? || !s.work.Resting?
  {
    var probe := Probe(s.change.n);
    ProbeSomewhere(s);
    if ByWorker(a) {
      ProbeNearer(s, a, probe);
    } else if a.Push? {
      BeforePushed(s.queue, probe, Client(a.id));
    }
  }

  /** The queue was stopped before the worker took the probe, and the worker is through with what it had. */
  predicate Stuck(s: State, n: nat) {
    s.change.Probing? && s.change.n == n && s.work.Resting? && !s.stop.Serving? && !Answered(s.finished, Probe(n))
  }

  /** Then the probe is never finished, and the mutex never given back. */
  lemma ProbeStuck(s: State, steps: seq<Step>, end: State, n: nat)
    requires Locks(s) && Stuck(s, n) && Run(Next, s, steps, end)
    ensures Stuck(end, n) && end.mutex == Commander
    decreases |steps|
  {
    if steps != [] {
      LocksStep(s, steps[0]);
      ProbeStuck(Next(s, steps[0]).value, steps[1..], end, n);
    }
  }

  // Handlers in use.

  /** The worker is in a call of a handler that was deleted, or of none. */
  predicate Dangling(s: State) {
    s.work.Using? && s.work.handler !in s.alive
  }

  /** The step deletes the handler pointed to, if any: a change to service mode does, and the daemon's stop. */
  predicate Deletes(s: State, a: Step) {
    (a.ChangeStep? && s.change == Switched(Service)) || (a.StopStep? && s.stop.Halted?)
  }

  /**
   Exactly these steps make a call dangle: deleting the handler that is called, and calling what is
   deleted or cleared.
   */
  lemma DanglesBy(s: State, a: Step)
    requires Inv(s) && Next(s, a).Some?
    ensures
      var t := Next(s, a).value;
      Dangling(t) <==>
        || (Dangling(s) && !ByWorker(a))
        || (Deletes(s, a) && s.work.Using? && s.work.handler == s.handler)
        || (a.WorkStep? && s.work.Checked? && (Stale(s) || s.handler == 0))
  {
  }

  /** The worker has a transaction that is not through with its handler. */
  predicate Busy(w: Work) {
    w.Took? || w.Tried? || (w.Saw? && w.mode != Service) || w.Checked? || w.Using?
  }

  /** The daemon's stop deletes the handler while the worker has such a transaction. */
  predicate StopsUnder(s: State, a: Step) {
    a.StopStep? && s.stop.Halted? && Busy(s.work)
  }

  /** The handler is deleted while the worker is between reading the mode and the end of its call, or so stopped. */
  predicate DeletesUnder(s: State, a: Step) {
    || (a.ChangeStep? && s.change == Switched(Service) && Busy(s.work) && !s.work.Took? && !s.work.Tried?)
    || StopsUnder(s, a)
  }

  /** What the worker has in hand meets no stop. */
  predicate Unstopped(s: State) {
    Busy(s.work) ==> s.Intact()
  }

  lemma UnstoppedStep(s: State, a: Step)
    requires Unstopped(s) && Next(s, a).Some? && !StopsUnder(s, a)
    ensures Unstopped(Next(s, a).value)
  {
  }

  lemma {:induction false} UnstoppedRun(s: State, steps: seq<Step>, end: State)
    requires Inv(s) && Unstopped(s) && Run(Next, s, steps, end) && !Sometime(Next, StopsUnder, s, steps)
    ensures Inv(end) && Unstopped(end)
    decreases |steps|
  {
    if steps != [] {
      InvStep(s, steps[0]);
      UnstoppedStep(s, steps[0]);
      UnstoppedRun(Next(s, steps[0]).value, steps[1..], end);
    }
  }

  /** Whoever got the mutex calls a handler that stays, unless the daemon's stop deletes it meanwhile. */
  lemma {:induction false} LockedSafe(configured: bool, made: nat, steps: seq<Step>, end: State)
    requires made <= 1 && Run(Next, Start(configured, made), steps, end) && end.work.Locked()
    requires !Sometime(Next, StopsUnder, Start(configured, made), steps)
    ensures !Dangling(end)
  {
    StartInv(configured, made);
    UnstoppedRun(Start(configured, made), steps, end);
  }

  /** What the worker has read or checked still holds. */
  predicate Steady(s: State) {
    && Unstopped(s)
    && (s.work.Saw? && s.work.mode != Service ==> !s.change.Deleted?)
    && (s.work.Checked? ==> s.handler in s.alive)
    && !Dangling(s)
  }

  lemma ReadSteady(s: State, a: Step)
    requires Locks(s) && Phase(s) && Handlers(s) && Steady(s) && Next(s, a).Some? && !DeletesUnder(s, a)
    ensures
      var t := Next(s, a).value;
      && (t.work.Saw? && t.work.mode != Service ==> !t.change.Deleted?)
      && (t.work.Checked? ==> t.handler in t.alive)
  {
    HandlersStep(s, a);
  }

  lemma SteadyStep(s: State, a: Step)
    requires Inv(s) && Steady(s) && Next(s, a).Some? && !DeletesUnder(s, a)
    ensures Steady(Next(s, a).value)
  {
    UnstoppedStep(s, a);
    DanglesBy(s, a);
    ReadSteady(s, a);
  }

  /** No call ever dangles as long as no handler is deleted under it. */
  lemma {:induction false} NothingDangles(s: State, steps: seq<Step>, end: State)
    requires Inv(s) && Steady(s) && Run(Next, s, steps, end) && !Sometime(Next, DeletesUnder, s, steps)
    ensures !Dangling(end)
    decreases |steps|
  {
    if steps != [] {
      SteadyStep(s, steps[0]);
      InvStep(s, steps[0]);
      NothingDangles(Next(s, steps[0]).value, steps[1..], end);
    }
  }

  /** A worker that got the mutex can be met so by the daemon's stop only. */
  lemma DeletesUnlocked(s: State, a: Step)
    requires Inv(s) && DeletesUnder(s, a)
    ensures s.work.Locked() ==> StopsUnder(s, a)
  {
  }

  // It does happen.

  /**
   The worker takes a transaction just after service mode was asked for: it does not get the mutex, still
   reads the old mode, and calls the handler that is deleted next.
   */
  lemma DanglesReached() returns (steps: seq<Step>, end: State)
    ensures Run(Next, Start(true, 1), steps, end) && Dangling(end) && end.stop.Serving?
  {
    steps, end := [], Start(true, 1);
    steps, end := OneMore(Next, Start(true, 1), steps, end, Push(7));
    steps, end := OneMore(Next, Start(true, 1), steps, end, Ask(Service));
    steps, end := OneMore(Next, Start(true, 1), steps, end, Take);
    steps, end := OneMore(Next, Start(true, 1), steps, end, Try(false));
    steps, end := OneMore(Next, Start(true, 1), steps, end, WorkStep(false));
    steps, end := OneMore(Next, Start(true, 1), steps, end, WorkStep(false));
    steps, end := OneMore(Next, Start(true, 1), steps, end, WorkStep(false));
    steps, end := OneMore(Next, Start(true, 1), steps, end, ChangeStep(NoHandler));
    steps, end := OneMore(Next, Start(true, 1), steps, end, ChangeStep(NoHandler));
  }

  /** The daemon's stop deletes the handler that a transaction calls although it got the mutex. */
  lemma StopDanglesReached() returns (steps: seq<Step>, end: State)
    ensures Run(Next, Start(true, 1), steps, end) && Dangling(end) && end.work.Locked()
  {
    steps, end := [], Start(true, 1);
    steps, end := OneMore(Next, Start(true, 1), steps, end, Push(7));
    steps, end := OneMore(Next, Start(true, 1), steps, end, Take);
    steps, end := OneMore(Next, Start(true, 1), steps, end, StopStep);
    steps, end := OneMore(Next, Start(true, 1), steps, end, Try(true));
    steps, end := OneMore(Next, Start(true, 1), steps, end, WorkStep(false));
    steps, end := OneMore(Next, Start(true, 1), steps, end, WorkStep(false));
    steps, end := OneMore(Next, Start(true, 1), steps, end, WorkStep(false));
    steps, end := OneMore(Next, Start(true, 1), steps, end, StopStep);
  }

  /** The queue is stopped while operational mode, asked for after service mode, waits for its probe. */
  lemma StuckReached() returns (steps: seq<Step>, end: State)
    ensures Run(Next, Start(true, 1), steps, end) && Stuck(end, 0)
  {
    steps, end := [], Start(true, 1);
    steps, end := OneMore(Next, Start(true, 1), steps, end, Ask(Service));
    steps, end := OneMore(Next, Start(true, 1), steps, end, ChangeStep(NoHandler));
    steps, end := OneMore(Next, Start(true, 1), steps, end, ChangeStep(NoHandler));
    steps, end := OneMore(Next, Start(true, 1), steps, end, ChangeStep(NoHandler));
    steps, end := OneMore(Next, Start(true, 1), steps, end, ChangeStep(NoHandler));
    steps, end := OneMore(Next, Start(true, 1), steps, end, ChangeStep(NoHandler));
    steps, end := OneMore(Next, Start(true, 1), steps, end, ChangeStep(NoHandler));
    steps, end := OneMore(Next, Start(true, 1), steps, end, Ask(Operational));
    steps, end := OneMore(Next, Start(true, 1), steps, end, ChangeStep(NoHandler));
    steps, end := OneMore(Next, Start(true, 1), steps, end, ChangeStep(NoHandler));
    steps, end := OneMore(Next, Start(true, 1), steps, end, ChangeStep(Probed));
    steps, end := OneMore(Next, Start(true, 1), steps, end, ChangeStep(Probed));
    steps, end := OneMore(Next, Start(true, 1), steps, end, StopStep);
  }
}
