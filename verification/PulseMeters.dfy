/**
 Pulse-meter synchronisation. Two threads act on the meters: the scheduler's worker runs the handlers
 of FRC polls and of meter polls, one at a time, and the queue's worker synchronises meters that
 answered an FRC. The protocol is a state machine over the steps of both, as they may interleave.
 */
module PulseMeters {
  import opened Options
  import opened Runs

  const INVALID := 0

  /** Where the scheduler's worker is; `h` is the handle it read. */
  datatype Worker =
    | Idle
    | Frc(next: nat, stop: bool, alive: seq<bool>)
    | ReadHandle(m: nat, lost: bool)
    | RemoveTask(m: nat, lost: bool, h: int)
    | ResetHandle(m: nat, lost: bool, h: int)
    | Unsync(m: nat)
    | Seek(m: nat)

  /** Where the queue's worker is. */
  datatype Syncer =
    | Free
    | Taken(m: nat)
    | SetSync(m: nat)
    | Reading(m: nat)
    | Removing(m: nat, h: int)
    | Resetting(m: nat)
    | Scheduling(m: nat)
    | Assigning(m: nat, h: int)

  datatype Fired = FrcFired | PollFired(m: nat)

  datatype State = State(
    sync: seq<bool>,
    handle: seq<int>,
    queue: seq<nat>,
    frcActive: bool,
    frcHandle: int,
    /** The scheduler's live tasks of this client: FRC polls, and the meter of each meter poll. */
    frcs: set<int>,
    polls: map<int, nat>,
    /** Tasks that have fired and not yet been handled. */
    fired: seq<Fired>,
    /** Handles given out so far. */
    used: set<int>,
    worker: Worker,
    syncer: Syncer
  ) {
    predicate Meter(m: nat) { m < |sync| }

    /** The meter is on its way to be synchronised. */
    predicate Pending(m: nat) {
      m in queue || syncer == Taken(m) || syncer == SetSync(m)
    }

    /** Some thread knows the handle of this live poll: its meter, or the thread that assigns or removes it. */
    predicate Claimed(h: int)
      requires h in polls
    {
      || (polls[h] < |handle| && handle[polls[h]] == h)
      || syncer == Assigning(polls[h], h)
      || (syncer.Removing? && syncer.h == h)
      || (worker.RemoveTask? && worker.h == h)
    }

    /** Live polls that nothing can remove any more. */
    function Orphans(): set<int> {
      set h | h in polls && !Claimed(h)
    }
  }

  /**
   A task fires, a handler starts with the answer it waited for, or a thread goes on; a task scheduled
   gets the handle drawn.
   */
  datatype Step =
    | Fires(h: int)
    | FrcError
    | FrcAnswer(alive: seq<bool>)
    | PollAnswer(result: int)
    | WorkerStep(drawn: int)
    | Take
    | SyncerStep(drawn: int)

  function Start(meters: nat, h: int): State {
    State(seq(meters, _ => false), seq(meters, _ => INVALID), [], true, h, {h}, map[], [], {h}, Idle, Free)
  }

  /** Handles are never zero and, drawn at random from a large range, taken never to come again. */
  predicate Fresh(s: State, h: int) {
    h != INVALID && h !in s.used
  }

  function SetFrc(s: State, val: bool, h: int): State {
    if val == s.frcActive then s
    else if val then s.(frcActive := true, frcHandle := h, frcs := s.frcs + {h}, used := s.used + {h})
    else s.(frcActive := false, frcs := s.frcs - {s.frcHandle})
  }

  function WorkerNext(s: State, drawn: int): Option<State> {
    match s.worker
    case Idle => None
    case Frc(k, stop, alive) =>
      if k < |s.sync| then
        if s.sync[k] then Some(s.(worker := Frc(k + 1, stop, alive)))
        else if k < |alive| && alive[k] then Some(s.(worker := Frc(k + 1, stop, alive), queue := s.queue + [k]))
        else Some(s.(worker := Frc(k + 1, false, alive)))
      else Some(SetFrc(s, !stop, drawn).(worker := Idle))
    case ReadHandle(m, lost) =>
      if s.Meter(m) && m < |s.handle| then Some(s.(worker := RemoveTask(m, lost, s.handle[m]))) else None
    case RemoveTask(m, lost, h) => Some(s.(polls := s.polls - {h}, worker := ResetHandle(m, lost, h)))
    case ResetHandle(m, lost, h) =>
      if m < |s.handle| then
        Some(s.(handle := s.handle[m := INVALID], worker := if lost then Unsync(m) else Idle))
      else None
    case Unsync(m) => if m < |s.sync| then Some(s.(sync := s.sync[m := false], worker := Seek(m))) else None
    case Seek(m) => Some(SetFrc(s, true, drawn).(worker := Idle))
  }

  function SyncerNext(s: State, drawn: int): Option<State> {
    match s.syncer
    case Free => None
    case Taken(m) => if m < |s.sync| then Some(s.(syncer := if s.sync[m] then Free else SetSync(m))) else None
    case SetSync(m) => if m < |s.sync| then Some(s.(sync := s.sync[m := true], syncer := Reading(m))) else None
    case Reading(m) => if m < |s.handle| then Some(s.(syncer := Removing(m, s.handle[m]))) else None
    case Removing(m, h) => Some(s.(polls := s.polls - {h}, syncer := Resetting(m)))
    case Resetting(m) =>
      if m < |s.handle| then Some(s.(handle := s.handle[m := INVALID], syncer := Scheduling(m))) else None
    case Scheduling(m) =>
      Some(s.(polls := s.polls[drawn := m], used := s.used + {drawn}, syncer := Assigning(m, drawn)))
    case Assigning(m, h) =>
      if m < |s.handle| then
        Some(s.(handle := s.handle[m := h], syncer := Free))
      else None
  }

  function Next(s: State, a: Step): Option<State> {
    match a
    case Fires(h) =>
      if h in s.frcs then Some(s.(fired := s.fired + [FrcFired]))
      else if h in s.polls then Some(s.(fired := s.fired + [PollFired(s.polls[h])]))
      else None
    case FrcError =>
      if s.worker.Idle? && s.fired != [] && s.fired[0].FrcFired? then Some(s.(fired := s.fired[1..])) else None
    case FrcAnswer(alive) =>
      if s.worker.Idle? && s.fired != [] && s.fired[0].FrcFired? then
        Some(s.(fired := s.fired[1..], worker := Frc(0, true, alive)))
      else None
    case PollAnswer(result) =>
      if s.worker.Idle? && s.fired != [] && s.fired[0].PollFired? && s.Meter(s.fired[0].m) then
        Some(s.(fired := s.fired[1..],
                worker := if result == 0 then Idle else ReadHandle(s.fired[0].m, result == -1)))
      else None
    case WorkerStep(drawn) => if Fresh(s, drawn) then WorkerNext(s, drawn) else None
    case Take =>
      if s.syncer.Free? && s.queue != [] then Some(s.(syncer := Taken(s.queue[0]), queue := s.queue[1..])) else None
    case SyncerStep(drawn) => if Fresh(s, drawn) then SyncerNext(s, drawn) else None
  }

  // The invariant.

  predicate WorkerShaped(s: State) {
    match s.worker
    case Idle => true
    case Frc(k, _, _) => k <= |s.sync|
    case ReadHandle(m, _) => s.Meter(m)
    case RemoveTask(m, _, h) => s.Meter(m) && (h in s.used || h == INVALID)
    case ResetHandle(m, _, h) => s.Meter(m) && (h in s.used || h == INVALID)
    case Unsync(m) => s.Meter(m)
    case Seek(m) => s.Meter(m)
  }

  predicate SyncerShaped(s: State) {
    match s.syncer
    case Free => true
    case Taken(m) => s.Meter(m)
    case SetSync(m) => s.Meter(m)
    case Reading(m) => s.Meter(m)
    case Removing(m, h) => s.Meter(m) && (h in s.used || h == INVALID)
    case Resetting(m) => s.Meter(m)
    case Scheduling(m) => s.Meter(m)
    case Assigning(m, h) => s.Meter(m) && h in s.used && h != INVALID
  }

  /** Threads and queue name meters that exist, and handles that were given out. */
  predicate Shaped(s: State) {
    && |s.handle| == |s.sync| && INVALID !in s.used
    && (forall k :: 0 <= k < |s.queue| ==> s.Meter(s.queue[k]))
    && (forall m :: 0 <= m < |s.handle| ==> s.handle[m] in s.used || s.handle[m] == INVALID)
    && WorkerShaped(s) && SyncerShaped(s)
  }

  /** No meter is forgotten: one that is not synchronised is pending, or FRC polls go on, or are about to. */
  ghost predicate Remembered(s: State) {
    && (forall m :: 0 <= m < |s.sync| && !s.sync[m] ==> s.Pending(m) || s.frcActive || s.worker == Seek(m))
    && (s.worker.Frc? && s.worker.stop ==>
          forall m :: 0 <= m < |s.sync| && m < s.worker.next && !s.sync[m] ==> s.Pending(m))
  }

  /** FRC polls are active exactly when one live FRC task is in the scheduler. */
  predicate OneFrc(s: State) {
    && s.frcs == (if s.frcActive then {s.frcHandle} else {})
    && s.frcs <= s.used && INVALID !in s.used
  }

  lemma ShapedByWorker(s: State, drawn: int)
    requires Shaped(s) && Fresh(s, drawn) && WorkerNext(s, drawn).Some?
    ensures Shaped(WorkerNext(s, drawn).value)
  {
  }

  lemma ShapedBySyncer(s: State, drawn: int)
    requires Shaped(s) && Fresh(s, drawn) && SyncerNext(s, drawn).Some?
    ensures Shaped(SyncerNext(s, drawn).value)
  {
  }

  lemma ShapedStep(s: State, a: Step)
    requires Shaped(s) && Next(s, a).Some?
    ensures Shaped(Next(s, a).value)
  {
    match a {
      case WorkerStep(drawn) => ShapedByWorker(s, drawn);
      case SyncerStep(drawn) => ShapedBySyncer(s, drawn);
      case _ =>
    }
  }

  lemma RememberedByWorker(s: State, drawn: int)
    requires Shaped(s) && Remembered(s) && WorkerNext(s, drawn).Some?
    ensures Remembered(WorkerNext(s, drawn).value)
  {
    var t := WorkerNext(s, drawn).value;
    if s.worker.Frc? && s.worker.next < |s.sync| {
      assert forall m :: s.Pending(m) ==> t.Pending(m);
      var k := s.worker.next;
      assert t.worker.stop && !s.sync[k] ==> t.queue[|s.queue|] == k;
    }
  }

  lemma RememberedBySyncer(s: State, drawn: int)
    requires Shaped(s) && Remembered(s) && SyncerNext(s, drawn).Some?
    ensures Remembered(SyncerNext(s, drawn).value)
  {
    var t := SyncerNext(s, drawn).value;
    forall m | 0 <= m < |s.sync| && !t.sync[m] && s.Pending(m) ensures t.Pending(m) {
    }
  }

  lemma RememberedStep(s: State, a: Step)
    requires Shaped(s) && Remembered(s) && Next(s, a).Some?
    ensures Remembered(Next(s, a).value)
  {
    var t := Next(s, a).value;
    match a {
      case WorkerStep(drawn) => RememberedByWorker(s, drawn);
      case SyncerStep(drawn) => RememberedBySyncer(s, drawn);
      case Take =>
        assert s.queue == [s.queue[0]] + s.queue[1..];
        assert forall m :: s.Pending(m) ==> t.Pending(m);
      case _ =>
    }
  }

  lemma OneFrcStep(s: State, a: Step)
    requires OneFrc(s) && Next(s, a).Some?
    ensures OneFrc(Next(s, a).value)
  {
  }

  // Handles.

  /** Polls are of meters that exist; a handle names its meter's live poll, or one just removed. */
  ghost predicate Named(s: State)
    requires Shaped(s)
  {
    && (forall h :: h in s.polls ==> h in s.used && s.Meter(s.polls[h]))
    && (forall m :: 0 <= m < |s.handle| && s.handle[m] in s.polls ==> s.polls[s.handle[m]] == m)
    && (forall m :: 0 <= m < |s.handle| && s.handle[m] !in s.polls && s.handle[m] != INVALID ==>
          || s.syncer == Resetting(m)
          || (s.worker.ResetHandle? && s.worker.m == m && s.worker.h == s.handle[m]))
  }

  /** What a thread in the middle of an operation on a handle may rely on. */
  ghost predicate InHand(s: State)
    requires Shaped(s)
  {
    && (s.worker.RemoveTask? && s.worker.h in s.polls ==> s.polls[s.worker.h] == s.worker.m)
    && (s.worker.ResetHandle? ==> s.worker.h !in s.polls)
    && (s.syncer.Removing? ==> s.handle[s.syncer.m] == s.syncer.h || s.handle[s.syncer.m] == INVALID)
    && (s.syncer.Removing? && s.syncer.h in s.polls ==> s.polls[s.syncer.h] == s.syncer.m)
    && (s.syncer.Resetting? ==> s.handle[s.syncer.m] !in s.polls)
    && (s.syncer.Scheduling? || s.syncer.Assigning? ==> s.handle[s.syncer.m] == INVALID)
    && (s.syncer.Assigning? ==>
          && s.syncer.h in s.polls && s.polls[s.syncer.h] == s.syncer.m
          && (s.worker.RemoveTask? ==> s.worker.h != s.syncer.h)
          && (s.worker.ResetHandle? ==> s.worker.h != s.syncer.h))
  }

  lemma NamedWhenRemoved(s: State, drawn: int)
    requires Shaped(s) && Named(s) && InHand(s) && s.worker.RemoveTask?
    requires Shaped(WorkerNext(s, drawn).value)
    ensures Named(WorkerNext(s, drawn).value) && InHand(WorkerNext(s, drawn).value)
  {
  }

  lemma NamedWhenReset(s: State, drawn: int)
    requires Shaped(s) && Named(s) && InHand(s) && s.worker.ResetHandle?
    requires Shaped(WorkerNext(s, drawn).value)
    ensures Named(WorkerNext(s, drawn).value) && InHand(WorkerNext(s, drawn).value)
  {
  }

  lemma NamedOtherwise(s: State, drawn: int)
    requires Shaped(s) && Named(s) && InHand(s) && Fresh(s, drawn) && WorkerNext(s, drawn).Some?
    requires !s.worker.RemoveTask? && !s.worker.ResetHandle?
    requires Shaped(WorkerNext(s, drawn).value)
    ensures Named(WorkerNext(s, drawn).value) && InHand(WorkerNext(s, drawn).value)
  {
    var t := WorkerNext(s, drawn).value;
    assert t.polls == s.polls && t.handle == s.handle && t.syncer == s.syncer && |t.sync| == |s.sync|;
  }

  lemma NamedByWorker(s: State, drawn: int)
    requires Shaped(s) && Named(s) && InHand(s) && Fresh(s, drawn) && WorkerNext(s, drawn).Some?
    requires Shaped(WorkerNext(s, drawn).value)
    ensures Named(WorkerNext(s, drawn).value) && InHand(WorkerNext(s, drawn).value)
  {
    if s.worker.RemoveTask? {
      NamedWhenRemoved(s, drawn);
    } else if s.worker.ResetHandle? {
      NamedWhenReset(s, drawn);
    } else {
      NamedOtherwise(s, drawn);
    }
  }

  lemma NamedWhenScheduled(s: State, drawn: int)
    requires Shaped(s) && Named(s) && InHand(s) && Fresh(s, drawn) && s.syncer.Scheduling?
    requires Shaped(SyncerNext(s, drawn).value)
    ensures Named(SyncerNext(s, drawn).value) && InHand(SyncerNext(s, drawn).value)
  {
  }

  lemma NamedWhenAssigned(s: State, drawn: int)
    requires Shaped(s) && Named(s) && InHand(s) && s.syncer.Assigning?
    requires Shaped(SyncerNext(s, drawn).value)
    ensures Named(SyncerNext(s, drawn).value) && InHand(SyncerNext(s, drawn).value)
  {
  }

  lemma NamedBefore(s: State, drawn: int)
    requires Shaped(s) && Named(s) && InHand(s) && SyncerNext(s, drawn).Some?
    requires !s.syncer.Scheduling? && !s.syncer.Assigning?
    requires Shaped(SyncerNext(s, drawn).value)
    ensures Named(SyncerNext(s, drawn).value) && InHand(SyncerNext(s, drawn).value)
  {
  }

  lemma NamedBySyncer(s: State, drawn: int)
    requires Shaped(s) && Named(s) && InHand(s) && Fresh(s, drawn) && SyncerNext(s, drawn).Some?
    requires Shaped(SyncerNext(s, drawn).value)
    ensures Named(SyncerNext(s, drawn).value) && InHand(SyncerNext(s, drawn).value)
  {
    if s.syncer.Scheduling? {
      NamedWhenScheduled(s, drawn);
    } else if s.syncer.Assigning? {
      NamedWhenAssigned(s, drawn);
    } else {
      NamedBefore(s, drawn);
    }
  }

  ghost predicate Inv(s: State) {
    Shaped(s) && Remembered(s) && OneFrc(s) && Named(s) && InHand(s)
  }

  lemma InvStep(s: State, a: Step)
    requires Inv(s) && Next(s, a).Some?
    ensures Inv(Next(s, a).value)
  {
    ShapedStep(s, a);
    RememberedStep(s, a);
    OneFrcStep(s, a);
    match a {
      case WorkerStep(drawn) =>
        NamedByWorker(s, drawn);
      case SyncerStep(drawn) => NamedBySyncer(s, drawn);
      case _ =>
    }
  }

  lemma InvStart(meters: nat, h: int)
    requires h != INVALID
    ensures Inv(Start(meters, h))
  {
  }

  // Runs.

  lemma RunKeepsInv(s: State, steps: seq<Step>, end: State)
    requires Inv(s) && Run(Next, s, steps, end)
    ensures Inv(end)
  {
    forall t, a | Inv(t) && Next(t, a).Some? ensures Inv(Next(t, a).value) {
      InvStep(t, a);
    }
    Kept(Next, Inv, s, steps, end);
  }

  /** In every reachable state a meter that is not synchronised is pending, or FRC polls are active or about to be. */
  lemma NoMeterForgotten(meters: nat, h: int, steps: seq<Step>, end: State, m: nat)
    requires h != INVALID && Run(Next, Start(meters, h), steps, end) && m < |end.sync| && !end.sync[m]
    ensures end.Pending(m) || end.frcActive || end.worker == Seek(m)
  {
    InvStart(meters, h);
    RunKeepsInv(Start(meters, h), steps, end);
  }

  /** And FRC polls are active exactly when one FRC task is in the scheduler, which the service can name. */
  lemma OneFrcTask(meters: nat, h: int, steps: seq<Step>, end: State)
    requires h != INVALID && Run(Next, Start(meters, h), steps, end)
    ensures end.frcs == if end.frcActive then {end.frcHandle} else {}
  {
    InvStart(meters, h);
    RunKeepsInv(Start(meters, h), steps, end);
  }

  // Orphans.

  /**
   The worker resets a handle that was assigned since it read it, and the queue's worker is neither about to
   reset it too nor removing its poll.
   */
  predicate Loses(s: State, a: Step) {
    && a.WorkerStep? && s.worker.ResetHandle? && s.worker.m < |s.handle|
    && var (m, h) := (s.worker.m, s.handle[s.worker.m]);
       && h != INVALID && h != s.worker.h
       && s.syncer != Resetting(m) && s.syncer != Removing(m, h)
  }

  /**
   What these tests of the service's own variables decide: the handle names a live poll that no thread
   is to remove.
   */
  lemma LosesLive(s: State, a: Step)
    requires Inv(s) && a.WorkerStep? && s.worker.ResetHandle?
    ensures
      var h := s.handle[s.worker.m];
      Loses(s, a) <==> h in s.polls && !(s.syncer.Removing? && s.syncer.h == h)
  {
  }

  lemma OrphansByWorker(s: State, drawn: int)
    requires Inv(s) && Fresh(s, drawn) && WorkerNext(s, drawn).Some?
    ensures WorkerNext(s, drawn).value.Orphans()
         == s.Orphans() + if Loses(s, WorkerStep(drawn)) then {s.handle[s.worker.m]} else {}
  {
    var t := WorkerNext(s, drawn).value;
    if s.worker.ResetHandle? {
      LosesLive(s, WorkerStep(drawn));
      forall h | h in s.polls && h != s.handle[s.worker.m] ensures t.Claimed(h) <==> s.Claimed(h) {
      }
    } else if s.worker.RemoveTask? {
      forall h | h in t.polls ensures t.Claimed(h) <==> s.Claimed(h) {
      }
    } else {
      assert t.polls == s.polls && t.handle == s.handle && t.syncer == s.syncer;
    }
  }

  lemma OrphansBySyncer(s: State, drawn: int)
    requires Inv(s) && Fresh(s, drawn) && SyncerNext(s, drawn).Some?
    ensures SyncerNext(s, drawn).value.Orphans() == s.Orphans()
  {
  }

  /** Only such a reset makes an orphan, it makes exactly one, and no orphan ever goes. */
  lemma OrphansStep(s: State, a: Step)
    requires Inv(s) && Next(s, a).Some?
    ensures Next(s, a).value.Orphans() == s.Orphans() + if Loses(s, a) then {s.handle[s.worker.m]} else {}
    ensures Loses(s, a) ==> s.handle[s.worker.m] !in s.Orphans()
  {
    match a {
      case WorkerStep(drawn) => OrphansByWorker(s, drawn);
      case SyncerStep(drawn) => OrphansBySyncer(s, drawn);
      case _ =>
    }
  }

  /** A run has orphans in the end exactly when the worker reset a handle under these conditions. */
  lemma {:induction false} RunOrphans(s: State, steps: seq<Step>, end: State)
    requires Inv(s) && Run(Next, s, steps, end)
    ensures s.Orphans() <= end.Orphans()
    ensures end.Orphans() == {} <==> s.Orphans() == {} && !Sometime(Next, Loses, s, steps)
    decreases |steps|
  {
    if steps != [] {
      var next := Next(s, steps[0]).value;
      OrphansStep(s, steps[0]);
      InvStep(s, steps[0]);
      RunOrphans(next, steps[1..], end);
      if Loses(s, steps[0]) {
        assert s.handle[s.worker.m] in next.Orphans();
      }
    }
  }

  /** The worker is between reading and resetting the meter's handle. */
  predicate Resets(w: Worker, m: nat) {
    (w.RemoveTask? || w.ResetHandle?) && w.m == m
  }

  /** The queue's worker assigns a handle that the scheduler's worker is about to reset. */
  predicate Intrudes(s: State, a: Step) {
    a.SyncerStep? && s.syncer.Assigning? && Resets(s.worker, s.syncer.m)
  }

  /** The handle that the worker is about to reset is the one it read, or was reset since. */
  predicate Steady(s: State) {
    s.worker.RemoveTask? || s.worker.ResetHandle? ==>
      s.worker.m < |s.handle| && (s.handle[s.worker.m] == s.worker.h || s.handle[s.worker.m] == INVALID)
  }

  lemma SteadyStep(s: State, a: Step)
    requires Inv(s) && Steady(s) && Next(s, a).Some? && !Intrudes(s, a)
    ensures Steady(Next(s, a).value)
  {
  }

  lemma {:induction false} SteadyRun(s: State, steps: seq<Step>, end: State)
    requires Inv(s) && Steady(s) && Run(Next, s, steps, end) && !Sometime(Next, Intrudes, s, steps)
    ensures !Sometime(Next, Loses, s, steps)
    decreases |steps|
  {
    if steps != [] {
      InvStep(s, steps[0]);
      SteadyStep(s, steps[0]);
      SteadyRun(Next(s, steps[0]).value, steps[1..], end);
    }
  }

  /** No poll is orphaned as long as no handle is assigned between the worker's reading and resetting it. */
  lemma {:induction false} NoOrphans(meters: nat, h: int, steps: seq<Step>, end: State)
    requires h != INVALID && Run(Next, Start(meters, h), steps, end)
    requires !Sometime(Next, Intrudes, Start(meters, h), steps)
    ensures end.Orphans() == {}
  {
    InvStart(meters, h);
    SteadyRun(Start(meters, h), steps, end);
    RunOrphans(Start(meters, h), steps, end);
  }

  /**
   Without orphans, and with no thread in the middle of an operation on a handle, every meter's handle
   is invalid and the meter has no live poll, or names the one live poll that the meter has.
   */
  lemma {:induction false} HandlesExact(meters: nat, h: int, steps: seq<Step>, end: State, m: nat)
    requires h != INVALID && Run(Next, Start(meters, h), steps, end) && !Sometime(Next, Loses, Start(meters, h), steps)
    requires m < |end.handle| && (end.worker.Idle? || end.worker.Frc?) && (end.syncer.Free? || end.syncer.Taken?)
    ensures end.handle[m] != INVALID ==> end.handle[m] in end.polls
    ensures forall p :: p in end.polls && end.polls[p] == m <==> p == end.handle[m] && p != INVALID
  {
    InvStart(meters, h);
    RunKeepsInv(Start(meters, h), steps, end);
    assert Start(meters, h).Orphans() == {};
    RunOrphans(Start(meters, h), steps, end);
    forall p | p in end.polls && end.polls[p] == m ensures p == end.handle[m] {
      assert p !in end.Orphans();
      assert end.Claimed(p);
    }
  }

  // Orphans do occur.

  /**
   A run of the service with one meter that leaves a live poll which no handle names: the poll fires before its
   handle is assigned, the meter is lost, and the worker resets that handle.
   */
  lemma OrphanReached() returns (steps: seq<Step>, end: State)
    ensures Run(Next, Start(1, 1), steps, end) && end.Orphans() == {2} && end.polls[2] == 0
  {
    steps, end := [], Start(1, 1);
    steps, end := OneMore(Next, Start(1, 1), steps, end, Fires(1));
    steps, end := OneMore(Next, Start(1, 1), steps, end, FrcAnswer([true]));
    steps, end := OneMore(Next, Start(1, 1), steps, end, WorkerStep(9));
    steps, end := OneMore(Next, Start(1, 1), steps, end, WorkerStep(9));
    steps, end := OneMore(Next, Start(1, 1), steps, end, Take);
    steps, end := OneMore(Next, Start(1, 1), steps, end, SyncerStep(9));
    steps, end := OneMore(Next, Start(1, 1), steps, end, SyncerStep(9));
    steps, end := OneMore(Next, Start(1, 1), steps, end, SyncerStep(9));
    steps, end := OneMore(Next, Start(1, 1), steps, end, SyncerStep(9));
    steps, end := OneMore(Next, Start(1, 1), steps, end, SyncerStep(9));
    steps, end := OneMore(Next, Start(1, 1), steps, end, SyncerStep(2));
    steps, end := OneMore(Next, Start(1, 1), steps, end, Fires(2));
    steps, end := OneMore(Next, Start(1, 1), steps, end, PollAnswer(-1));
    steps, end := OneMore(Next, Start(1, 1), steps, end, WorkerStep(9));
    steps, end := OneMore(Next, Start(1, 1), steps, end, WorkerStep(9));
    steps, end := OneMore(Next, Start(1, 1), steps, end, SyncerStep(9));
    steps, end := OneMore(Next, Start(1, 1), steps, end, WorkerStep(9));
  }
}
