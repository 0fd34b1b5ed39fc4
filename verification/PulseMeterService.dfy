/**
 The pulse-meter service's handlers, each run to its end. Between handlers every meter that is not
 synchronised is queued or FRC polls are active, and every handle names its own live task. Each handler
 has the effect of a run of the protocol in which its thread alone goes on.
 */
module PulseMeterService {
  import P = PulseMeters
  import opened Runs

  const INVALID := P.INVALID

  // The protocol's runs in which one thread goes on alone, from where it is idle until it is idle again.

  /** The meters, among the first `n`, that are not synchronised and answer. */
  function Answering(sync: seq<bool>, alive: seq<bool>, n: nat): seq<nat>
    requires n <= |sync|
  {
    if n == 0 then []
    else Answering(sync, alive, n - 1) + if !sync[n - 1] && n - 1 < |alive| && alive[n - 1] then [n - 1] else []
  }

  predicate AllAnswer(sync: seq<bool>, alive: seq<bool>, n: nat)
    requires n <= |sync|
  {
    forall k :: 0 <= k < n ==> sync[k] || (k < |alive| && alive[k])
  }

  function FrcHandled(s: P.State, alive: seq<bool>, drawn: int): P.State
    requires s.fired != []
  {
    var n := |s.sync|;
    var scanned := s.(fired := s.fired[1..], queue := s.queue + Answering(s.sync, alive, n));
    P.SetFrc(scanned, !AllAnswer(s.sync, alive, n), drawn)
  }

  /** The meter's poll removed and its handle reset. */
  function Removed(s: P.State, m: nat): P.State
    requires m < |s.handle|
  {
    s.(polls := s.polls - {s.handle[m]}, handle := s.handle[m := INVALID])
  }

  /** Instead of the meter's poll, a new one. */
  function Scheduled(s: P.State, m: nat, drawn: int): P.State
    requires m < |s.handle|
  {
    var u := Removed(s, m);
    u.(handle := u.handle[m := drawn], polls := u.polls[drawn := m], used := u.used + {drawn})
  }

  function PollHandled(s: P.State, m: nat, result: int, drawn: int): P.State
    requires s.fired != [] && m < |s.sync| && m < |s.handle|
  {
    var t := s.(fired := s.fired[1..]);
    if result == 0 then t
    else
      var u := Removed(t, m);
      if result == -1 then P.SetFrc(u.(sync := u.sync[m := false]), true, drawn) else u
  }

  function Synchronised(s: P.State, m: nat, drawn: int): P.State
    requires m < |s.sync| && m < |s.handle|
  {
    if s.sync[m] then s else Scheduled(s.(sync := s.sync[m := true]), m, drawn)
  }

  function QueueHandled(s: P.State, drawn: int): P.State
    requires s.queue != [] && s.queue[0] < |s.sync| && s.queue[0] < |s.handle|
  {
    var (m, t) := (s.queue[0], s.(queue := s.queue[1..]));
    Synchronised(t, m, drawn)
  }

  /** The scan from meter `k` on, `before` having been queued when it began. */
  lemma ScanRuns(s: P.State, before: seq<nat>, k: nat, alive: seq<bool>, drawn: int)
    returns (steps: seq<P.Step>)
    requires k <= |s.sync| && P.Fresh(s, drawn) && s.worker == P.Frc(k, AllAnswer(s.sync, alive, k), alive)
    requires s.queue == before + Answering(s.sync, alive, k)
    ensures
      var n := |s.sync|;
      var scanned := s.(queue := before + Answering(s.sync, alive, n), worker := P.Idle);
      Run(P.Next, s, steps, P.SetFrc(scanned, !AllAnswer(s.sync, alive, n), drawn))
    decreases |s.sync| - k
  {
    var next := P.WorkerNext(s, drawn).value;
    if k == |s.sync| {
      steps := [];
    } else {
      assert before + Answering(s.sync, alive, k + 1) == next.queue;
      steps := ScanRuns(next, before, k + 1, alive, drawn);
    }
    Onward(P.Next, s, P.WorkerStep(drawn), next, steps,
             P.SetFrc(s.(queue := before + Answering(s.sync, alive, |s.sync|), worker := P.Idle),
                      !AllAnswer(s.sync, alive, |s.sync|), drawn));
    steps := [P.WorkerStep(drawn)] + steps;
  }

  /** The handler of an FRC poll, run alone. */
  lemma FrcRuns(s: P.State, alive: seq<bool>, drawn: int) returns (steps: seq<P.Step>)
    requires s.worker.Idle? && s.fired != [] && s.fired[0].FrcFired? && P.Fresh(s, drawn)
    ensures Run(P.Next, s, steps, FrcHandled(s, alive, drawn))
  {
    var next := P.Next(s, P.FrcAnswer(alive)).value;
    assert s.queue + Answering(s.sync, alive, 0) == s.queue;
    steps := ScanRuns(next, s.queue, 0, alive, drawn);
    Onward(P.Next, s, P.FrcAnswer(alive), next, steps, FrcHandled(s, alive, drawn));
    steps := [P.FrcAnswer(alive)] + steps;
  }

  /** One more step of the scheduler's worker, alone, before a run. */
  lemma WorkerFirst(s: P.State, drawn: int, steps: seq<P.Step>, end: P.State)
    requires P.Fresh(s, drawn) && P.WorkerNext(s, drawn).Some? && Run(P.Next, P.WorkerNext(s, drawn).value, steps, end)
    ensures Run(P.Next, s, [P.WorkerStep(drawn)] + steps, end)
  {
    Onward(P.Next, s, P.WorkerStep(drawn), P.WorkerNext(s, drawn).value, steps, end);
  }

  /** The handler of a meter's poll, run alone. */
  lemma PollRuns(s: P.State, m: nat, result: int, drawn: int) returns (steps: seq<P.Step>)
    requires s.worker.Idle? && s.fired != [] && s.fired[0] == P.PollFired(m) && P.Fresh(s, drawn)
    requires m < |s.sync| && m < |s.handle|
    ensures Run(P.Next, s, steps, PollHandled(s, m, result, drawn))
  {
    var (first, end) := (P.PollAnswer(result), PollHandled(s, m, result, drawn));
    var a := P.Next(s, first).value;
    steps := [];
    if result != 0 {
      var b := P.WorkerNext(a, drawn).value;
      var c := P.WorkerNext(b, drawn).value;
      var d := P.WorkerNext(c, drawn).value;
      if result == -1 {
        var e := P.WorkerNext(d, drawn).value;
        WorkerFirst(e, drawn, steps, end);
        steps := [P.WorkerStep(drawn)] + steps;
        WorkerFirst(d, drawn, steps, end);
        steps := [P.WorkerStep(drawn)] + steps;
      }
      WorkerFirst(c, drawn, steps, end);
      steps := [P.WorkerStep(drawn)] + steps;
      WorkerFirst(b, drawn, steps, end);
      steps := [P.WorkerStep(drawn)] + steps;
      WorkerFirst(a, drawn, steps, end);
      steps := [P.WorkerStep(drawn)] + steps;
    }
    Onward(P.Next, s, first, a, steps, end);
    steps := [first] + steps;
  }

  /** One more step of the queue's worker, alone, before a run. */
  lemma SyncerFirst(s: P.State, drawn: int, steps: seq<P.Step>, end: P.State)
    requires P.Fresh(s, drawn) && P.SyncerNext(s, drawn).Some? && Run(P.Next, P.SyncerNext(s, drawn).value, steps, end)
    ensures Run(P.Next, s, [P.SyncerStep(drawn)] + steps, end)
  {
    Onward(P.Next, s, P.SyncerStep(drawn), P.SyncerNext(s, drawn).value, steps, end);
  }

  /** The handler of the task queue, run alone. Its last step draws nothing: `spare` is any other handle. */
  lemma QueueRuns(s: P.State, drawn: int, spare: int) returns (steps: seq<P.Step>)
    requires s.syncer.Free? && s.queue != [] && s.queue[0] < |s.sync| && s.queue[0] < |s.handle|
    requires P.Fresh(s, drawn) && P.Fresh(s, spare) && spare != drawn
    ensures Run(P.Next, s, steps, QueueHandled(s, drawn))
  {
    var end := QueueHandled(s, drawn);
    var a := P.Next(s, P.Take).value;
    steps := [];
    if !s.sync[s.queue[0]] {
      var b := P.SyncerNext(a, drawn).value;
      var c := P.SyncerNext(b, drawn).value;
      var d := P.SyncerNext(c, drawn).value;
      var e := P.SyncerNext(d, drawn).value;
      var f := P.SyncerNext(e, drawn).value;
      var g := P.SyncerNext(f, drawn).value;
      assert P.SyncerNext(g, spare).value == end;
      SyncerFirst(g, spare, steps, end);
      steps := [P.SyncerStep(spare)] + steps;
      SyncerFirst(f, drawn, steps, end);
      steps := [P.SyncerStep(drawn)] + steps;
      SyncerFirst(e, drawn, steps, end);
      steps := [P.SyncerStep(drawn)] + steps;
      SyncerFirst(d, drawn, steps, end);
      steps := [P.SyncerStep(drawn)] + steps;
      SyncerFirst(c, drawn, steps, end);
      steps := [P.SyncerStep(drawn)] + steps;
      SyncerFirst(b, drawn, steps, end);
      steps := [P.SyncerStep(drawn)] + steps;
    }
    SyncerFirst(a, drawn, steps, end);
    steps := [P.SyncerStep(drawn)] + steps;
    Onward(P.Next, s, P.Take, a, steps, end);
    steps := [P.Take] + steps;
  }

  // The handlers.

  datatype Job = FrcJob | PollJob(address: nat)

  class ScheduleDpaTask {
    const address: nat
    var sync: bool
    var taskHandle: int

    constructor (address: nat)
      ensures this.address == address && !sync && taskHandle == 0
    {
      this.address, sync, taskHandle := address, false, INVALID;
    }
  }

  /** `s`, where a method has it, is any state of the protocol; the method's effect on one that is shown is a run's. */
  class ClientServicePm {
    const watchedPm: seq<ScheduleDpaTask>
    var taskQueue: seq<ScheduleDpaTask>
    var frcActive: bool
    var frcHandle: int
    /** The scheduler's live tasks of this client, and what was sent to the messaging. */
    var jobs: map<int, Job>
    var sent: seq<nat>

    /** Every meter's handle is invalid or names its own poll. */
    ghost predicate Handled()
      reads this, watchedPm
    {
      && INVALID !in jobs
      && (forall pm :: pm in watchedPm && pm.taskHandle != INVALID ==>
            pm.taskHandle in jobs && jobs[pm.taskHandle] == PollJob(pm.address))
      && (forall pm, qm :: pm in watchedPm && qm in watchedPm && pm != qm && pm.taskHandle != INVALID ==>
            pm.taskHandle != qm.taskHandle)
      && (forall h :: h in jobs && jobs[h].PollJob? ==> exists pm :: pm in watchedPm && pm.taskHandle == h)
    }

    /** FRC polls are active exactly when there is one FRC task. */
    ghost predicate OneFrc()
      reads this
    {
      forall h :: h in jobs && jobs[h].FrcJob? <==> frcActive && h == frcHandle
    }

    ghost predicate Remembered()
      reads this, watchedPm
    {
      forall pm :: pm in watchedPm && !pm.sync ==> pm in taskQueue || frcActive
    }

    /** The meters are different objects. */
    ghost predicate Apart() {
      forall i, j :: 0 <= i < j < |watchedPm| ==> watchedPm[i] != watchedPm[j]
    }

    ghost predicate Valid()
      reads this, watchedPm
    {
      && (forall pm :: pm in taskQueue ==> pm in watchedPm)
      && Apart()
      && Handled() && OneFrc() && Remembered()
    }

    /** The protocol's queue has the meters by their numbers. */
    predicate Queued(at: seq<nat>, of: seq<ScheduleDpaTask>) {
      |at| == |of| && forall i :: 0 <= i < |at| ==> at[i] < |watchedPm| && of[i] == watchedPm[at[i]]
    }

    /** The protocol's live tasks are these. */
    ghost predicate Live(frcs: set<int>, polls: map<int, nat>, tasks: map<int, Job>) {
      && (forall h :: h in frcs <==> h in tasks && tasks[h].FrcJob?)
      && (forall h :: h in polls <==> h in tasks && tasks[h].PollJob?)
      && (forall h :: h in polls ==> polls[h] < |watchedPm| && tasks[h] == PollJob(watchedPm[polls[h]].address))
    }

    lemma LiveRemoved(frcs: set<int>, polls: map<int, nat>, tasks: map<int, Job>, h: int)
      requires Live(frcs, polls, tasks)
      ensures h !in frcs ==> Live(frcs, polls - {h}, tasks - {h})
      ensures h in frcs ==> Live(frcs - {h}, polls, tasks - {h})
    {
    }

    lemma LiveAdded(frcs: set<int>, polls: map<int, nat>, tasks: map<int, Job>, h: int)
      requires Live(frcs, polls, tasks) && h !in tasks
      ensures Live(frcs + {h}, polls, tasks[h := FrcJob])
      ensures forall m: nat :: m < |watchedPm| ==>
                Live(frcs, polls[h := m], tasks[h := PollJob(watchedPm[m].address)])
    {
    }

    ghost predicate ShowsMeters(s: P.State)
      reads watchedPm
    {
      && |s.sync| == |s.handle| == |watchedPm|
      && (forall k :: 0 <= k < |watchedPm| ==>
            s.sync[k] == watchedPm[k].sync && s.handle[k] == watchedPm[k].taskHandle)
    }

    /** Between handlers, the protocol's state is this one. */
    ghost predicate Shows(s: P.State)
      reads this, watchedPm
    {
      && ShowsMeters(s) && Queued(s.queue, taskQueue) && Live(s.frcs, s.polls, jobs)
      && s.frcActive == frcActive && s.frcHandle == frcHandle && s.worker.Idle? && s.syncer.Free?
    }

    /** The configured meters, none synchronised, and the first FRC task, whose handle is `drawn`. */
    constructor (nodes: seq<nat>, drawn: int)
      requires drawn != INVALID
      ensures Valid() && frcActive && jobs == map[drawn := FrcJob] && taskQueue == [] && sent == []
      ensures |watchedPm| == |nodes| && Shows(P.Start(|nodes|, drawn))
      ensures forall k :: 0 <= k < |nodes| ==>
                watchedPm[k].address == nodes[k] && !watchedPm[k].sync && fresh(watchedPm[k])
    {
      var meters: seq<ScheduleDpaTask> := [];
      for k := 0 to |nodes|
        invariant |meters| == k
        invariant forall j :: 0 <= j < k ==>
                    && meters[j].address == nodes[j] && !meters[j].sync && meters[j].taskHandle == INVALID
                    && fresh(meters[j])
        invariant forall i, j :: 0 <= i < j < k ==> meters[i] != meters[j]
      {
        var pm := new ScheduleDpaTask(nodes[k]);
        meters := meters + [pm];
      }
      watchedPm, taskQueue, sent := meters, [], [];
      jobs, frcHandle, frcActive := map[drawn := FrcJob], drawn, true;
    }

    /** Starts, or stops, FRC polls; `drawn` is the handle that the scheduler gives a new task. */
    method SetFrc(val: bool, drawn: int, ghost s: P.State)
      requires Handled() && OneFrc() && drawn != INVALID && drawn !in jobs
      modifies this`frcActive, this`frcHandle, this`jobs
      ensures Handled() && OneFrc() && frcActive == val
      ensures val == old(frcActive) ==> jobs == old(jobs)
      ensures val && !old(frcActive) ==> jobs == old(jobs)[drawn := FrcJob]
      ensures !val && old(frcActive) ==> jobs == old(jobs) - {old(frcHandle)}
      ensures old(Shows(s)) ==> Shows(P.SetFrc(s, val, drawn))
    {
      if val == frcActive {
        return;
      }
      if old(Shows(s)) {
        LiveAdded(s.frcs, s.polls, jobs, drawn);
        LiveRemoved(s.frcs, s.polls, jobs, frcHandle);
      }
      if val {
        frcHandle := drawn;
        jobs := jobs[drawn := FrcJob];
        frcActive := true;
      } else {
        jobs := jobs - {frcHandle};
        frcActive := false;
      }
    }

    /** The meters, among the first `n`, that are not synchronised and answered. */
    ghost function Answered(n: nat, alive: set<nat>): seq<ScheduleDpaTask>
      requires n <= |watchedPm|
      reads watchedPm
    {
      if n == 0 then []
      else
        var pm := watchedPm[n - 1];
        Answered(n - 1, alive) + if !pm.sync && pm.address in alive then [pm] else []
    }

    /** They are exactly those, each as often as it is watched. */
    lemma {:induction false} AnsweredExactly(n: nat, alive: set<nat>)
      requires n <= |watchedPm|
      ensures forall pm :: pm in Answered(n, alive) <==> pm in watchedPm[..n] && !pm.sync && pm.address in alive
      ensures Apart() ==> forall i, j :: 0 <= i < j < |Answered(n, alive)| ==>
                Answered(n, alive)[i] != Answered(n, alive)[j]
    {
      if n > 0 {
        AnsweredExactly(n - 1, alive);
        assert watchedPm[..n] == watchedPm[..n - 1] + [watchedPm[n - 1]];
      }
    }

    /** The answers, meter by meter. */
    ghost function Alive(alive: set<nat>): (bits: seq<bool>)
      reads watchedPm
    {
      seq(|watchedPm|, k requires 0 <= k < |watchedPm| reads watchedPm => watchedPm[k].address in alive)
    }

    lemma {:induction false} AnsweredAre(sync: seq<bool>, alive: set<nat>, n: nat)
      requires n <= |watchedPm| == |sync| && forall k :: 0 <= k < n ==> sync[k] == watchedPm[k].sync
      ensures Queued(Answering(sync, Alive(alive), n), Answered(n, alive))
    {
      if n > 0 {
        AnsweredAre(sync, alive, n - 1);
      }
    }

    /** The protocol's state once the meters that answered are queued. */
    lemma AnswersShown(s: P.State, before: seq<ScheduleDpaTask>, alive: set<nat>)
      returns (t: P.State)
      requires ShowsMeters(s) && Queued(s.queue, before) && Live(s.frcs, s.polls, jobs)
      requires s.frcActive == frcActive && s.frcHandle == frcHandle && s.worker.Idle? && s.syncer.Free?
      requires s.fired != [] && taskQueue == before + Answered(|watchedPm|, alive)
      ensures t == s.(fired := s.fired[1..], queue := s.queue + Answering(s.sync, Alive(alive), |s.sync|)) && Shows(t)
      ensures AllAnswer(s.sync, Alive(alive), |s.sync|) <==>
                forall k :: 0 <= k < |watchedPm| ==> watchedPm[k].sync || watchedPm[k].address in alive
    {
      AnsweredAre(s.sync, alive, |watchedPm|);
      t := s.(fired := s.fired[1..], queue := s.queue + Answering(s.sync, Alive(alive), |s.sync|));
    }

    /** Queues the meters that answered; FRC polls can stop when no other meter waits to be synchronised. */
    method QueueAnswering(alive: set<nat>) returns (stopFrc: bool)
      requires forall pm :: pm in taskQueue ==> pm in watchedPm
      modifies this`taskQueue
      ensures taskQueue == old(taskQueue) + Answered(|watchedPm|, alive)
      ensures forall pm :: pm in taskQueue ==> pm in watchedPm
      ensures forall pm :: pm in watchedPm && !pm.sync && pm.address in alive ==> pm in taskQueue
      ensures stopFrc <==> forall j :: 0 <= j < |watchedPm| ==> watchedPm[j].sync || watchedPm[j].address in alive
    {
      stopFrc := true;
      for k := 0 to |watchedPm|
        invariant taskQueue == old(taskQueue) + Answered(k, alive)
        invariant forall pm :: pm in taskQueue ==> pm in watchedPm
        invariant forall j :: 0 <= j < k && !watchedPm[j].sync && watchedPm[j].address in alive ==>
                    watchedPm[j] in taskQueue
        invariant stopFrc <==> forall j :: 0 <= j < k ==> watchedPm[j].sync || watchedPm[j].address in alive
      {
        var pm := watchedPm[k];
        var isSync := pm.sync;
        if !isSync && pm.address in alive {
          taskQueue := taskQueue + [pm];
          assert taskQueue[|taskQueue| - 1] == pm;
        } else if !isSync {
          stopFrc := false;
        }
      }
    }

    /** The answer to an FRC poll, the error code and the addresses of the nodes that are alive. */
    method ProcessFrc(error: int, alive: set<nat>, drawn: int, ghost s: P.State)
      requires Valid() && drawn != INVALID && drawn !in jobs
      modifies this`taskQueue, this`frcActive, this`frcHandle, this`jobs
      ensures Valid()
      ensures error != 0 ==> taskQueue == old(taskQueue) && frcActive == old(frcActive) && jobs == old(jobs)
      ensures error == 0 ==>
                && taskQueue == old(taskQueue) + Answered(|watchedPm|, alive)
                && (frcActive <==> exists pm :: pm in watchedPm && !pm.sync && pm.address !in alive)
      ensures jobs == if frcActive == old(frcActive) then old(jobs)
                      else if frcActive then old(jobs)[drawn := FrcJob]
                      else old(jobs) - {old(frcHandle)}
      ensures error != 0 && old(Shows(s)) ==> Shows(s)
      ensures error == 0 && old(Shows(s)) && s.fired != [] ==> Shows(FrcHandled(s, Alive(alive), drawn))
    {
      if error != 0 {
        return;
      }
      var stopFrc := QueueAnswering(alive);
      ghost var t := s;
      if old(Shows(s)) && s.fired != [] {
        t := AnswersShown(s, old(taskQueue), alive);
      }
      SetFrc(!stopFrc, drawn, t);
    }

    method RemoveSchedule(pm: ScheduleDpaTask, ghost m: nat, ghost s: P.State)
      requires Handled() && OneFrc() && m < |watchedPm| && pm == watchedPm[m]
      modifies this`jobs, pm`taskHandle
      ensures Handled() && OneFrc() && pm.taskHandle == INVALID
      ensures jobs == old(jobs) - {old(pm.taskHandle)}
      ensures old(Shows(s)) && Apart() ==> Shows(Removed(s, m))
    {
      jobs := jobs - {pm.taskHandle};
      pm.taskHandle := INVALID;
      assert Handled();
      if old(Shows(s)) {
        LiveRemoved(s.frcs, s.polls, old(jobs), old(pm.taskHandle));
      }
    }

    /** The meter's poll, if any, is replaced by a new one. */
    method ScheduleTaskPeriodic(pm: ScheduleDpaTask, drawn: int, ghost m: nat, ghost s: P.State)
      requires Handled() && OneFrc() && Apart() && m < |watchedPm| && pm == watchedPm[m]
      requires drawn != INVALID && drawn !in jobs
      modifies this`jobs, pm`taskHandle
      ensures Handled() && OneFrc() && pm.taskHandle == drawn
      ensures jobs == (old(jobs) - {old(pm.taskHandle)})[drawn := PollJob(pm.address)]
      ensures old(Shows(s)) ==> Shows(Scheduled(s, m, drawn))
    {
      RemoveSchedule(pm, m, s);
      jobs := jobs[drawn := PollJob(pm.address)];
      pm.taskHandle := drawn;
      assert Handled();
      if old(Shows(s)) {
        LiveAdded(s.frcs, s.polls - {old(pm.taskHandle)}, old(jobs) - {old(pm.taskHandle)}, drawn);
      }
    }

    /** Synchronises a meter, if it is not, which the queue's worker has taken. */
    method ProcessPulseMeter(pm: ScheduleDpaTask, drawn: int, ghost m: nat, ghost s: P.State)
      requires Handled() && OneFrc() && Apart() && m < |watchedPm| && pm == watchedPm[m]
      requires drawn != INVALID && drawn !in jobs
      modifies this`jobs, pm
      ensures Handled() && OneFrc() && pm.sync
      ensures old(pm.sync) ==> jobs == old(jobs) && pm.taskHandle == old(pm.taskHandle)
      ensures !old(pm.sync) ==>
                pm.taskHandle == drawn && jobs == (old(jobs) - {old(pm.taskHandle)})[drawn := PollJob(pm.address)]
      ensures old(Shows(s)) ==> Shows(Synchronised(s, m, drawn))
    {
      if !pm.sync {
        pm.sync := true;
        ghost var t := if m < |s.sync| then s.(sync := s.sync[m := true]) else s;
        ScheduleTaskPeriodic(pm, drawn, m, t);
      }
    }

    /** The queue's worker takes the next meter. */
    method ProcessTaskQueue(drawn: int, ghost s: P.State)
      requires Valid() && taskQueue != [] && drawn != INVALID && drawn !in jobs
      modifies this`taskQueue, this`jobs, taskQueue[0]
      ensures Valid() && taskQueue == old(taskQueue)[1..]
      ensures var pm := old(taskQueue)[0];
              && pm.sync
              && (old(pm.sync) ==> jobs == old(jobs) && pm.taskHandle == old(pm.taskHandle))
              && (!old(pm.sync) ==>
                    pm.taskHandle == drawn && jobs == (old(jobs) - {old(pm.taskHandle)})[drawn := PollJob(pm.address)])
      ensures old(Shows(s)) ==> Shows(QueueHandled(s, drawn))
    {
      var pm := taskQueue[0];
      assert pm in taskQueue;
      assert taskQueue == [pm] + taskQueue[1..];
      taskQueue := taskQueue[1..];
      ghost var m: nat :| m < |watchedPm| && pm == watchedPm[m];
      ghost var t := if s.queue == [] then s else s.(queue := s.queue[1..]);
      assert old(Shows(s)) ==> Shows(t) && m == s.queue[0];
      assert forall qm :: qm in old(taskQueue) && qm != pm ==> qm in taskQueue;
      ProcessPulseMeter(pm, drawn, m, t);
    }

    /** The first meter, from the `k`th, with an address; their number if there is none. */
    ghost function Find(address: nat, k: nat): (r: nat)
      requires k <= |watchedPm|
      ensures k <= r <= |watchedPm| && (r < |watchedPm| ==> watchedPm[r].address == address)
      ensures forall j :: k <= j < r ==> watchedPm[j].address != address
      decreases |watchedPm| - k
    {
      if k == |watchedPm| || watchedPm[k].address == address then k else Find(address, k + 1)
    }

    /** The scheduler's tasks after a meter's poll was answered with an error. */
    ghost function JobsAfter(handle: int, result: int, drawn: int): map<int, Job>
      reads this`jobs, this`frcActive
    {
      if result == -1 && !frcActive then (jobs - {handle})[drawn := FrcJob] else jobs - {handle}
    }

    /** A meter whose poll was answered with an error is given up; FRC polls look for one that is lost. */
    method GiveUp(k: nat, result: int, drawn: int, ghost s: P.State)
      requires Valid() && k < |watchedPm| && result != 0 && drawn != INVALID && drawn !in jobs
      modifies this`jobs, this`frcActive, this`frcHandle, watchedPm[k]
      ensures Valid()
      ensures watchedPm[k].taskHandle == INVALID && watchedPm[k].sync == (result != -1 && old(watchedPm[k].sync))
      ensures frcActive == (result == -1 || old(frcActive))
      ensures jobs == old(JobsAfter(watchedPm[k].taskHandle, result, drawn))
      ensures old(Shows(s)) && s.fired != [] ==> Shows(PollHandled(s, k, result, drawn))
    {
      var pm := watchedPm[k];
      ghost var t := if s.fired == [] then s else s.(fired := s.fired[1..]);
      assert old(Shows(s)) ==> Shows(t);
      RemoveSchedule(pm, k, t);
      if old(Shows(s)) && s.fired != [] {
        t := Removed(t, k);
      }
      if result == -1 {
        pm.sync := false;
        if old(Shows(s)) && s.fired != [] {
          t := t.(sync := t.sync[k := false]);
          assert Shows(t);
        }
        SetFrc(true, drawn, t);
      }
    }

    /** The answer to a meter poll: read, lost, or any other error, which gives the meter's poll up. */
    method ProcessPoll(address: nat, result: int, drawn: int, ghost s: P.State)
      requires Valid() && drawn != INVALID && drawn !in jobs
      modifies this`jobs, this`frcActive, this`frcHandle, this`sent, watchedPm
      ensures Valid()
      ensures
        var k := Find(address, 0);
        if address == 0 || k == |watchedPm| then
          sent == old(sent) && jobs == old(jobs) && frcActive == old(frcActive)
          && forall pm :: pm in watchedPm ==> unchanged(pm)
        else if result == 0 then
          sent == old(sent) + [address] && jobs == old(jobs) && frcActive == old(frcActive)
          && forall pm :: pm in watchedPm ==> unchanged(pm)
        else
          && sent == old(sent)
          && (forall pm :: pm in watchedPm && pm != watchedPm[k] ==> unchanged(pm))
          && watchedPm[k].taskHandle == INVALID && watchedPm[k].sync == (result != -1 && old(watchedPm[k].sync))
          && frcActive == (result == -1 || old(frcActive))
          && jobs == old(JobsAfter(watchedPm[k].taskHandle, result, drawn))
      ensures
        var k := Find(address, 0);
        address != 0 && k < |watchedPm| && old(Shows(s)) && s.fired != [] ==>
          Shows(PollHandled(s, k, result, drawn))
    {
      if address == 0 {
        return;
      }
      var k := 0;
      while k < |watchedPm| && watchedPm[k].address != address
        invariant k <= |watchedPm| && Find(address, 0) == Find(address, k)
      {
        k := k + 1;
      }
      if k == |watchedPm| {
        return;
      }
      if result == 0 {
        sent := sent + [address];
      } else {
        GiveUp(k, result, drawn, s);
      }
    }
  }
}
