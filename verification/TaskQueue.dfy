/**
 The task queue: clients push under a lock, one worker takes tasks in order. The protocol is a state
 machine whose steps are what happens between two lock operations; threads interleave at steps.
 */
module TaskQueue {
  import opened Options
  import opened Runs

  /** Where the worker is. It holds the lock at Test and Inner, and at Top when the flag says so. */
  datatype Place<T> =
    | Top(holds: bool)
    | Acquire
    | Test
    | Asleep
    | Reacquire
    | Inner
    | Processing(task: T)
    | Relock
    | Exited

  datatype State<T> = State(
    queue: seq<T>,
    taskPushed: bool,
    running: bool,
    place: Place<T>,
    /** Notifications that clients have still to send. */
    notices: nat,
    pushed: seq<T>,
    processed: seq<T>,
    /** How many tasks had been taken when the queue was stopped. */
    takenAtStop: nat
  ) {
    /** The task taken and not yet processed. */
    function InHand(): seq<T> {
      if place.Processing? then [place.task] else []
    }

    function Taken(): nat { |processed| + |InHand()| }

    predicate Locked() {
      place.Test? || place.Inner? || (place.Top? && place.holds)
    }

    /** The worker has left the inner loop. */
    predicate Outside() {
      place.Top? || place.Acquire? || place.Test? || place.Asleep? || place.Reacquire?
    }
  }

  datatype Step<T> =
    | Push(task: T)
    | Stop
    | Notify
    | Spurious
    | Work

  function Init<T>(): State<T> {
    State([], false, true, Top(false), 0, [], [], 0)
  }

  /** The worker's next step; none when it sleeps, has exited, or waits for a lock that is taken. */
  function WorkNext<T>(s: State<T>): Option<State<T>> {
    match s.place
    case Top(holds) => Some(s.(place := if s.running then Acquire else Exited))
    case Acquire => Some(s.(place := Test))
    case Test => Some(if s.taskPushed then s.(place := Inner, taskPushed := false) else s.(place := Asleep))
    case Asleep => None
    case Reacquire => Some(s.(place := Test))
    case Inner =>
      if !s.running then Some(s.(place := Top(true)))
      else if s.queue != [] then Some(s.(place := Processing(s.queue[0]), queue := s.queue[1..]))
      else Some(s.(place := Top(false)))
    case Processing(task) => Some(s.(place := Relock, processed := s.processed + [task]))
    case Relock => Some(s.(place := Inner))
    case Exited => None
  }

  /** Clients take the lock for one step; None when the worker holds it. */
  function Next<T>(s: State<T>, a: Step<T>): Option<State<T>> {
    match a
    case Push(task) =>
      if s.Locked() then None
      else Some(s.(queue := s.queue + [task], taskPushed := true, notices := s.notices + 1,
          pushed := s.pushed + [task]))
    case Stop =>
      if s.Locked() then None
      else Some(s.(running := false, taskPushed := true, notices := s.notices + 1,
                   takenAtStop := if s.running then s.Taken() else s.takenAtStop))
    case Notify =>
      if s.notices == 0 then None
      else Some(s.(notices := s.notices - 1, place := if s.place.Asleep? then Reacquire else s.place))
    case Spurious => if s.place.Asleep? then Some(s.(place := Reacquire)) else None
    case Work => WorkNext(s)
  }

  ghost predicate Inv<T>(s: State<T>) {
    // Tasks are neither lost nor reordered.
    && s.pushed == s.processed + s.InHand() + s.queue
    // A task, or a stop, that the worker has not seen is announced by the flag.
    && (s.Outside() && s.running && s.queue != [] ==> s.taskPushed)
    && (!s.running && (s.place.Acquire? || s.place.Test? || s.place.Asleep? || s.place.Reacquire?) ==> s.taskPushed)
    // A worker that sleeps on a set flag has a notification under way.
    && (s.place.Asleep? && s.taskPushed ==> s.notices > 0)
    // A stopped queue takes nothing more.
    && (!s.running ==> s.Taken() == s.takenAtStop)
    // The worker never waits for the lock that it holds.
    && (s.place.Top? && s.place.holds ==> !s.running)
    // Only a stop ends it.
    && (s.place.Exited? ==> !s.running)
  }

  lemma StepKeepsInv<T>(s: State<T>, a: Step<T>)
    requires Inv(s) && Next(s, a).Some?
    ensures Inv(Next(s, a).value)
  {
    var t := Next(s, a).value;
    match a {
      case Push(task) =>
        assert s.processed + s.InHand() + s.queue + [task] == s.processed + s.InHand() + (s.queue + [task]);
      case Work =>
        match s.place {
          case Inner =>
            if s.running && s.queue != [] {
              assert s.queue == [s.queue[0]] + s.queue[1..];
              assert s.processed + [] + s.queue == s.processed + [s.queue[0]] + s.queue[1..];
            }
          case Processing(task) =>
            assert s.processed + [task] + s.queue == (s.processed + [task]) + [] + s.queue;
          case _ =>
        }
      case _ =>
    }
  }

  lemma RunKeepsInv<T>(s: State<T>, steps: seq<Step<T>>, end: State<T>)
    requires Inv(s) && Run(Next, s, steps, end)
    ensures Inv(end)
  {
    forall t: State<T>, a | Inv(t) && Next(t, a).Some? ensures Inv(Next(t, a).value) {
      StepKeepsInv(t, a);
    }
    Kept(Next, Inv, s, steps, end);
  }

  /** In every reachable state the tasks pushed are those processed, the one in hand and those queued, in order. */
  lemma Conservation<T>(steps: seq<Step<T>>, end: State<T>)
    requires Run(Next, Init(), steps, end)
    ensures end.pushed == end.processed + end.InHand() + end.queue
  {
    RunKeepsInv(Init(), steps, end);
  }

  /** A worker that no client is about to wake sleeps only while there is nothing to do and no stop. */
  lemma NoLostWakeup<T>(steps: seq<Step<T>>, end: State<T>)
    requires Run(Next, Init(), steps, end) && end.place.Asleep? && end.notices == 0
    ensures end.queue == [] && end.running && end.pushed == end.processed
  {
    RunKeepsInv(Init(), steps, end);
  }

  /** The worker exits only after a stop. */
  lemma ExitedStopped<T>(steps: seq<Step<T>>, end: State<T>)
    requires Run(Next, Init(), steps, end) && end.place.Exited?
    ensures !end.running
  {
    RunKeepsInv(Init(), steps, end);
  }

  // The wait.

  /** The worker's wait ends in one way: it finds the flag set, under the lock, and clears it. */
  lemma WaitEnds<T>(s: State<T>, a: Step<T>)
    requires Inv(s) && s.Outside() && Next(s, a).Some? && !Next(s, a).value.Outside()
    ensures
      var t := Next(s, a).value;
      && a == Work && t.taskPushed == (s.place.Top? && s.taskPushed)
      && if s.place.Top? then t.place == Exited && !s.running else s.place == Test && s.taskPushed && t.place == Inner
  {
  }

  /** Only a notification, or nothing at all, wakes it from its sleep, and it tests the flag again. */
  lemma WokenTests<T>(s: State<T>, a: Step<T>)
    requires s.place == Asleep && Next(s, a).Some? && Next(s, a).value.place != Asleep
    ensures (a == Notify && s.notices > 0) || a == Spurious
    ensures Next(Next(s, a).value, Work) == Some(Next(s, a).value.(place := Test))
    ensures Next(s, Spurious).Some? && (s.notices > 0 ==> Next(s, Notify).Some?)
  {
  }

  /** The worker takes the lock in steps of its own. */
  lemma LockTaken<T>(s: State<T>, a: Step<T>)
    requires Inv(s) && Next(s, a).Some? && !s.Locked() && Next(s, a).value.Locked()
    ensures a == Work && (s.place.Acquire? || s.place.Reacquire? || s.place.Relock?)
    ensures var t := Next(s, a).value; t == s.(place := if s.place.Relock? then Inner else Test)
  {
  }

  /** No client gets the lock between the worker's test and its leaving with a task, or back to sleep. */
  lemma LockKept<T>(s: State<T>, a: Step<T>)
    requires a.Push? || a.Stop?
    ensures s.place.Test? || s.place.Inner? || s.place == Top(true) ==> Next(s, a) == None
    ensures s.place.Asleep? || s.place.Processing? || s.place.Relock? ==> Next(s, a).Some?
  {
  }

  function Announced<T>(steps: seq<Step<T>>): nat {
    if steps == [] then 0
    else (if steps[0].Push? || steps[0].Stop? then 1 else 0) + Announced(steps[1..])
  }

  function Notified<T(==)>(steps: seq<Step<T>>): nat {
    if steps == [] then 0 else (if steps[0] == Notify then 1 else 0) + Notified(steps[1..])
  }

  /** Every push and every stop is notified of once: the notifications sent and those under way are as many. */
  lemma {:induction false} NoticesCounted<T>(s: State<T>, steps: seq<Step<T>>, end: State<T>)
    requires Run(Next, s, steps, end)
    ensures s.notices + Announced(steps) == end.notices + Notified(steps)
    decreases |steps|
  {
    if steps != [] {
      NoticesCounted(Next(s, steps[0]).value, steps[1..], end);
    }
  }

  // While the queue runs.

  /** The worker's steps until it may take a task. */
  function ToInner<T>(place: Place<T>): nat {
    match place
    case Inner => 0
    case Relock => 1
    case Test => 1
    case Acquire => 2
    case Reacquire => 2
    case Processing(_) => 2
    case Top(_) => 3
    case Asleep => 3
    case Exited => 0
  }

  /** The worker's steps until the task that was pushed after `k` others is processed. */
  function Distance<T>(s: State<T>, k: nat): nat {
    if k < |s.processed| then 0
    else if k < s.Taken() then 1
    else ToInner(s.place) + 3 * (k - s.Taken()) + 2
  }

  /**
   While the queue runs each of the worker's steps brings every pushed task nearer to being processed, no other
   step delays it, and the worker can go on, or a notification is under way to it.
   */
  lemma Progress<T>(s: State<T>, a: Step<T>, k: nat)
    requires Inv(s) && s.running && |s.processed| <= k < |s.pushed| && Next(s, a).Some?
    ensures
      var t := Next(s, a).value;
      t.running ==> if a == Work then Distance(t, k) < Distance(s, k) else Distance(t, k) <= Distance(s, k)
    ensures Next(s, Work).Some? || (s.place.Asleep? && s.notices > 0)
  {
    assert k >= s.Taken() ==> s.queue != [];
  }

  function WorkSteps<T(==)>(steps: seq<Step<T>>): nat {
    if steps == [] then 0 else (if steps[0] == Work then 1 else 0) + WorkSteps(steps[1..])
  }

  /** So a task is processed once the worker has made that many steps, if the queue is not stopped meanwhile. */
  lemma {:induction false} Processed<T>(s: State<T>, steps: seq<Step<T>>, end: State<T>, k: nat)
    requires Inv(s) && k < |s.pushed| && Run(Next, s, steps, end) && end.running
    requires WorkSteps(steps) >= Distance(s, k)
    ensures k < |end.processed|
    decreases |steps|
  {
    if steps != [] {
      var next := Next(s, steps[0]).value;
      StepKeepsInv(s, steps[0]);
      RunningBefore(next, steps[1..], end);
      if |s.processed| <= k {
        Progress(s, steps[0], k);
      }
      Processed(next, steps[1..], end, k);
    }
  }

  /** A queue that runs at the end was not stopped before. */
  lemma {:induction false} RunningBefore<T>(s: State<T>, steps: seq<Step<T>>, end: State<T>)
    requires Run(Next, s, steps, end) && end.running
    ensures s.running
    decreases |steps|
  {
    if steps != [] {
      RunningBefore(Next(s, steps[0]).value, steps[1..], end);
    }
  }

  // After a stop.

  /** Steps of the worker that a stopped queue allows at most. */
  function Remaining<T>(place: Place<T>): nat {
    match place
    case Exited => 0
    case Top(_) => 1
    case Inner => 2
    case Test => 3
    case Acquire => 4
    case Reacquire => 4
    case Asleep => 5
    case Relock => 3
    case Processing(_) => 4
  }

  /** Once stopped, the worker can always go on until it exits, each of its steps bringing it nearer. */
  lemma StoppedExits<T>(s: State<T>, a: Step<T>)
    requires Inv(s) && !s.running && Next(s, a).Some?
    ensures
      var t := Next(s, a).value;
      && !t.running && t.takenAtStop == s.takenAtStop == t.Taken()
      && Remaining(t.place) <= Remaining(s.place)
      && (a == Work ==> Remaining(t.place) < Remaining(s.place))
    ensures s.place.Exited? || Next(s, Work).Some? || (s.place.Asleep? && s.notices > 0)
  {
  }

  /** So a run after a stop takes no task, and has at most five steps of the worker. */
  lemma {:induction false} StoppedRun<T>(s: State<T>, steps: seq<Step<T>>, end: State<T>)
    requires Inv(s) && !s.running && Run(Next, s, steps, end)
    ensures !end.running && end.Taken() == s.Taken() && end.processed + end.InHand() == s.processed + s.InHand()
    ensures WorkSteps(steps) + Remaining(end.place) <= Remaining(s.place)
    decreases |steps|
  {
    if steps != [] {
      var next := Next(s, steps[0]).value;
      StoppedExits(s, steps[0]);
      StepKeepsInv(s, steps[0]);
      assert next.processed + next.InHand() == s.processed + s.InHand();
      StoppedRun(next, steps[1..], end);
    }
  }

  /** The queue's fields; each method is one section under its lock, and takes the protocol's step. */
  class Queue<T(==)> {
    var taskQueue: seq<T>
    var taskPushed: bool
    var runWorkerThread: bool
    ghost var place: Place<T>
    ghost var notices: nat
    ghost var pushed: seq<T>
    ghost var processed: seq<T>
    ghost var takenAtStop: nat

    constructor ()
      ensures View() == Init() && Inv(View())
      ensures taskQueue == [] && !taskPushed && runWorkerThread
    {
      taskQueue, taskPushed, runWorkerThread := [], false, true;
      place, notices, pushed, processed, takenAtStop := Top(false), 0, [], [], 0;
    }

    ghost function View(): State<T>
      reads this
    {
      State(taskQueue, taskPushed, runWorkerThread, place, notices, pushed, processed, takenAtStop)
    }

    method PushToQueue(task: T) returns (size: nat)
      requires Inv(View()) && !View().Locked()
      modifies this
      ensures Next(old(View()), Push(task)) == Some(View()) && Inv(View())
      ensures taskQueue == old(taskQueue) + [task] && size == |taskQueue|
      ensures taskPushed && runWorkerThread == old(runWorkerThread)
    {
      StepKeepsInv(View(), Push(task));
      taskQueue := taskQueue + [task];
      size := |taskQueue|;
      taskPushed := true;
      notices, pushed := notices + 1, pushed + [task];
    }

    method StopQueue()
      requires Inv(View()) && !View().Locked()
      modifies this
      ensures Next(old(View()), Stop) == Some(View()) && Inv(View())
      ensures taskQueue == old(taskQueue) && taskPushed && !runWorkerThread
    {
      StepKeepsInv(View(), Stop);
      takenAtStop := if runWorkerThread then View().Taken() else takenAtStop;
      runWorkerThread := false;
      taskPushed := true;
      notices := notices + 1;
    }

    /** The worker's wait: it goes on when the flag is set, and clears it; else it sleeps. */
    method WaitForTask() returns (awake: bool)
      requires Inv(View()) && place == Test
      modifies this
      ensures Next(old(View()), Work) == Some(View()) && Inv(View())
      ensures awake <==> old(taskPushed)
      ensures taskQueue == old(taskQueue) && !taskPushed && runWorkerThread == old(runWorkerThread)
      ensures place == if awake then Inner else Asleep
    {
      StepKeepsInv(View(), Work);
      awake := taskPushed;
      if awake {
        taskPushed := false;
      }
      place := if awake then Inner else Asleep;
    }

    /** One turn of the worker's inner loop: a task to process, or the end of the loop. */
    method TakeTask() returns (task: Option<T>)
      requires Inv(View()) && place == Inner
      modifies this
      ensures Next(old(View()), Work) == Some(View()) && Inv(View())
      ensures task == if old(runWorkerThread) && old(taskQueue) != [] then Some(old(taskQueue)[0]) else None
      ensures taskQueue == if task.Some? then old(taskQueue)[1..] else old(taskQueue)
      ensures taskPushed == old(taskPushed) && runWorkerThread == old(runWorkerThread)
      ensures place == if task.Some? then Processing(task.value) else Top(!runWorkerThread)
    {
      StepKeepsInv(View(), Work);
      task := None;
      if !runWorkerThread {
        place := Top(true);
      } else if |taskQueue| > 0 {
        task := Some(taskQueue[0]);
        taskQueue := taskQueue[1..];
        place := Processing(task.value);
      } else {
        place := Top(false);
      }
    }
  }
}
