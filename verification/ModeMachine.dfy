/**
 The daemon controller's methods for its modes. Each runs to its end, the queue's worker running only while
 a probe is waited for; what a method does is a run of the protocol of `ModeProtocol`.
 */
module ModeMachine {
  import opened ModeProtocol
  import opened UdpFrame
  import opened Options
  import opened Runs

  const MODE_OPERATIONAL := "operational"
  const MODE_SERVICE := "service"
  const MODE_FORWARDING := "forwarding"

  /** The mode that a command names. */
  function Named(cmd: string): Option<Mode> {
    if cmd == MODE_OPERATIONAL then Some(Operational)
    else if cmd == MODE_SERVICE then Some(Service)
    else if cmd == MODE_FORWARDING then Some(Forwarding)
    else None
  }

  /** Three words are commands. */
  lemma CommandWords(cmd: string)
    ensures Named("operational") == Some(Operational) && Named("service") == Some(Service)
    ensures Named("forwarding") == Some(Forwarding)
    ensures Named(cmd).Some? ==> cmd in ["operational", "service", "forwarding"]
  {
  }

  /** The modes that commands name, in order. */
  function AllNamed(cmds: seq<string>): seq<Mode> {
    if cmds == [] then []
    else
      AllNamed(cmds[..|cmds| - 1])
      + match Named(cmds[|cmds| - 1])
        case None => []
        case Some(m) => [m]
  }

  class DaemonController {
    const iqrfInterface: Channel?
    /** The UDP component, which forwards messages and may take the interface. */
    const udp: UdpMessaging?
    var mode: Mode
    /** The handler that is pointed to, 0 for none. */
    var dpaHandler: nat
    /** How many handlers were made. */
    var made: nat
    /** Transactions waiting in the queue, and how those that ran ended. */
    var queue: seq<Transaction>
    var finished: seq<(Transaction, Fate)>
    var probes: nat
    ghost var alive: set<nat>
    ghost var mutex: Owner
    ghost var change: Change
    ghost var work: Work
    ghost var asked: seq<Mode>
    /** The run so far. */
    ghost var trace: seq<Step>

    constructor (iqrfInterface: Channel?, udp: UdpMessaging?)
      requires udp != null ==> udp.exclusiveChannel == null
      ensures Valid() && View() == Start(udp != null, 0) && trace == []
      ensures this.iqrfInterface == iqrfInterface && this.udp == udp
    {
      this.iqrfInterface, this.udp := iqrfInterface, udp;
      mode, dpaHandler, made, queue, finished, probes := Operational, 0, 0, [], [], 0;
      alive, mutex, change, work, asked, trace := {}, Nobody, Idle, Resting, [], [];
    }

    ghost function View(): State
      reads this, udp
    {
      State(udp != null, mode, udp != null && udp.exclusiveChannel != null, dpaHandler, alive, made, mutex,
            queue, finished, probes, change, work, asked, Serving)
    }

    /** The controller is where a run of the protocol leads, and any channel held is the interface. */
    ghost predicate Valid()
      reads this, udp
    {
      && Run(Next, Start(udp != null, 0), trace, View())
      && (udp != null && udp.exclusiveChannel != null ==> udp.exclusiveChannel == iqrfInterface)
    }

    /** So the invariant of the protocol holds. */
    lemma Invariant()
      requires Valid()
      ensures Inv(View())
    {
      StartInv(udp != null, 0);
      RunKeepsInv(Start(udp != null, 0), trace, View());
    }

    lemma ForwardsConfigured()
      requires Valid()
      ensures mode == Forwarding ==> udp != null
    {
      Invariant();
    }

    /** A handler is created where there is none. */
    lemma NoHandlerYet()
      requires Valid() && change.Switched? && change.target != Service
      ensures dpaHandler == 0
    {
      Invariant();
    }

    /** A probe that is waited for is in the queue, unless the worker has it, and will run. */
    lemma ProbeQueued()
      requires Valid() && work == Resting && change.Probing? && !Answered(finished, Probe(change.n))
      ensures queue != [] && mode != Service && dpaHandler != 0
    {
      Invariant();
      assert Probe(change.n) in multiset(View().Pending());
      assert View().Pending() == queue;
    }

    /** Both threads are between two calls. */
    ghost predicate Quiet()
      reads this`mutex, this`change, this`work
    {
      mutex == Nobody && change == Idle && work == Resting
    }

    /** A step was made since `was`. */
    ghost method Did(a: Step, was: State)
      requires Run(Next, Start(udp != null, 0), trace, was) && Next(was, a) == Some(View())
      modifies this`trace
      ensures trace == old(trace) + [a] && Run(Next, Start(udp != null, 0), trace, View())
    {
      var more, end := OneMore(Next, Start(udp != null, 0), trace, was, a);
      trace := trace + [a];
    }

    /** A client's transaction. */
    method ExecuteDpaTransaction(id: int)
      requires Valid()
      modifies this`queue, this`trace
      ensures Valid() && queue == old(queue) + [Client(id)]
    {
      ghost var s := View();
      queue := queue + [Client(id)];
      Did(Push(id), s);
    }

    /** The worker takes the transaction at the front, and tries the mutex. */
    method TryLock(gets: bool) returns (tr: Transaction)
      requires Valid() && work == Resting && queue != [] && (gets ==> mutex == Nobody)
      modifies this`queue, this`work, this`mutex, this`trace
      ensures Valid() && [tr] + queue == old(queue) && work == Tried(tr, gets)
      ensures mutex == if gets then Worker else old(mutex)
    {
      ghost var s := View();
      tr, queue := queue[0], queue[1..];
      work := Took(tr);
      Did(Take, s);
      s := View();
      if gets {
        mutex := Worker;
      }
      work := Tried(tr, gets);
      Did(Try(gets), s);
    }

    /** It calls the handler that is pointed to. */
    method Call(tr: Transaction, ghost gets: bool, m: Mode, throws: bool) returns (fate: Fate)
      requires Valid() && work == Saw(tr, gets, m) && m != Service && dpaHandler != 0
      requires (m == Forwarding ==> udp != null)
      modifies this`work, this`trace
      ensures Valid() && work == Ended(tr, gets, fate)
      ensures fate == if throws then Failed else if m == Forwarding then Forwarded else Executed
    {
      ghost var s := View();
      work := Checked(tr, gets, m);
      Did(WorkStep(throws), s);
      s := View();
      work := Using(tr, gets, m, dpaHandler);
      Did(WorkStep(throws), s);
      fate := if throws then Failed else if m == Forwarding then Forwarded else Executed;
      s := View();
      work := Ended(tr, gets, fate);
      Did(WorkStep(throws), s);
    }

    /** What the mode makes of the transaction. */
    method Switch(tr: Transaction, ghost gets: bool, throws: bool) returns (fate: Fate)
      requires Valid() && work == Tried(tr, gets)
      modifies this`work, this`trace
      ensures Valid() && work == Ended(tr, gets, fate)
      ensures fate == if mode == Service then RefusedByService
                      else if dpaHandler == 0 || (mode == Forwarding && udp == null) then NoInterface
                      else if throws then Failed
                      else if mode == Forwarding then Forwarded
                      else Executed
    {
      ghost var s := View();
      var m := mode;
      work := Saw(tr, gets, m);
      Did(WorkStep(throws), s);
      if m != Service && dpaHandler != 0 && (m == Forwarding ==> udp != null) {
        fate := Call(tr, gets, m, throws);
      } else {
        fate := if m == Service then RefusedByService else NoInterface;
        s := View();
        work := Ended(tr, gets, fate);
        Did(WorkStep(throws), s);
      }
    }

    /** The transaction ends, and the mutex is given back if it was got. */
    method Leave(tr: Transaction, gets: bool, fate: Fate)
      requires Valid() && work == Ended(tr, gets, fate)
      modifies this`finished, this`work, this`mutex, this`trace
      ensures Valid() && work == Resting && finished == old(finished) + [(tr, fate)]
      ensures mutex == if gets then Nobody else old(mutex)
    {
      ghost var s := View();
      finished := finished + [(tr, fate)];
      work := Leaving(gets);
      Did(WorkStep(false), s);
      s := View();
      if gets {
        mutex := Nobody;
      }
      work := Resting;
      Did(WorkStep(false), s);
    }

    /** The queue's worker runs the transaction at the front; `gets` when it gets the mutex. */
    method ExecuteDpaTransactionFunc(gets: bool, throws: bool) returns (fate: Fate)
      requires Valid() && work == Resting && queue != [] && (gets ==> mutex == Nobody)
      modifies this`queue, this`finished, this`work, this`mutex, this`trace
      ensures Valid() && work == Resting && mutex == old(mutex)
      ensures queue == old(queue)[1..] && finished == old(finished) + [(old(queue)[0], fate)]
      ensures fate == if mode == Service then RefusedByService
                      else if dpaHandler == 0 then NoInterface
                      else if throws then Failed
                      else if mode == Forwarding then Forwarded
                      else Executed
    {
      ForwardsConfigured();
      var tr := TryLock(gets);
      fate := Switch(tr, gets, throws);
      Leave(tr, gets, fate);
    }

    /** Waits for the probe: the worker runs it, after what waits before it. */
    method WaitFinish(n: nat, throws: Transaction -> bool)
      requires Valid() && work == Resting && change.Probing? && change.n == n
      modifies this`queue, this`finished, this`work, this`mutex, this`trace
      ensures Valid() && work == Resting && mutex == old(mutex) && Answered(finished, Probe(n))
      ensures old(finished) <= finished
      ensures forall k :: |old(finished)| <= k < |finished| ==> Ran(finished[k].1)
    {
      while !Answered(finished, Probe(n))
        invariant Valid() && work == Resting && mutex == old(mutex) && old(finished) <= finished
        invariant forall k :: |old(finished)| <= k < |finished| ==> Ran(finished[k].1)
        decreases |queue|
      {
        ProbeQueued();
        var fate := ExecuteDpaTransactionFunc(false, throws(queue[0]));
      }
    }

    /** Pushes the probe and waits for it. */
    method ProbeHandler(throws: Transaction -> bool)
      requires Valid() && work == Resting && change.Created?
      modifies this`queue, this`finished, this`probes, this`mutex, this`change, this`work, this`trace
      ensures Valid() && work == Resting && mutex == old(mutex) && change == Final(old(change.target))
      ensures old(finished) <= finished && probes == old(probes) + 1 && Answered(finished, Probe(old(probes)))
      ensures forall k :: |old(finished)| <= k < |finished| ==> Ran(finished[k].1)
    {
      ghost var (s, t) := (View(), change.target);
      var n := probes;
      queue, probes := queue + [Probe(n)], n + 1;
      change := Probing(t, n);
      Did(ChangeStep(Probed), s);
      WaitFinish(n, throws);
      s := View();
      change := Final(t);
      Did(ChangeStep(Probed), s);
    }

    /** Creates the DPA handler and probes it; whatever goes wrong is caught here. */
    method StartDpa(creation: Creation, throws: Transaction -> bool)
      requires Valid() && work == Resting && change.Switched? && change.target != Service
      modifies this`dpaHandler, this`made, this`queue, this`finished, this`probes
      modifies this`alive, this`mutex, this`change, this`work, this`trace
      ensures Valid() && work == Resting && mutex == old(mutex) && change == Final(old(change.target))
      ensures dpaHandler != 0 <==> creation != NoHandler
      ensures old(finished) <= finished && probes == old(probes) + if creation == Probed then 1 else 0
      ensures creation == Probed ==> Answered(finished, Probe(old(probes)))
      ensures creation != Probed ==> queue == old(queue) && finished == old(finished)
      ensures forall k :: |old(finished)| <= k < |finished| ==> Ran(finished[k].1)
    {
      NoHandlerYet();
      ghost var (s, t) := (View(), change.target);
      if creation == NoHandler {
        change := Final(t);
        Did(ChangeStep(creation), s);
        return;
      }
      made := made + 1;
      dpaHandler, alive := made, alive + {made};
      change := if creation == Probed then Created(t) else Final(t);
      Did(ChangeStep(creation), s);
      if creation == Probed {
        ProbeHandler(throws);
      }
    }

    /** Deletes the handler, then clears the pointer to it. */
    method StopDpa()
      requires Valid() && change == Switched(Service)
      modifies this`dpaHandler, this`alive, this`change, this`trace
      ensures Valid() && change == Cleared && dpaHandler == 0
    {
      ghost var s := View();
      alive := alive - {dpaHandler};
      change := Deleted;
      Did(ChangeStep(NoHandler), s);
      s := View();
      dpaHandler := 0;
      change := Cleared;
      Did(ChangeStep(NoHandler), s);
    }

    /** Takes the mode mutex. */
    ghost method Lock(target: Mode)
      requires Valid() && Quiet()
      modifies this`mutex, this`change, this`asked, this`trace
      ensures Valid() && work == Resting && mutex == Commander && change == Entered(target)
      ensures asked == old(asked) + [target]
    {
      var s := View();
      mutex, change, asked := Commander, Entered(target), asked + [target];
      Did(Ask(target), s);
    }

    /** Gives the mode mutex back. */
    ghost method Unlock()
      requires Valid() && work == Resting && change == Done
      modifies this`mutex, this`change, this`trace
      ensures Valid() && Quiet()
      ensures mode == AfterAll(Operational, asked, udp != null)
      ensures udp != null ==> (udp.exclusiveChannel != null <==> mode == Service)
      ensures mode == Service ==> dpaHandler == 0
    {
      var s := View();
      mutex, change := Nobody, Idle;
      Did(ChangeStep(NoHandler), s);
      Invariant();
    }

    /** Gives the interface back, and starts DPA in the new mode. */
    method LeaveService(target: Mode, creation: Creation, throws: Transaction -> bool)
      requires Valid() && work == Resting && change == Entered(target) && target != Service && udp != null
      requires mode == Service
      modifies this`mode, this`dpaHandler, this`made, this`queue, this`finished, this`probes
      modifies this`alive, this`mutex, this`change, this`work, this`trace, udp
      ensures Valid() && work == Resting && change == Final(target)
      ensures old(finished) <= finished && forall k :: |old(finished)| <= k < |finished| ==> Ran(finished[k].1)
      ensures dpaHandler != 0 <==> creation != NoHandler
      ensures creation == Probed ==> probes == old(probes) + 1 && Answered(finished, Probe(old(probes)))
      ensures udp.toUdp == old(udp.toUdp)
    {
      ghost var s := View();
      udp.ResetExclusive();
      change := Released(target);
      Did(ChangeStep(creation), s);
      s := View();
      mode := target;
      change := Switched(target);
      Did(ChangeStep(creation), s);
      StartDpa(creation, throws);
    }

    /** Stops DPA, and has the UDP component take the interface. */
    method EnterService()
      requires Valid() && work == Resting && change == Entered(Service) && udp != null && iqrfInterface != null
      modifies this`mode, this`dpaHandler, this`alive, this`change, this`trace, udp
      ensures Valid() && work == Resting && change == Final(Service)
      ensures udp.toUdp == old(udp.toUdp)
    {
      ghost var s := View();
      mode := Service;
      change := Switched(Service);
      Did(ChangeStep(NoHandler), s);
      StopDpa();
      s := View();
      udp.SetExclusive(iqrfInterface);
      change := Final(Service);
      Did(ChangeStep(NoHandler), s);
    }

    /** The last assignment of a change, if it makes one. */
    method Assign(target: Mode, assigns: bool)
      requires Valid() && work == Resting
      requires if assigns then
                 change == Final(target)
                 || (change == Entered(target) && target != Service && (target == Forwarding ==> udp != null)
                     && !(udp != null && mode == Service))
               else change == Entered(target) && target != Operational && udp == null
      modifies this`mode, this`change, this`trace
      ensures Valid() && work == Resting && change == Done
    {
      ghost var s := View();
      if assigns {
        mode := target;
      }
      change := Done;
      Did(ChangeStep(NoHandler), s);
    }

    /** One change of the mode under the mutex, the worker running while a probe is waited for. */
    method SetMode(newMode: Mode, creation: Creation, throws: Transaction -> bool)
      requires Valid() && Quiet() && iqrfInterface != null
      modifies this, if udp == null then {} else {udp}
      ensures Valid() && Quiet() && asked == old(asked) + [newMode]
      ensures udp != null ==>
                udp.exclusiveChannel == (if mode == Service then iqrfInterface else null) && udp.toUdp == old(udp.toUdp)
      ensures mode == Service ==> dpaHandler == 0
      ensures mode == if udp != null || newMode == Operational then newMode else old(mode)
      ensures old(finished) <= finished && forall k :: |old(finished)| <= k < |finished| ==> Ran(finished[k].1)
      ensures old(mode) == Service && mode != Service ==> (dpaHandler != 0 <==> creation != NoHandler)
      ensures old(mode) == Service && mode != Service && creation == Probed ==> Answered(finished, Probe(old(probes)))
      ensures old(mode) != Service || mode == Service ==> queue == old(queue) && finished == old(finished)
    {
      Invariant();
      Lock(newMode);
      match newMode {
        case Operational =>
          if udp != null && mode == Service {
            LeaveService(newMode, creation, throws);
          }
          Assign(newMode, true);
        case Forwarding =>
          if udp != null {
            if mode == Service {
              LeaveService(newMode, creation, throws);
            }
          }
          Assign(newMode, udp != null);
        case Service =>
          if udp != null {
            EnterService();
          }
          Assign(newMode, udp != null);
      }
      Unlock();
    }

    method DoCommand(cmd: string, creation: Creation, throws: Transaction -> bool) returns (res: string)
      requires Valid() && Quiet()
      modifies this, if udp == null then {} else {udp}
      ensures Valid() && Quiet()
      ensures res == if iqrfInterface == null then "ERROR_IFACE" else if Named(cmd).None? then "ERROR_UNKNOWN" else "OK"
      ensures asked == old(asked) + if res == "OK" then [Named(cmd).value] else []
      ensures res == "OK" ==> mode == After(old(mode), Named(cmd).value, udp != null)
      ensures res != "OK" ==> View() == old(View())
      ensures old(finished) <= finished && forall k :: |old(finished)| <= k < |finished| ==> Ran(finished[k].1)
    {
      if iqrfInterface == null {
        return "ERROR_IFACE";
      }
      res := "ERROR_UNKNOWN";
      if cmd == MODE_OPERATIONAL {
        SetMode(Operational, creation, throws);
        res := "OK";
      } else if cmd == MODE_SERVICE {
        SetMode(Service, creation, throws);
        res := "OK";
      } else if cmd == MODE_FORWARDING {
        SetMode(Forwarding, creation, throws);
        res := "OK";
      }
    }

    /** Clients' transactions. */
    method PushAll(ids: seq<int>)
      requires Valid()
      modifies this`queue, this`trace
      ensures Valid()
    {
      for j := 0 to |ids|
        invariant Valid()
      {
        ExecuteDpaTransaction(ids[j]);
      }
    }

    /** Between commands the mode is the last one asked for, and the interface is held exactly in service mode. */
    lemma AtRest()
      requires Valid() && Quiet()
      ensures mode == if udp != null && asked != [] then asked[|asked| - 1] else Operational
      ensures mode == Service ==> udp != null && udp.exclusiveChannel == iqrfInterface && dpaHandler == 0
      ensures mode != Service ==> udp == null || udp.exclusiveChannel == null
    {
      Invariant();
      LastDecides(asked, udp != null);
    }

    /** Any sequence of commands, with whatever each handler creation comes to, and transactions pushed before each. */
    method DoCommands(cmds: seq<string>, creations: seq<Creation>, pushes: seq<seq<int>>, throws: Transaction -> bool)
      requires Valid() && Quiet() && iqrfInterface != null && |creations| == |pushes| == |cmds|
      modifies this, if udp == null then {} else {udp}
      ensures Valid() && Quiet() && asked == old(asked) + AllNamed(cmds)
      ensures mode == if udp != null && asked != [] then asked[|asked| - 1] else Operational
      ensures mode == Service ==> udp != null && udp.exclusiveChannel == iqrfInterface && dpaHandler == 0
      ensures mode != Service ==> udp == null || udp.exclusiveChannel == null
      ensures forall k :: |old(finished)| <= k < |finished| ==> Ran(finished[k].1)
    {
      for k := 0 to |cmds|
        invariant Valid() && Quiet() && asked == old(asked) + AllNamed(cmds[..k]) && old(finished) <= finished
        invariant forall j :: |old(finished)| <= j < |finished| ==> Ran(finished[j].1)
      {
        PushAll(pushes[k]);
        assert cmds[..k + 1][..k] == cmds[..k];
        var res := DoCommand(cmds[k], creations[k], throws);
      }
      assert cmds[..|cmds|] == cmds;
      AtRest();
    }
  }
}
