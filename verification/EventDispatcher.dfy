/**
 EventDispatcher as interleaved steps: any number of threads call Dispatch and StopWorker, one worker
 waits on the condition variable and hands events to the simulator.  Each lock, wait, push, pop, unlock
 and notification is a step of its own; a waiting worker may also wake up without being notified.
 */
module EventDispatcher {
  type Event(==) = nat

  /** What a calling thread has been asked to do. */
  datatype Call = Dispatch(e: Event) | Stop

  datatype Caller =
    | Outside
    | Locked(call: Call)      // holds the mutex, has not changed anything yet
    | Changed                 // holds the mutex, has pushed or set the flag
    | Notifying               // has released the mutex, has not notified yet

  datatype Worker =
    | Locking                 // at the top of the loop, or woken: wants the mutex
    | Checking                // holds the mutex, evaluates the predicate
    | Blocked                 // waits on the condition variable
    | Handing(e: Event)       // has released the mutex with an event in hand
    | Returned

  /** `pushed` and `handed` record the order of pushes and of calls to ScheduleWithContext. */
  datatype State = State(
    callers: seq<Caller>,
    worker: Worker,
    queue: seq<Event>,
    stop: bool,
    pushed: seq<Event>,
    handed: seq<Event>)

  predicate IsInitial(s: State) {
    && (forall i | 0 <= i < |s.callers| :: s.callers[i] == Outside)
    && s.worker == Locking && s.queue == [] && !s.stop && s.pushed == [] && s.handed == []
  }

  datatype Step =
    | CallerLocks(i: nat, call: Call)
    | CallerChanges(i: nat)
    | CallerUnlocks(i: nat)
    | CallerNotifies(i: nat)
    | WorkerLocks
    | WorkerChecks
    | WorkerWakes
    | WorkerHands

  predicate CallerHolds(c: Caller) {
    c.Locked? || c.Changed?
  }

  predicate MutexFree(s: State) {
    s.worker != Checking && forall i | 0 <= i < |s.callers| :: !CallerHolds(s.callers[i])
  }

  predicate Enabled(s: State, st: Step) {
    match st
    case CallerLocks(i, _) => i < |s.callers| && s.callers[i] == Outside && MutexFree(s)
    case CallerChanges(i) => i < |s.callers| && s.callers[i].Locked?
    case CallerUnlocks(i) => i < |s.callers| && s.callers[i] == Changed
    case CallerNotifies(i) => i < |s.callers| && s.callers[i] == Notifying
    case WorkerLocks => s.worker == Locking && MutexFree(s)
    case WorkerChecks => s.worker == Checking
    case WorkerWakes => s.worker == Blocked
    case WorkerHands => s.worker.Handing?
  }

  function Next(s: State, st: Step): State
    requires Enabled(s, st)
  {
    match st
    case CallerLocks(i, call) => s.(callers := s.callers[i := Locked(call)])
    case CallerChanges(i) =>
      var s1 := s.(callers := s.callers[i := Changed]);
      (match s.callers[i].call
       case Dispatch(e) => s1.(queue := s.queue + [e], pushed := s.pushed + [e])
       case Stop => s1.(stop := true))
    case CallerUnlocks(i) => s.(callers := s.callers[i := Notifying])
    case CallerNotifies(i) =>
      s.(callers := s.callers[i := Outside], worker := if s.worker == Blocked then Locking else s.worker)
    case WorkerLocks => s.(worker := Checking)
    case WorkerChecks =>
      if s.stop then s.(worker := Returned)
      else if s.queue == [] then s.(worker := Blocked)
      else s.(worker := Handing(s.queue[0]), queue := s.queue[1..])
    case WorkerWakes => s.(worker := Locking)
    case WorkerHands => s.(worker := Locking, handed := s.handed + [s.worker.e])
  }

  function InHand(s: State): seq<Event> {
    if s.worker.Handing? then [s.worker.e] else []
  }

  predicate OneHolder(s: State) {
    && (forall i, j | 0 <= i < |s.callers| && 0 <= j < |s.callers| && i != j ::
          !CallerHolds(s.callers[i]) || !CallerHolds(s.callers[j]))
    && (s.worker == Checking ==> forall i | 0 <= i < |s.callers| :: !CallerHolds(s.callers[i]))
  }

  predicate WillNotify(c: Caller) {
    c.Changed? || c.Notifying?
  }

  /** A worker that waits although there is something to do is about to be notified. */
  ghost predicate NoLostWakeup(s: State) {
    s.worker == Blocked && (s.queue != [] || s.stop) ==>
      exists i :: 0 <= i < |s.callers| && WillNotify(s.callers[i])
  }

  ghost predicate Inv(s: State) {
    && OneHolder(s)
    && s.pushed == s.handed + InHand(s) + s.queue
    && NoLostWakeup(s)
    && (s.worker.Returned? ==> s.stop)
  }

  lemma StepKeeps(s: State, st: Step)
    requires Inv(s) && Enabled(s, st)
    ensures Inv(Next(s, st))
  {
    var t := Next(s, st);
    OrderKept(s, st);
    if s.worker == Blocked && t.worker == Blocked && (t.queue != [] || t.stop) {
      WakeupKept(s, st);
    }
  }

  lemma OrderKept(s: State, st: Step)
    requires s.pushed == s.handed + InHand(s) + s.queue && Enabled(s, st)
    ensures var t := Next(s, st); t.pushed == t.handed + InHand(t) + t.queue
  {
    var t := Next(s, st);
    if st.CallerChanges? && s.callers[st.i].call.Dispatch? {
      var added := t.queue[|s.queue|..];
      assert s.handed + InHand(s) + (s.queue + added) == s.handed + InHand(s) + s.queue + added;
    }
    if st.WorkerChecks? && !s.stop && s.queue != [] {
      assert s.queue == [s.queue[0]] + s.queue[1..];
    }
  }

  lemma WakeupKept(s: State, st: Step)
    requires NoLostWakeup(s) && Enabled(s, st) && s.worker == Blocked && Next(s, st).worker == Blocked
    requires Next(s, st).queue != [] || Next(s, st).stop
    ensures exists i :: 0 <= i < |Next(s, st).callers| && WillNotify(Next(s, st).callers[i])
  {
    var t := Next(s, st);
    if st.CallerChanges? {
      assert WillNotify(t.callers[st.i]);
    } else {
      var i :| 0 <= i < |s.callers| && WillNotify(s.callers[i]);
      assert WillNotify(t.callers[i]);
    }
  }

  // ---- Every run --------------------------------------------------------------------------------------

  ghost predicate Leads(s: State, steps: seq<Step>, t: State)
    decreases |steps|
  {
    if steps == [] then s == t else Enabled(s, steps[0]) && Leads(Next(s, steps[0]), steps[1..], t)
  }

  ghost predicate Reachable(s: State) {
    exists s0, steps :: IsInitial(s0) && Leads(s0, steps, s)
  }

  lemma {:induction false} LeadsKeepsInv(s: State, steps: seq<Step>, t: State)
    requires Inv(s) && Leads(s, steps, t)
    ensures Inv(t)
    decreases |steps|
  {
    if steps != [] {
      StepKeeps(s, steps[0]);
      LeadsKeepsInv(Next(s, steps[0]), steps[1..], t);
    }
  }

  lemma ReachableInv(s: State)
    requires Reachable(s)
    ensures Inv(s)
  {
    var s0, steps :| IsInitial(s0) && Leads(s0, steps, s);
    LeadsKeepsInv(s0, steps, s);
  }

  /**
   The simulator is handed the events in the order of the pushes, none lost or doubled: handed over, at
   most one in the worker's hand, then the queue.
   */
  lemma EventsInOrder(s: State)
    requires Reachable(s)
    ensures s.pushed == s.handed + InHand(s) + s.queue
    ensures s.handed <= s.pushed
  {
    ReachableInv(s);
    assert s.handed <= s.handed + InHand(s) <= s.handed + InHand(s) + s.queue;
  }

  /** The mutex excludes: of all callers and the worker, at most one is in its critical section. */
  lemma MutualExclusion(s: State, i: nat, j: nat)
    requires Reachable(s) && i < |s.callers| && j < |s.callers| && CallerHolds(s.callers[i])
    ensures s.worker != Checking
    ensures CallerHolds(s.callers[j]) ==> i == j
  {
    ReachableInv(s);
  }

  predicate WorkerStep(st: Step) {
    st.WorkerLocks? || st.WorkerChecks? || st.WorkerHands?
  }

  /**
   No wakeup is lost: when no call is under way, the worker can go on by itself exactly when it is not
   waiting with nothing to do, and has not returned.
   */
  lemma WorkerCanGoOn(s: State)
    requires Reachable(s) && forall i | 0 <= i < |s.callers| :: s.callers[i] == Outside
    ensures (exists st :: WorkerStep(st) && Enabled(s, st))
       <==> !s.worker.Returned? && !(s.worker == Blocked && s.queue == [] && !s.stop)
  {
    ReachableInv(s);
    match s.worker
    case Locking => assert WorkerStep(WorkerLocks) && Enabled(s, WorkerLocks);
    case Checking => assert WorkerStep(WorkerChecks) && Enabled(s, WorkerChecks);
    case Handing(_) => assert WorkerStep(WorkerHands) && Enabled(s, WorkerHands);
    case _ =>
  }

  // ---- Stopping -------------------------------------------------------------------------------------------

  lemma StoppedStep(s: State, st: Step)
    requires s.stop && Enabled(s, st)
    ensures Next(s, st).stop && s.queue <= Next(s, st).queue
    ensures Next(s, st).handed + InHand(Next(s, st)) == s.handed + InHand(s)
  {
    if st.WorkerHands? {
      assert Next(s, st).handed + [] == s.handed + InHand(s);
    }
  }

  /** From the moment the flag is set, no more is handed over than the event the worker has in hand. */
  lemma {:induction false} StopDropsQueue(s: State, steps: seq<Step>, t: State)
    requires s.stop && Leads(s, steps, t)
    ensures t.stop && t.handed + InHand(t) == s.handed + InHand(s) && s.queue <= t.queue
    decreases |steps|
  {
    if steps != [] {
      StoppedStep(s, steps[0]);
      StopDropsQueue(Next(s, steps[0]), steps[1..], t);
    }
  }

  /**
   At any moment after the flag is set, what has been pushed can still all be handed over exactly when the
   queue is empty.
   */
  lemma AllHandedOverIff(s: State)
    requires Reachable(s) && s.stop
    ensures (exists steps, t :: Leads(s, steps, t) && s.pushed <= t.handed) <==> s.queue == []
  {
    EventsInOrder(s);
    if s.queue == [] {
      assert s.pushed == s.handed + InHand(s);
      HandsOver(s);
    } else {
      forall steps, t | Leads(s, steps, t)
        ensures !(s.pushed <= t.handed)
      {
        StopDropsQueue(s, steps, t);
        assert |t.handed| <= |t.handed + InHand(t)| < |s.pushed|;
      }
    }
  }

  /** The event in hand can always be handed over. */
  lemma HandsOver(s: State)
    ensures exists steps, t :: Leads(s, steps, t) && t.handed == s.handed + InHand(s)
  {
    if s.worker.Handing? {
      assert [WorkerHands][1..] == [];
      assert Leads(s, [WorkerHands], Next(s, WorkerHands));
    } else {
      assert Leads(s, [], s) && s.handed == s.handed + InHand(s);
    }
  }

  lemma {:induction false} LeadsOn(s: State, steps: seq<Step>, t: State, st: Step)
    requires Leads(s, steps, t) && Enabled(t, st)
    ensures Leads(s, steps + [st], Next(t, st))
    decreases |steps|
  {
    if steps == [] {
      assert [st][1..] == [] && [] + [st] == [st];
    } else {
      assert (steps + [st])[1..] == steps[1..] + [st];
      LeadsOn(Next(s, steps[0]), steps[1..], t, st);
    }
  }

  /** A call that nothing interrupts, while the worker wants the mutex. */
  lemma CallAlone(s0: State, steps: seq<Step>, s: State, call: Call) returns (more: seq<Step>, t: State)
    requires Leads(s0, steps, s) && s.callers == [Outside] && s.worker == Locking
    ensures Leads(s0, more, t)
    ensures t == match call
                 case Dispatch(e) => s.(queue := s.queue + [e], pushed := s.pushed + [e])
                 case Stop => s.(stop := true)
  {
    var s1 := Next(s, CallerLocks(0, call));
    LeadsOn(s0, steps, s, CallerLocks(0, call));
    var s2 := Next(s1, CallerChanges(0));
    LeadsOn(s0, steps + [CallerLocks(0, call)], s1, CallerChanges(0));
    var s3 := Next(s2, CallerUnlocks(0));
    more := steps + [CallerLocks(0, call)] + [CallerChanges(0)];
    LeadsOn(s0, more, s2, CallerUnlocks(0));
    t := Next(s3, CallerNotifies(0));
    LeadsOn(s0, more + [CallerUnlocks(0)], s3, CallerNotifies(0));
    more := more + [CallerUnlocks(0)] + [CallerNotifies(0)];
    assert t.callers == s.callers;
  }

  /** One caller dispatches an event and stops the worker before it has looked at the queue: the event is lost. */
  lemma EventCanBeLost() returns (s: State)
    ensures Reachable(s) && s.worker.Returned? && s.pushed == s.queue == [7] && s.handed == []
  {
    var s0 := State([Outside], Locking, [], false, [], []);
    var steps, s1 := CallAlone(s0, [], s0, Dispatch(7));
    var s2;
    steps, s2 := CallAlone(s0, steps, s1, Stop);
    var s3 := Next(s2, WorkerLocks);
    LeadsOn(s0, steps, s2, WorkerLocks);
    s := Next(s3, WorkerChecks);
    LeadsOn(s0, steps + [WorkerLocks], s3, WorkerChecks);
    assert [] + [7] == [7];
    assert IsInitial(s0);
  }
}
