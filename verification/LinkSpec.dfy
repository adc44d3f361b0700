/**
 The transmitter of BridgedPointToPointNetDevice with its drop-tail queue, and the events that it and the
 channel schedule.  Events fire in time order, and sends, completions and receptions of the same moment
 in any order.
 */
module LinkSpec {
  import opened Words

  type Time = nat

  datatype Frame = Frame(id: nat, size: nat)

  /** The attributes of device, queue and channel; `txTime` is the data rate's time for a frame size. */
  datatype Link = Link(txTime: nat -> Time, gap: Time, delay: Time, capacity: nat)

  datatype Mode = Ready | Busy

  datatype Arrival = Arrival(time: Time, frame: Frame)

  /** A scheduled Receive at the other end. */
  datatype Flight = Flight(time: Time, frame: Frame)

  /**
   The device's fields, the pending completion and reception events in the order they were scheduled,
   and as history the frames the queue accepted, the times their transmissions started, and the
   receptions that have happened.
   */
  datatype State = State(
    mode: Mode,
    current: Option<Frame>,
    queue: seq<Frame>,
    completions: seq<Time>,
    flights: seq<Flight>,
    now: Time,
    accepted: seq<Arrival>,
    starts: seq<Time>,
    received: seq<Flight>)

  const INITIAL := State(Ready, None, [], [], [], 0, [], [], [])

  function TransmitStart(l: Link, s: State, p: Frame): Result<State> {
    if s.mode != Ready then Fatal("Must be READY to transmit")
    else
      var txTime := l.txTime(p.size);
      Ok(s.(mode := Busy, current := Some(p),
            completions := s.completions + [s.now + txTime + l.gap],
            flights := s.flights + [Flight(s.now + txTime + l.delay, p)],
            starts := s.starts + [s.now]))
  }

  /** The result also says whether the frame was accepted. */
  function SendFrom(l: Link, s: State, p: Frame): Result<(State, bool)> {
    if |s.queue| >= l.capacity then Ok((s, false))
    else
      var s1 := s.(queue := s.queue + [p], accepted := s.accepted + [Arrival(s.now, p)]);
      if s1.mode == Ready then
        var s2 :- TransmitStart(l, s1.(queue := s1.queue[1..]), s1.queue[0]);
        Ok((s2, true))
      else Ok((s1, true))
  }

  function TransmitComplete(l: Link, s: State): Result<State> {
    if s.mode != Busy then Fatal("Must be BUSY if transmitting")
    else if s.current.None? then Fatal("m_currentPkt zero")
    else
      var s1 := s.(mode := Ready, current := None);
      if s1.queue == [] then Ok(s1)
      else TransmitStart(l, s1.(queue := s1.queue[1..]), s1.queue[0])
  }

  /** What the assertions refuse. */
  lemma AssertionsRefuse(l: Link, s: State, p: Frame)
    ensures TransmitStart(l, s, p).Ok? <==> s.mode == Ready
    ensures TransmitComplete(l, s).Ok? <==> s.mode == Busy && s.current.Some?
  {
  }

  // ---- Runs ---------------------------------------------------------------------------------------

  datatype Step =
    | Send(time: Time, frame: Frame)
    | Complete(i: nat)
    | Deliver(i: nat)

  function TimeOf(s: State, st: Step): Time
    requires st.Complete? ==> st.i < |s.completions|
    requires st.Deliver? ==> st.i < |s.flights|
  {
    match st
    case Send(t, _) => t
    case Complete(i) => s.completions[i]
    case Deliver(i) => s.flights[i].time
  }

  /**
   Time does not go back and no pending event is passed over; of receptions due at the same moment, the
   one scheduled first comes first.
   */
  predicate Enabled(s: State, st: Step) {
    && (st.Complete? ==> st.i < |s.completions|)
    && (st.Deliver? ==> st.i < |s.flights| && forall j | 0 <= j < st.i :: s.flights[j].time != s.flights[st.i].time)
    && var t := TimeOf(s, st);
       && s.now <= t
       && (forall j | 0 <= j < |s.completions| :: t <= s.completions[j])
       && (forall j | 0 <= j < |s.flights| :: t <= s.flights[j].time)
  }

  function Without<T>(xs: seq<T>, i: nat): seq<T>
    requires i < |xs|
  {
    xs[..i] + xs[i + 1..]
  }

  function Next(l: Link, s: State, st: Step): Result<State>
    requires Enabled(s, st)
  {
    var s1 := s.(now := TimeOf(s, st));
    match st
    case Send(_, p) =>
      var (s2, _) :- SendFrom(l, s1, p);
      Ok(s2)
    case Complete(i) => TransmitComplete(l, s1.(completions := Without(s.completions, i)))
    case Deliver(i) => Ok(s1.(flights := Without(s.flights, i), received := s.received + [s.flights[i]]))
  }

  // ---- The queueing recursion ------------------------------------------------------------------------

  /** When the transmission of the `k`-th accepted frame begins, from the arrivals alone. */
  function Start(l: Link, arrivals: seq<Arrival>, k: nat): Time
    requires k < |arrivals|
  {
    if k == 0 then arrivals[0].time
    else
      var free := Start(l, arrivals, k - 1) + l.txTime(arrivals[k - 1].frame.size) + l.gap;
      if arrivals[k].time > free then arrivals[k].time else free
  }

  function Due(l: Link, arrivals: seq<Arrival>, k: nat): Flight
    requires k < |arrivals|
  {
    Flight(Start(l, arrivals, k) + l.txTime(arrivals[k].frame.size) + l.delay, arrivals[k].frame)
  }

  /** When the transmitter is free again after the `k`-th frame. */
  function Free(l: Link, arrivals: seq<Arrival>, k: nat): Time
    requires k < |arrivals|
  {
    Start(l, arrivals, k) + l.txTime(arrivals[k].frame.size) + l.gap
  }

  lemma {:induction false} StartOfPrefix(l: Link, arrivals: seq<Arrival>, more: seq<Arrival>, k: nat)
    requires k < |arrivals|
    ensures Start(l, arrivals + more, k) == Start(l, arrivals, k)
    ensures Due(l, arrivals + more, k) == Due(l, arrivals, k)
    ensures Free(l, arrivals + more, k) == Free(l, arrivals, k)
  {
    if k > 0 {
      StartOfPrefix(l, arrivals, more, k - 1);
    }
  }

  lemma {:induction false} DueIsMonotone(l: Link, arrivals: seq<Arrival>, i: nat, j: nat)
    requires i <= j < |arrivals|
    ensures Due(l, arrivals, i).time <= Due(l, arrivals, j).time
  {
    if i < j {
      DueIsMonotone(l, arrivals, i, j - 1);
    }
  }

  // ---- The invariant ------------------------------------------------------------------------------------

  predicate StartsOk(l: Link, arrivals: seq<Arrival>, starts: seq<Time>) {
    |starts| <= |arrivals| && forall k | 0 <= k < |starts| :: starts[k] == Start(l, arrivals, k)
  }

  /** All receptions so far, past and pending, are those of the frames started, in order. */
  predicate FlightsOk(l: Link, arrivals: seq<Arrival>, n: nat, all: seq<Flight>) {
    n <= |arrivals| && |all| == n && forall k | 0 <= k < n :: all[k] == Due(l, arrivals, k)
  }

  predicate QueueOk(arrivals: seq<Arrival>, n: nat, queue: seq<Frame>) {
    n + |queue| == |arrivals| && forall j | 0 <= j < |queue| :: queue[j] == arrivals[n + j].frame
  }

  predicate TransmitterOk(l: Link, s: State) {
    var n := |s.starts|;
    n <= |s.accepted| &&
    match s.mode
    case Ready =>
      && s.completions == [] && s.current == None && s.queue == []
      && (n > 0 ==> Free(l, s.accepted, n - 1) <= s.now)
    case Busy =>
      && n > 0 && s.current == Some(s.accepted[n - 1].frame)
      && s.completions == [Free(l, s.accepted, n - 1)]
      && s.now <= Free(l, s.accepted, n - 1)
  }

  predicate PastArrivals(s: State) {
    forall k | 0 <= k < |s.accepted| :: s.accepted[k].time <= s.now
  }

  predicate NothingOverdue(s: State) {
    forall j | 0 <= j < |s.flights| :: s.now <= s.flights[j].time
  }

  predicate Inv(l: Link, s: State) {
    && StartsOk(l, s.accepted, s.starts)
    && FlightsOk(l, s.accepted, |s.starts|, s.received + s.flights)
    && QueueOk(s.accepted, |s.starts|, s.queue)
    && TransmitterOk(l, s)
    && PastArrivals(s)
    && NothingOverdue(s)
  }

  lemma InitialInv(l: Link)
    ensures Inv(l, INITIAL)
  {
  }

  /** A free transmitter takes the head of the queue at the moment the recursion says. */
  lemma StartKeeps(l: Link, s: State)
    requires StartsOk(l, s.accepted, s.starts) && FlightsOk(l, s.accepted, |s.starts|, s.received + s.flights)
    requires QueueOk(s.accepted, |s.starts|, s.queue) && PastArrivals(s) && NothingOverdue(s)
    requires s.mode == Ready && s.completions == [] && s.queue != []
    requires s.now == Start(l, s.accepted, |s.starts|)
    ensures TransmitStart(l, s.(queue := s.queue[1..]), s.queue[0]).Ok?
    ensures Inv(l, TransmitStart(l, s.(queue := s.queue[1..]), s.queue[0]).value)
  {
    var n, p := |s.starts|, s.queue[0];
    assert p == s.accepted[n].frame;
    var t := TransmitStart(l, s.(queue := s.queue[1..]), p).value;
    var flight := Due(l, s.accepted, n);
    assert t.received + t.flights == (s.received + s.flights) + [flight];
    assert FlightsOk(l, t.accepted, n + 1, t.received + t.flights);
  }

  /** A frame joins the queue; nothing that has started is affected. */
  function Queued(s: State, p: Frame): State {
    s.(queue := s.queue + [p], accepted := s.accepted + [Arrival(s.now, p)])
  }

  lemma QueuedKeeps(l: Link, s: State, p: Frame)
    requires Inv(l, s)
    ensures var t := Queued(s, p);
            && StartsOk(l, t.accepted, t.starts) && FlightsOk(l, t.accepted, |t.starts|, t.received + t.flights)
            && QueueOk(t.accepted, |t.starts|, t.queue) && PastArrivals(t) && NothingOverdue(t)
            && (s.mode == Busy ==> TransmitterOk(l, t))
            && (s.mode == Ready ==> |t.queue| == 1 && t.now == Start(l, t.accepted, |t.starts|))
  {
    var t := Queued(s, p);
    forall k | 0 <= k < |s.accepted|
      ensures Start(l, t.accepted, k) == Start(l, s.accepted, k)
      ensures Due(l, t.accepted, k) == Due(l, s.accepted, k)
      ensures Free(l, t.accepted, k) == Free(l, s.accepted, k)
    {
      StartOfPrefix(l, s.accepted, [Arrival(s.now, p)], k);
    }
  }

  /** Whether the frame is accepted depends on the queue alone, and a refusal changes nothing. */
  lemma SendKeeps(l: Link, s: State, p: Frame)
    requires Inv(l, s)
    ensures SendFrom(l, s, p).Ok?
    ensures var (t, accepted) := SendFrom(l, s, p).value;
            && Inv(l, t)
            && (accepted <==> |s.queue| < l.capacity)
            && t.accepted == (if accepted then s.accepted + [Arrival(s.now, p)] else s.accepted)
            && t.received == s.received
  {
    if |s.queue| < l.capacity {
      QueuedKeeps(l, s, p);
      if s.mode == Ready {
        StartKeeps(l, Queued(s, p));
      }
    }
  }

  /** A completion frees the transmitter at the moment the recursion says the next may start. */
  lemma CompleteKeeps(l: Link, s: State)
    requires Inv(l, s) && s.mode == Busy && s.completions == [s.now]
    ensures TransmitComplete(l, s.(completions := [])).Ok?
    ensures var t := TransmitComplete(l, s.(completions := [])).value;
            Inv(l, t) && t.accepted == s.accepted && t.received == s.received
  {
    if s.queue != [] {
      assert s.queue[0] == s.accepted[|s.starts|].frame;
      StartKeeps(l, s.(completions := [], mode := Ready, current := None));
    }
  }

  /** Letting time pass up to the next event keeps the invariant. */
  lemma WaitKeeps(l: Link, s: State, t: Time)
    requires Inv(l, s) && s.now <= t
    requires (forall j | 0 <= j < |s.completions| :: t <= s.completions[j])
    requires (forall j | 0 <= j < |s.flights| :: t <= s.flights[j].time)
    ensures Inv(l, s.(now := t))
  {
    if s.mode == Busy {
      assert t <= s.completions[0];
    }
  }

  /** The reception that is due is always the one scheduled first. */
  lemma FirstIsDue(l: Link, s: State, i: nat)
    requires Inv(l, s) && Enabled(s, Deliver(i))
    ensures i == 0
  {
    var all := s.received + s.flights;
    var r := |s.received|;
    assert all[r] == s.flights[0] && all[r + i] == s.flights[i];
    DueIsMonotone(l, s.accepted, r, r + i);
    assert s.flights[0].time <= s.flights[i].time;
  }

  /** No step trips an assertion, and each keeps the invariant. */
  lemma StepKeeps(l: Link, s: State, st: Step)
    requires Inv(l, s) && Enabled(s, st)
    ensures Next(l, s, st).Ok? && Inv(l, Next(l, s, st).value)
  {
    var s1 := s.(now := TimeOf(s, st));
    WaitKeeps(l, s, TimeOf(s, st));
    match st
    case Send(_, p) =>
      SendKeeps(l, s1, p);
    case Complete(i) =>
      assert s.completions == [s.completions[0]] && i == 0;
      assert Without(s.completions, 0) == [];
      CompleteKeeps(l, s1);
    case Deliver(i) =>
      FirstIsDue(l, s, i);
      var t := Next(l, s, st).value;
      assert t.received + t.flights == s.received + s.flights;
  }

  // ---- Every run --------------------------------------------------------------------------------------------

  ghost predicate Leads(l: Link, s: State, steps: seq<Step>, t: State)
    decreases |steps|
  {
    if steps == [] then s == t
    else Enabled(s, steps[0]) && Next(l, s, steps[0]).Ok? && Leads(l, Next(l, s, steps[0]).value, steps[1..], t)
  }

  ghost predicate Reachable(l: Link, s: State) {
    exists steps :: Leads(l, INITIAL, steps, s)
  }

  lemma {:induction false} LeadsKeepsInv(l: Link, s: State, steps: seq<Step>, t: State)
    requires Inv(l, s) && Leads(l, s, steps, t)
    ensures Inv(l, t)
    decreases |steps|
  {
    if steps != [] {
      StepKeeps(l, s, steps[0]);
      LeadsKeepsInv(l, Next(l, s, steps[0]).value, steps[1..], t);
    }
  }

  lemma ReachableInv(l: Link, s: State)
    requires Reachable(l, s)
    ensures Inv(l, s)
  {
    var steps :| Leads(l, INITIAL, steps, s);
    InitialInv(l);
    LeadsKeepsInv(l, INITIAL, steps, s);
  }

  lemma NoAssertionFails(l: Link, s: State, st: Step)
    requires Reachable(l, s) && Enabled(s, st)
    ensures Next(l, s, st).Ok?
  {
    ReachableInv(l, s);
    StepKeeps(l, s, st);
  }

  /**
   The device is READY exactly when no completion is pending and no frame is current, and then nothing
   waits; it never has two completions pending.
   */
  lemma ReadyIffIdle(l: Link, s: State)
    requires Reachable(l, s)
    ensures s.mode == Ready <==> s.completions == []
    ensures s.mode == Ready <==> s.current.None?
    ensures s.mode == Ready ==> s.queue == []
    ensures |s.completions| <= 1
  {
    ReachableInv(l, s);
  }

  /** The frame started as the `k`-th is the `k`-th accepted, and it starts when the recursion says. */
  lemma RefinesRecursion(l: Link, s: State, k: nat)
    requires Reachable(l, s) && k < |s.starts|
    ensures k < |s.accepted| && s.starts[k] == Start(l, s.accepted, k)
    ensures k < |s.received| ==>
              s.received[k] == Flight(s.starts[k] + l.txTime(s.accepted[k].frame.size) + l.delay, s.accepted[k].frame)
  {
    ReachableInv(l, s);
    if k < |s.received| {
      assert (s.received + s.flights)[k] == s.received[k];
    }
  }

  lemma {:induction false} StartIsMonotone(l: Link, arrivals: seq<Arrival>, i: nat, j: nat)
    requires i <= j < |arrivals|
    ensures Start(l, arrivals, i) <= Start(l, arrivals, j)
  {
    if i < j {
      StartIsMonotone(l, arrivals, i, j - 1);
    }
  }

  /** A frame that still waits may not start before the transmitter is free. */
  lemma WaitingStartsLater(l: Link, s: State, k: nat)
    requires Inv(l, s) && |s.starts| <= k < |s.accepted|
    ensures s.now <= Start(l, s.accepted, k)
  {
    var n := |s.starts|;
    assert s.queue != [] && s.mode == Busy && s.now <= Free(l, s.accepted, n - 1);
    StartIsMonotone(l, s.accepted, n, k);
  }

  /** Nothing is late: once the time the recursion gives has passed, the frame has started. */
  lemma StartedInTime(l: Link, s: State, k: nat)
    requires Reachable(l, s) && k < |s.accepted| && Start(l, s.accepted, k) < s.now
    ensures k < |s.starts|
  {
    ReachableInv(l, s);
    if k >= |s.starts| {
      WaitingStartsLater(l, s, k);
    }
  }

  /** A pending reception is that of its frame, and not yet over. */
  lemma PendingIsDue(l: Link, s: State, k: nat)
    requires Inv(l, s) && |s.received| <= k < |s.starts|
    ensures s.now <= Due(l, s.accepted, k).time
  {
    var j := k - |s.received|;
    assert (s.received + s.flights)[k] == s.flights[j];
    assert s.now <= s.flights[j].time;
  }

  /** And once the time it is due at the other end has passed, it has been received. */
  lemma ReceivedInTime(l: Link, s: State, k: nat)
    requires Reachable(l, s) && k < |s.accepted| && Due(l, s.accepted, k).time < s.now
    ensures k < |s.received|
  {
    ReachableInv(l, s);
    StartedInTime(l, s, k);
    if k >= |s.received| {
      PendingIsDue(l, s, k);
    }
  }

  function FramesOf(fs: seq<Flight>): (r: seq<Frame>)
    ensures |r| == |fs|
  {
    seq(|fs|, i requires 0 <= i < |fs| => fs[i].frame)
  }

  function FramesIn(arrivals: seq<Arrival>): (r: seq<Frame>)
    ensures |r| == |arrivals|
  {
    seq(|arrivals|, i requires 0 <= i < |arrivals| => arrivals[i].frame)
  }

  /** No accepted frame is lost, doubled or overtaken: received, then in flight, then queued. */
  lemma FramesConserved(l: Link, s: State)
    requires Reachable(l, s)
    ensures FramesIn(s.accepted) == FramesOf(s.received) + FramesOf(s.flights) + s.queue
  {
    ReachableInv(l, s);
    var all := s.received + s.flights;
    forall k | 0 <= k < |s.accepted|
      ensures FramesIn(s.accepted)[k] == (FramesOf(s.received) + FramesOf(s.flights) + s.queue)[k]
    {
      if k < |s.starts| {
        assert all[k] == Due(l, s.accepted, k);
      } else {
        assert s.queue[k - |s.starts|] == s.accepted[k].frame;
      }
    }
  }
}
