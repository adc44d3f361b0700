/**
 The timers of OnOffApplication and the bits it carries over from one "on" period to the next.  Time is
 exact; the rate is constant.
 */
module OnOffSpec {
  import opened Words
  import SeqTsSizeHeader

  const HEADER_SIZE := SeqTsSizeHeader.HEADER_SIZE

  datatype Config = Config(rate: nat, pktSize: uint32, maxBytes: uint64, withHeader: bool) {
    predicate Valid() {
      0 < rate && 0 < pktSize && 8 * pktSize < TWO_32
    }

    function PacketBits(): nat {
      8 * pktSize
    }

    predicate HeaderFits() {
      withHeader ==> pktSize >= HEADER_SIZE
    }
  }

  datatype Turn = StartSending | StopSending

  /**
   The fields, with each event handle as the time its event is due; `unsent` says that a packet is cached
   for a later attempt.  The last six are history: firings of SendPacket, packets the socket has taken,
   cached packets thrown away, "on" periods cut short with a packet pending, the time that has passed
   while a packet was pending, and whether StopApplication has run.
   */
  datatype App = App(
    now: real,
    residualBits: nat,
    lastStartTime: real,
    totBytes: nat,
    unsent: bool,
    seqNum: uint32,
    sendEvent: Option<real>,
    startStopEvent: Option<(real, Turn)>,
    fired: nat,
    taken: nat,
    discards: nat,
    cuts: nat,
    onTime: real,
    closed: bool)

  /** Bits generated at the configured rate in this time. */
  function Bits(cfg: Config, d: real): real {
    d * cfg.rate as real
  }

  function CancelEvents(cfg: Config, a: App): App {
    var a1 :=
      if a.sendEvent.Some? then
        var whole := Bits(cfg, a.now - a.lastStartTime).Floor;
        a.(residualBits := if whole < 0 then a.residualBits else a.residualBits + whole, cuts := a.cuts + 1)
      else a;
    a1.(sendEvent := None, startStopEvent := None,
        unsent := false, discards := if a.unsent then a.discards + 1 else a.discards)
  }

  function StopApplication(cfg: Config, a: App): App {
    CancelEvents(cfg, a).(closed := true)
  }

  function ScheduleNextTx(cfg: Config, a: App): Result<App>
    requires cfg.Valid()
  {
    if cfg.maxBytes == 0 || a.totBytes < cfg.maxBytes then
      if a.residualBits > cfg.PacketBits() then Fatal("Calculation to compute next send time will overflow")
      else
        var bits := cfg.PacketBits() - a.residualBits;
        Ok(a.(sendEvent := Some(a.now + bits as real / cfg.rate as real)))
    else Ok(StopApplication(cfg, a))
  }

  function ConnectionSucceeded(a: App, offInterval: real): App {
    a.(startStopEvent := Some((a.now + offInterval, StartSending)))
  }

  function StartSendingNow(cfg: Config, a: App, onInterval: real): Result<App>
    requires cfg.Valid()
  {
    var a1 :- ScheduleNextTx(cfg, a.(lastStartTime := a.now));
    Ok(a1.(startStopEvent := Some((a1.now + onInterval, StopSending))))
  }

  function StopSendingNow(cfg: Config, a: App, offInterval: real): App {
    var a1 := CancelEvents(cfg, a);
    a1.(startStopEvent := Some((a1.now + offInterval, StartSending)))
  }

  /** The packet to try: the cached one, or a new one that takes the next number if it carries a header. */
  function NextPacket(cfg: Config, a: App): Result<App> {
    if a.unsent || !cfg.withHeader then Ok(a)
    else if cfg.pktSize < HEADER_SIZE then Fatal("m_pktSize < header.GetSerializedSize()")
    else Ok(a.(seqNum := (a.seqNum + 1) % TWO_32))
  }

  /** The socket has taken the whole packet, or has not, and then the packet is cached. */
  function AfterSend(cfg: Config, a: App, accepted: bool): App {
    a.(totBytes := if accepted then a.totBytes + cfg.pktSize else a.totBytes,
       taken := if accepted then a.taken + 1 else a.taken,
       unsent := !accepted)
  }

  function TryPacket(cfg: Config, a: App, accepted: bool): Result<App> {
    var a1 :- NextPacket(cfg, a);
    Ok(AfterSend(cfg, a1, accepted))
  }

  /** The bits start anew with each attempt, whatever came of it. */
  function Restart(a: App): App {
    a.(residualBits := 0, lastStartTime := a.now, fired := a.fired + 1)
  }

  function SendPacket(cfg: Config, a: App, accepted: bool): Result<App>
    requires cfg.Valid()
  {
    if a.sendEvent.Some? then Fatal("m_sendEvent.IsExpired ()")
    else
      var a1 :- TryPacket(cfg, a, accepted);
      ScheduleNextTx(cfg, Restart(a1))
  }

  /** What the abort and the assertion refuse. */
  lemma AbortsRefuse(cfg: Config, a: App, accepted: bool)
    requires cfg.Valid()
    ensures ScheduleNextTx(cfg, a).Fatal?
       <==> (cfg.maxBytes == 0 || a.totBytes < cfg.maxBytes) && a.residualBits > 8 * cfg.pktSize
    ensures SendPacket(cfg, a, accepted).Fatal?
       <==> a.sendEvent.Some? || (!a.unsent && cfg.withHeader && cfg.pktSize < HEADER_SIZE)
  {
  }

  // ---- Runs -------------------------------------------------------------------------------------------

  /** Time may pass, and the application be stopped from outside, at any moment before the next event. */
  datatype Step = Turns(interval: real) | Sends(accepted: bool) | Waits(time: real) | Stops(time: real)

  /** No event is passed over. */
  predicate NotPast(a: App, time: real) {
    && a.now <= time
    && (a.sendEvent.Some? ==> time <= a.sendEvent.value)
    && (a.startStopEvent.Some? ==> time <= a.startStopEvent.value.0)
  }

  /** An event fires when none is due before it; intervals are not negative. */
  predicate Enabled(a: App, st: Step) {
    match st
    case Turns(interval) => interval >= 0.0 && a.startStopEvent.Some? && NotPast(a, a.startStopEvent.value.0)
    case Sends(_) => a.sendEvent.Some? && NotPast(a, a.sendEvent.value)
    case Waits(time) => NotPast(a, time)
    case Stops(time) => NotPast(a, time)
  }

  /** The clock moves on; the time counts as time spent sending while a packet is pending. */
  function Advance(a: App, time: real): App {
    a.(now := time, onTime := if a.sendEvent.Some? then a.onTime + (time - a.now) else a.onTime)
  }

  function Next(cfg: Config, a: App, st: Step): Result<App>
    requires cfg.Valid() && Enabled(a, st)
  {
    match st
    case Turns(interval) =>
      var (time, turn) := a.startStopEvent.value;
      var a1 := Advance(a, time).(startStopEvent := None);
      if turn == StartSending then StartSendingNow(cfg, a1, interval)
      else Ok(StopSendingNow(cfg, a1, interval))
    case Sends(accepted) => SendPacket(cfg, Advance(a, a.sendEvent.value).(sendEvent := None), accepted)
    case Waits(time) => Ok(Advance(a, time))
    case Stops(time) => Ok(StopApplication(cfg, Advance(a, time)))
  }

  // ---- The bits add up -----------------------------------------------------------------------------------

  /** The time since the program's clock for the pending packet was started. */
  function SinceStart(a: App): real {
    if a.sendEvent.Some? then a.now - a.lastStartTime else 0.0
  }

  /** What the rate has generated and is not sent, kept or on its way to the next packet: lost in cuts. */
  function LostBits(cfg: Config, a: App): real {
    Bits(cfg, a.onTime) - Bits(cfg, SinceStart(a)) - (a.fired * cfg.PacketBits() + a.residualBits) as real
  }

  predicate Balanced(cfg: Config, a: App) {
    && 0.0 <= LostBits(cfg, a) <= a.cuts as real
    && (a.cuts > 0 ==> LostBits(cfg, a) < a.cuts as real)
  }

  /** The packet pending is due when the missing bits will have been generated. */
  predicate DueWhenFull(cfg: Config, a: App) {
    a.sendEvent.Some? ==>
      && a.lastStartTime <= a.now <= a.sendEvent.value
      && Bits(cfg, a.sendEvent.value - a.lastStartTime) == (cfg.PacketBits() - a.residualBits) as real
  }

  /** The packets made: taken, thrown away, or cached. */
  function Made(a: App): nat {
    a.taken + a.discards + if a.unsent then 1 else 0
  }

  /** The bytes of `n` packets. */
  function Total(n: nat, size: nat): nat {
    if n == 0 then 0 else Total(n - 1, size) + size
  }

  lemma {:induction false} TotalIsProduct(n: nat, size: nat)
    ensures Total(n, size) == n * size
  {
    if n > 0 {
      TotalIsProduct(n - 1, size);
      assert (n - 1) * size + size == n * size;
    }
  }

  /** The number of the next packet, after `n`. */
  function Number(n: nat): uint32 {
    n % TWO_32
  }

  lemma NextNumber(n: nat)
    ensures Number(n + 1) == (Number(n) + 1) % TWO_32
  {
  }

  predicate Numbered(cfg: Config, a: App) {
    a.totBytes == Total(a.taken, cfg.pktSize) && (cfg.withHeader ==> a.seqNum == Number(Made(a)))
  }

  predicate WithinLimit(cfg: Config, a: App) {
    && (cfg.maxBytes > 0 ==> a.totBytes < cfg.maxBytes + cfg.pktSize)
    && (a.sendEvent.Some? && cfg.maxBytes > 0 ==> a.totBytes < cfg.maxBytes)
  }

  predicate Inv(cfg: Config, a: App) {
    && cfg.Valid()
    && a.residualBits <= cfg.PacketBits()
    && Balanced(cfg, a)
    && DueWhenFull(cfg, a)
    && (a.startStopEvent.Some? ==>
          && a.now <= a.startStopEvent.value.0
          && (a.startStopEvent.value.1 == StartSending ==> a.sendEvent.None?))
    && WithinLimit(cfg, a)
    && Numbered(cfg, a)
    && (!cfg.HeaderFits() ==> !a.unsent)
  }

  const INITIAL := App(0.0, 0, 0.0, 0, false, 0, None, None, 0, 0, 0, 0, 0.0, false)

  lemma InitialInv(cfg: Config, offInterval: real)
    requires cfg.Valid() && offInterval >= 0.0
    ensures Inv(cfg, ConnectionSucceeded(INITIAL, offInterval))
  {
  }

  lemma DivideAndMultiply(bits: real, rate: real)
    requires rate > 0.0
    ensures bits / rate * rate == bits
    ensures bits >= 0.0 ==> bits / rate >= 0.0
  {
  }

  lemma BitsAdd(cfg: Config, d: real, e: real)
    ensures Bits(cfg, d + e) == Bits(cfg, d) + Bits(cfg, e)
    ensures cfg.rate > 0 && d <= e ==> Bits(cfg, d) <= Bits(cfg, e)
    ensures d >= 0.0 ==> Bits(cfg, d) >= 0.0
  {
    var r := cfg.rate as real;
    assert (d + e) * r == d * r + e * r;
    if d <= e {
      assert (e - d) * r >= 0.0;
    }
  }

  /** No packet is pending, and its clock has just been started. */
  predicate CanSchedule(cfg: Config, a: App) {
    && cfg.Valid() && a.residualBits <= cfg.PacketBits() && Balanced(cfg, a)
    && a.sendEvent.None? && a.lastStartTime == a.now
    && (a.startStopEvent.Some? ==> a.now <= a.startStopEvent.value.0 && a.startStopEvent.value.1 == StopSending)
    && (cfg.maxBytes > 0 ==> a.totBytes < cfg.maxBytes + cfg.pktSize)
    && Numbered(cfg, a) && (!cfg.HeaderFits() ==> !a.unsent)
  }

  /** The next packet is scheduled for when exactly the missing bits will have been generated. */
  lemma ScheduleKeeps(cfg: Config, a: App)
    requires CanSchedule(cfg, a)
    ensures ScheduleNextTx(cfg, a).Ok? && Inv(cfg, ScheduleNextTx(cfg, a).value)
    ensures ScheduleNextTx(cfg, a).value.now == a.now
  {
    var bits := (cfg.PacketBits() - a.residualBits) as real;
    DivideAndMultiply(bits, cfg.rate as real);
    if cfg.maxBytes == 0 || a.totBytes < cfg.maxBytes {
      var due := a.now + bits / cfg.rate as real;
      assert due - a.now == bits / cfg.rate as real;
    }
  }

  /** A packet that is scheduled is due as soon as the rate will have generated the bits it still needs. */
  lemma ScheduledWhenFull(cfg: Config, a: App)
    requires cfg.Valid() && (cfg.maxBytes == 0 || a.totBytes < cfg.maxBytes) && a.residualBits <= 8 * cfg.pktSize
    ensures var r := ScheduleNextTx(cfg, a);
            && r.Ok? && r.value.sendEvent.Some?
            && (r.value.sendEvent.value - a.now) * cfg.rate as real == (8 * cfg.pktSize - a.residualBits) as real
  {
    var bits := (8 * cfg.pktSize - a.residualBits) as real;
    DivideAndMultiply(bits, cfg.rate as real);
    assert a.now + bits / cfg.rate as real - a.now == bits / cfg.rate as real;
  }

  /** Letting time pass keeps the invariant: what is generated is on its way to the pending packet. */
  lemma AdvanceKeeps(cfg: Config, a: App, time: real)
    requires Inv(cfg, a) && NotPast(a, time)
    ensures Inv(cfg, Advance(a, time))
  {
    if a.sendEvent.Some? {
      var d := time - a.now;
      BitsAdd(cfg, a.onTime, d);
      BitsAdd(cfg, SinceStart(a), d);
      assert LostBits(cfg, Advance(a, time)) == LostBits(cfg, a);
    }
  }

  /** A packet takes exactly the bits generated since the last one and those carried over. */
  lemma PacketTakesBits(cfg: Config, generated: real, since: real, fired: nat, residual: nat)
    requires residual <= cfg.PacketBits() && since == (cfg.PacketBits() - residual) as real
    ensures generated - ((fired + 1) * cfg.PacketBits()) as real
         == generated - since - (fired * cfg.PacketBits() + residual) as real
  {
    assert (fired + 1) * cfg.PacketBits() == fired * cfg.PacketBits() + cfg.PacketBits();
  }

  lemma TryKeepsNumbers(cfg: Config, a: App, accepted: bool)
    requires Numbered(cfg, a) && cfg.HeaderFits()
    ensures TryPacket(cfg, a, accepted).Ok?
    ensures var b := TryPacket(cfg, a, accepted).value;
            && Numbered(cfg, b) && b.totBytes <= a.totBytes + cfg.pktSize
            && b == a.(totBytes := b.totBytes, taken := b.taken, unsent := b.unsent, seqNum := b.seqNum)
  {
    NextNumber(Made(a));
    assert Total(a.taken + 1, cfg.pktSize) == Total(a.taken, cfg.pktSize) + cfg.pktSize;
  }

  /** When the pending packet is due, its attempt uses up the bits that were on their way to it. */
  lemma RestartKeepsBits(cfg: Config, a: App, b: App)
    requires Inv(cfg, a) && a.sendEvent == Some(a.now)
    requires b.onTime == a.onTime && b.cuts == a.cuts && b.fired == a.fired && b.sendEvent.None?
    ensures Balanced(cfg, Restart(b))
  {
    PacketTakesBits(cfg, Bits(cfg, a.onTime), Bits(cfg, SinceStart(a)), a.fired, a.residualBits);
    assert Bits(cfg, 0.0) == 0.0;
    assert LostBits(cfg, Restart(b)) == LostBits(cfg, a);
  }

  lemma SendKeeps(cfg: Config, a: App, accepted: bool)
    requires Inv(cfg, a) && Enabled(a, Sends(accepted)) && cfg.HeaderFits()
    ensures Next(cfg, a, Sends(accepted)).Ok? && Inv(cfg, Next(cfg, a, Sends(accepted)).value)
  {
    AdvanceKeeps(cfg, a, a.sendEvent.value);
    var b := Advance(a, a.sendEvent.value);
    TryKeepsNumbers(cfg, b.(sendEvent := None), accepted);
    var c := TryPacket(cfg, b.(sendEvent := None), accepted).value;
    RestartKeepsBits(cfg, b, c);
    ScheduleKeeps(cfg, Restart(c));
  }

  /** A cut keeps the whole bits generated so far; what it loses is less than one. */
  lemma CancelKeeps(cfg: Config, a: App)
    requires Inv(cfg, a)
    ensures var b := CancelEvents(cfg, a);
            && Inv(cfg, b) && b.sendEvent.None? && b.startStopEvent.None? && b.now == a.now
            && (a.sendEvent.Some? ==> b.cuts == a.cuts + 1 && LostBits(cfg, b) < LostBits(cfg, a) + 1.0)
  {
    if a.sendEvent.Some? {
      var d := a.now - a.lastStartTime;
      BitsAdd(cfg, d, a.sendEvent.value - a.lastStartTime);
      var whole := Bits(cfg, d).Floor;
      assert 0 <= whole && whole as real <= Bits(cfg, d) < whole as real + 1.0;
      assert whole <= cfg.PacketBits() - a.residualBits;
      var b := CancelEvents(cfg, a);
      assert LostBits(cfg, b) == LostBits(cfg, a) + (Bits(cfg, d) - whole as real);
    }
  }

  lemma TurnKeeps(cfg: Config, a: App, interval: real)
    requires Inv(cfg, a) && Enabled(a, Turns(interval))
    ensures Next(cfg, a, Turns(interval)).Ok? && Inv(cfg, Next(cfg, a, Turns(interval)).value)
  {
    var (time, turn) := a.startStopEvent.value;
    AdvanceKeeps(cfg, a, time);
    var a1 := Advance(a, time).(startStopEvent := None);
    if turn == StartSending {
      StartKeeps(cfg, a1, interval);
    } else {
      CancelKeeps(cfg, a1);
    }
  }

  lemma StartKeeps(cfg: Config, a: App, interval: real)
    requires Inv(cfg, a) && a.sendEvent.None? && a.startStopEvent.None? && interval >= 0.0
    ensures var r := StartSendingNow(cfg, a, interval); r.Ok? && Inv(cfg, r.value)
  {
    var b := a.(lastStartTime := a.now);
    assert SinceStart(b) == SinceStart(a);
    ScheduleKeeps(cfg, b);
    StopEventKeeps(cfg, ScheduleNextTx(cfg, b).value, a.now + interval);
  }

  lemma StopEventKeeps(cfg: Config, a: App, time: real)
    requires Inv(cfg, a) && a.now <= time
    ensures Inv(cfg, a.(startStopEvent := Some((time, StopSending))))
  {
    var b := a.(startStopEvent := Some((time, StopSending)));
    assert LostBits(cfg, b) == LostBits(cfg, a);
  }

  ghost predicate Leads(cfg: Config, a: App, steps: seq<Step>, b: App)
    requires cfg.Valid()
    decreases |steps|
  {
    if steps == [] then a == b
    else
      && Enabled(a, steps[0]) && Next(cfg, a, steps[0]).Ok?
      && Leads(cfg, Next(cfg, a, steps[0]).value, steps[1..], b)
  }

  /** A step aborts exactly when it is to make a packet that has no room for its header. */
  lemma StepKeeps(cfg: Config, a: App, st: Step)
    requires Inv(cfg, a) && Enabled(a, st)
    ensures Next(cfg, a, st).Ok? <==> !(st.Sends? && !cfg.HeaderFits())
    ensures Next(cfg, a, st).Ok? ==> Inv(cfg, Next(cfg, a, st).value)
  {
    match st
    case Turns(interval) => TurnKeeps(cfg, a, interval);
    case Sends(accepted) => if cfg.HeaderFits() { SendKeeps(cfg, a, accepted); }
    case Waits(time) => AdvanceKeeps(cfg, a, time);
    case Stops(time) =>
      AdvanceKeeps(cfg, a, time);
      CancelKeeps(cfg, Advance(a, time));
  }

  lemma {:induction false} LeadsKeepsInv(cfg: Config, a: App, steps: seq<Step>, b: App)
    requires Inv(cfg, a) && Leads(cfg, a, steps, b)
    ensures Inv(cfg, b)
    decreases |steps|
  {
    if steps != [] {
      StepKeeps(cfg, a, steps[0]);
      LeadsKeepsInv(cfg, Next(cfg, a, steps[0]).value, steps[1..], b);
    }
  }

  ghost predicate Reachable(cfg: Config, a: App)
    requires cfg.Valid()
  {
    exists off, steps :: off >= 0.0 && Leads(cfg, ConnectionSucceeded(INITIAL, off), steps, a)
  }

  lemma ReachableInv(cfg: Config, a: App)
    requires cfg.Valid() && Reachable(cfg, a)
    ensures Inv(cfg, a)
  {
    var off, steps :| off >= 0.0 && Leads(cfg, ConnectionSucceeded(INITIAL, off), steps, a);
    InitialInv(cfg, off);
    LeadsKeepsInv(cfg, ConnectionSucceeded(INITIAL, off), steps, a);
  }

  /**
   The overflow abort and the expiry assertion never fire; the abort for the header fires exactly when a
   packet is due and the attributes leave no room for one.
   */
  lemma AbortsIffHeaderDoesNotFit(cfg: Config, a: App, st: Step)
    requires cfg.Valid() && Reachable(cfg, a) && Enabled(a, st)
    ensures Next(cfg, a, st).Fatal? <==> st.Sends? && !cfg.HeaderFits()
  {
    ReachableInv(cfg, a);
    StepKeeps(cfg, a, st);
  }

  /**
   The rate holds at every moment of every run.  Of the bits generated while a packet was pending, those
   spent on packets, carried over and generated since the last packet make up all but less than one for each
   period cut short, and all when none was.
   */
  lemma RateHolds(cfg: Config, a: App)
    requires cfg.Valid() && Reachable(cfg, a)
    ensures var spent := (a.fired * (8 * cfg.pktSize) + a.residualBits) as real + SinceStart(a) * cfg.rate as real;
            var generated := a.onTime * cfg.rate as real;
            && spent <= generated
            && (a.cuts == 0 ==> generated == spent)
            && (a.cuts > 0 ==> generated < spent + a.cuts as real)
    ensures a.residualBits <= 8 * cfg.pktSize
    ensures cfg.maxBytes > 0 ==> a.totBytes < cfg.maxBytes + cfg.pktSize
  {
    ReachableInv(cfg, a);
  }

  /** Packet numbers skip exactly the cached packets that a cut has thrown away. */
  lemma NumbersSkipDiscards(cfg: Config, a: App)
    requires cfg.Valid() && Reachable(cfg, a) && cfg.withHeader
    ensures a.totBytes == a.taken * cfg.pktSize
    ensures a.seqNum == (a.taken + a.discards + if a.unsent then 1 else 0) % TWO_32
  {
    ReachableInv(cfg, a);
    TotalIsProduct(a.taken, cfg.pktSize);
  }

  // ---- What a run has done, told from its steps ---------------------------------------------------------------

  /** The packets that the socket has taken. */
  function TakenIn(steps: seq<Step>): nat {
    if steps == [] then 0 else (if steps[0] == Sends(true) then 1 else 0) + TakenIn(steps[1..])
  }

  function AttemptsIn(steps: seq<Step>): nat {
    if steps == [] then 0 else (if steps[0].Sends? then 1 else 0) + AttemptsIn(steps[1..])
  }

  lemma StepCounts(cfg: Config, a: App, st: Step)
    requires cfg.Valid() && Enabled(a, st) && Next(cfg, a, st).Ok?
    ensures var b := Next(cfg, a, st).value;
            && b.totBytes == a.totBytes + (if st == Sends(true) then cfg.pktSize else 0)
            && b.fired == a.fired + (if st.Sends? then 1 else 0)
  {
  }

  /** The bytes counted are those of the packets the socket took, and no others. */
  lemma {:induction false} CountsWhatWasTaken(cfg: Config, a: App, steps: seq<Step>, b: App)
    requires cfg.Valid() && Leads(cfg, a, steps, b)
    ensures b.totBytes == a.totBytes + cfg.pktSize * TakenIn(steps)
    ensures b.fired == a.fired + AttemptsIn(steps)
    decreases |steps|
  {
    if steps != [] {
      StepCounts(cfg, a, steps[0]);
      CountsWhatWasTaken(cfg, Next(cfg, a, steps[0]).value, steps[1..], b);
      MulOneMore(cfg.pktSize, TakenIn(steps[1..]));
    }
  }

  lemma MulOneMore(size: nat, n: nat)
    ensures size * (1 + n) == size + size * n
  {
  }

  /** No packet is due: the period has ended, or none has begun. */
  predicate Over(b: App) {
    b.sendEvent.None?
  }

  /** The verdict that the run leaves standing: that of the last attempt, unless the period has ended since. */
  function Refused(cfg: Config, a: App, steps: seq<Step>, was: bool): bool
    requires cfg.Valid()
    decreases |steps|
  {
    if steps == [] then was
    else if !Enabled(a, steps[0]) || Next(cfg, a, steps[0]).Fatal? then was
    else
      var b := Next(cfg, a, steps[0]).value;
      Refused(cfg, b, steps[1..], !Over(b) && if steps[0].Sends? then steps[0] == Sends(false) else was)
  }

  /** Between periods nothing is cached. */
  lemma StepCaches(cfg: Config, a: App, st: Step)
    requires cfg.Valid() && Enabled(a, st) && Next(cfg, a, st).Ok? && (Over(a) ==> !a.unsent)
    ensures var b := Next(cfg, a, st).value;
            && b.unsent == (!Over(b) && if st.Sends? then st == Sends(false) else a.unsent)
            && (Over(b) ==> !b.unsent)
  {
  }

  /** A packet is cached exactly when the last attempt of a period that still goes on was refused. */
  lemma {:induction false} CachesWhatWasRefused(cfg: Config, a: App, steps: seq<Step>, b: App)
    requires cfg.Valid() && Leads(cfg, a, steps, b) && (Over(a) ==> !a.unsent)
    ensures b.unsent == Refused(cfg, a, steps, a.unsent)
    decreases |steps|
  {
    if steps != [] {
      StepCaches(cfg, a, steps[0]);
      CachesWhatWasRefused(cfg, Next(cfg, a, steps[0]).value, steps[1..], b);
    }
  }

  predicate HasStop(steps: seq<Step>) {
    exists i :: 0 <= i < |steps| && steps[i].Stops?
  }

  predicate LimitReached(cfg: Config, a: App) {
    cfg.maxBytes > 0 && a.totBytes >= cfg.maxBytes
  }

  lemma StepCloses(cfg: Config, a: App, st: Step)
    requires cfg.Valid() && Enabled(a, st) && Next(cfg, a, st).Ok? && (LimitReached(cfg, a) ==> a.closed)
    ensures var b := Next(cfg, a, st).value;
            b.closed <==> a.closed || st.Stops? || LimitReached(cfg, b)
  {
  }

  /** The application closes exactly when it is stopped from outside or the limit has been reached. */
  lemma {:induction false} ClosesIff(cfg: Config, a: App, steps: seq<Step>, b: App)
    requires cfg.Valid() && Leads(cfg, a, steps, b) && (LimitReached(cfg, a) ==> a.closed)
    ensures b.closed <==> a.closed || HasStop(steps) || LimitReached(cfg, b)
    decreases |steps|
  {
    if steps != [] {
      var st, n := steps[0], Next(cfg, a, steps[0]).value;
      StepCloses(cfg, a, st);
      ClosesIff(cfg, n, steps[1..], b);
      CountsWhatWasTaken(cfg, n, steps[1..], b);
      HasStopCons(steps);
    }
  }

  lemma HasStopCons(steps: seq<Step>)
    requires steps != []
    ensures HasStop(steps) <==> steps[0].Stops? || HasStop(steps[1..])
  {
    if HasStop(steps[1..]) {
      var i :| 0 <= i < |steps[1..]| && steps[1..][i].Stops?;
      assert steps[i + 1].Stops?;
    }
  }

  /** The lengths of the periods begun, and their number. */
  function PeriodsIn(steps: seq<Step>): (d: (real, nat)) {
    if steps == [] then (0.0, 0)
    else
      var (sum, n) := PeriodsIn(steps[1..]);
      if steps[0].Turns? then (steps[0].interval + sum, n + 1) else (sum, n)
  }

  function Turned(turn: Turn, n: nat): Turn {
    if n % 2 == 0 then turn else if turn == StartSending then StopSending else StartSending
  }

  lemma StepTurns(cfg: Config, a: App, st: Step)
    requires cfg.Valid() && Enabled(a, st) && Next(cfg, a, st).Ok?
    ensures var b := Next(cfg, a, st).value;
            b.startStopEvent.Some? ==>
              && a.startStopEvent.Some?
              && (st.Turns? ==> b.startStopEvent.value == (a.startStopEvent.value.0 + st.interval,
                                                           Turned(a.startStopEvent.value.1, 1)))
              && (!st.Turns? ==> b.startStopEvent == a.startStopEvent)
  {
  }

  /** "On" and "off" periods take turns, each as long as was drawn for it. */
  lemma {:induction false} PeriodsAlternate(cfg: Config, a: App, steps: seq<Step>, b: App)
    requires cfg.Valid() && Leads(cfg, a, steps, b) && b.startStopEvent.Some?
    ensures a.startStopEvent.Some?
    ensures var (sum, n) := PeriodsIn(steps);
            b.startStopEvent.value == (a.startStopEvent.value.0 + sum, Turned(a.startStopEvent.value.1, n))
    decreases |steps|
  {
    if steps != [] {
      PeriodsAlternate(cfg, Next(cfg, a, steps[0]).value, steps[1..], b);
      StepTurns(cfg, a, steps[0]);
    }
  }

  /** The first period is "off": the next turn comes after all the intervals drawn since the connection. */
  lemma FirstPeriodIsOff(cfg: Config, off: real, steps: seq<Step>, b: App)
    requires cfg.Valid() && Leads(cfg, ConnectionSucceeded(INITIAL, off), steps, b) && b.startStopEvent.Some?
    ensures var (sum, n) := PeriodsIn(steps);
            b.startStopEvent.value == (off + sum, if n % 2 == 0 then StartSending else StopSending)
  {
    PeriodsAlternate(cfg, ConnectionSucceeded(INITIAL, off), steps, b);
  }
}
