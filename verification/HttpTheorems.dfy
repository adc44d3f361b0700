/** What holds in every state that any run of the composed HTTP system can reach. */
module HttpTheorems {
  import opened Words
  import opened HttpHeader
  import opened HttpEvents
  import opened HttpClientSpec
  import Server = HttpServerSpec
  import opened HttpSystem
  import opened HttpInvariant
  import opened HttpSafety

  ghost predicate Leads(s: Conn, steps: seq<Step>, t: Conn)
    decreases |steps|
  {
    if steps == [] then s == t
    else
      && Enabled(s, steps[0])
      && Next(s, steps[0]).Ok?
      && Leads(Next(s, steps[0]).value, steps[1..], t)
  }

  ghost predicate Reachable(s: Conn) {
    exists log, steps :: Leads(Initial(log), steps, s)
  }

  lemma {:induction false} LeadsKeepsInv(s: Conn, steps: seq<Step>, t: Conn)
    requires Inv(s) && Leads(s, steps, t)
    ensures Inv(t)
    decreases |steps|
  {
    if steps != [] {
      StepSafe(s, steps[0]);
      LeadsKeepsInv(Next(s, steps[0]).value, steps[1..], t);
    }
  }

  lemma ReachableInv(s: Conn)
    requires Reachable(s)
    ensures Inv(s)
  {
    var log, steps :| Leads(Initial(log), steps, s);
    InitialInv(log);
    LeadsKeepsInv(Initial(log), steps, s);
  }

  /**
   In any run, a step of either program reaches a fatal error or a failed assertion exactly when it is a
   transmission opportunity that drains a closing entry, and the program is built with log messages.
   */
  lemma FatalIffErasedLookedUp(s: Conn, st: Step)
    requires Reachable(s) && Enabled(s, st)
    ensures Next(s, st).Fatal? <==> LooksUpErased(s, st)
  {
    ReachableInv(s);
    StepSafe(s, st);
  }

  lemma {:induction false} LeadsOn(s: Conn, steps: seq<Step>, t: Conn, st: Step, u: Conn)
    requires Leads(s, steps, t) && Enabled(t, st) && Next(t, st) == Ok(u)
    ensures Leads(s, steps + [st], u)
    decreases |steps|
  {
    if steps == [] {
      assert [st][1..] == [] && [] + [st] == [st];
    } else {
      assert (steps + [st])[1..] == steps[1..] + [st];
      LeadsOn(Next(s, steps[0]).value, steps[1..], t, st, u);
    }
  }

  /** One more step of a run from the start. */
  lemma ReachOn(log: Server.Logging, steps: seq<Step>, s: Conn, st: Step) returns (more: seq<Step>, t: Conn)
    requires Leads(Initial(log), steps, s) && Inv(s) && Enabled(s, st) && !LooksUpErased(s, st)
    ensures Next(s, st) == Ok(t) && Leads(Initial(log), more, t) && Inv(t)
  {
    StepSafe(s, st);
    t := Next(s, st).value;
    LeadsOn(Initial(log), steps, s, st, t);
    more := steps + [st];
  }

  /** The connection is open on both sides, and the first request is about to be made. */
  lemma ReachOpen(log: Server.Logging) returns (steps: seq<Step>, s: Conn)
    ensures Leads(Initial(log), steps, s) && Inv(s) && s.log == log
    ensures s.srv == Some(Server.EMPTY_BUFFER) && s.up == [] && Holds(s, s.c.evMain, RequestMain)
    ensures s.c.state.Connecting? && s.hist.stage.Idle? && IsOpen(s)
  {
    InitialInv(log);
    steps, s := [], Initial(log);
    steps, s := ReachOn(log, steps, s, ClientStart);
    steps, s := ReachOn(log, steps, s, ServerAccept);
    steps, s := ReachOn(log, steps, s, ClientConnected);
  }

  /** The server has received that request. */
  lemma ReachHeard(log: Server.Logging) returns (steps: seq<Step>, s: Conn)
    ensures Leads(Initial(log), steps, s) && Inv(s) && s.log == log && s.hist.stage.Generating?
  {
    steps, s := ReachOpen(log);
    var st := ClientFires(s.c.evMain, 0, 0, true, 0);
    var s0 := s;
    AcceptedEffect(s0, st, RequestMain);
    steps, s := ReachOn(log, steps, s, st);
    HeardEffect(s);
    steps, s := ReachOn(log, steps, s, ServerRecv);
  }

  /** It has generated an object of ten bytes, the socket has refused it, and the client has closed. */
  lemma ReachClosing(log: Server.Logging) returns (steps: seq<Step>, s: Conn)
    ensures Leads(Initial(log), steps, s) && Inv(s) && s.log == log
    ensures s.srv.Some? && s.srv.value.isClosing && s.srv.value.size == 10
  {
    steps, s := ReachHeard(log);
    var id := s.srv.value.nextServe;
    assert EventOk(s, id, s.ev.pending[id]);
    var st := ServerFires(id, 10, 1000, false, 0);
    ServerFiresEffect(s, st);
    steps, s := ReachOn(log, steps, s, st);
    CloseEffect(s);
    steps, s := ReachOn(log, steps, s, ServerNormalClose);
  }

  /**
   That step can be reached in every program built with log messages: when the client has closed with an
   object unsent, the next transmission opportunity with enough room for it is fatal.
   */
  lemma ClosingDrainIsFatal(log: Server.Logging) returns (s: Conn, st: Step)
    requires !log.NoLogs?
    ensures Reachable(s) && s.log == log && Enabled(s, st) && Next(s, st).Fatal?
  {
    var steps;
    steps, s := ReachClosing(log);
    st := ServerSend(1000, true, 0);
    assert LooksUpErased(s, st);
    StepSafe(s, st);
  }

  /** A received packet never holds more than the client still expects, so no object is ever discarded. */
  lemma NeverLargerThanExpected(s: Conn, k: nat)
    requires Reachable(s) && Enabled(s, ClientRecv(k))
    ensures TakeHeader(s.c, s.down[..k]).Ok?
    ensures var (c, content) := TakeHeader(s.c, s.down[..k]).value;
            |content| <= c.toReceive && c.constructed.Some?
  {
    ReachableInv(s);
    ReceiveEffect(s, k);
    if s.hist.stage.Flowing? {
      var m := k - HEADER_SIZE;
      ZerosSplit(|s.down| - HEADER_SIZE, m);
      assert s.down[..k] == Serialize(Heading(s)) + Zeros(m);
      HeaderRoundTrip(Heading(s), Zeros(m));
    }
  }

  /** A request never arrives while the serving of an earlier one is still pending or unfinished. */
  lemma ServeNeverOverwritten(s: Conn)
    requires Reachable(s) && Enabled(s, ServerRecv)
    ensures IsExpired(s.ev, s.srv.value.nextServe)
    ensures s.srv.value.size == 0
  {
    ReachableInv(s);
  }

  /** Something of a response is still unsent, in flight or expected. */
  predicate ResponseUnderWay(s: Conn) {
    (s.srv.Some? && s.srv.value.size > 0) || s.down != [] || s.c.toReceive > 0
  }

  /** At most one request or response is under way: in flight, being generated, or being delivered. */
  lemma OneExchangeAtATime(s: Conn)
    requires Reachable(s)
    ensures |s.up| <= 1
    ensures s.up != [] ==> !ResponseUnderWay(s) && forall id | id in s.ev.pending :: !s.ev.pending[id].OfServer()
    ensures forall id | id in s.ev.pending && s.ev.pending[id].OfServer() ::
              s.srv.Some? && id == s.srv.value.nextServe && s.up == [] && !ResponseUnderWay(s)
  {
    ReachableInv(s);
    forall id | id in s.ev.pending && s.ev.pending[id].OfServer()
      ensures s.srv.Some? && id == s.srv.value.nextServe && s.hist.stage.Generating?
    {
      assert EventOk(s, id, s.ev.pending[id]);
    }
  }

  /** Content bytes on their way to the client. */
  function InFlight(s: Conn): int {
    if s.down != [] && s.c.toReceive == 0 then |s.down| - HEADER_SIZE else |s.down|
  }

  /** Content bytes of the present object that the client has put together. */
  function Consumed(s: Conn): int {
    if s.c.toReceive > 0 && s.c.constructed.Some? then |s.c.constructed.value| - HEADER_SIZE else 0
  }

  /**
   No byte of the object being served is lost or made up, however the socket and the stream cut it:
   held by the server, in flight, and consumed add up to its size, and the client's counter is what
   it has yet to see.
   */
  lemma BytesConserved(s: Conn)
    requires Reachable(s) && ResponseUnderWay(s)
    ensures Held(s) + InFlight(s) + Consumed(s) == s.hist.objectSize
    ensures s.c.toReceive > 0 ==> s.c.toReceive == Held(s) + InFlight(s)
    ensures InFlight(s) >= 0 && Consumed(s) >= 0
    ensures s.c.requested != [] && s.hist.kind == s.c.requested[|s.c.requested| - 1]
    ensures s.srv.Some? ==> s.srv.value.contentType == s.hist.kind
  {
    ReachableInv(s);
  }

  /** Between objects no time stamps are kept for the delay traces. */
  lemma TimestampsReset(s: Conn)
    requires Reachable(s) && s.c.toReceive == 0
    ensures s.c.objectClientTs == 0 && s.c.objectServerTs == 0
  {
    ReachableInv(s);
  }

  /** While an object is received, the time stamps kept for its delay traces are those of its request and header. */
  lemma TimestampsKept(s: Conn)
    requires Reachable(s) && s.c.toReceive > 0
    ensures s.c.requestTs != [] && s.c.objectClientTs == s.c.requestTs[|s.c.requestTs| - 1]
    ensures s.c.constructed.Some? && |s.c.constructed.value| >= HEADER_SIZE
    ensures s.c.objectServerTs == Deserialize(s.c.constructed.value).serverTs
  {
    ReachableInv(s);
    HeaderRoundTrip(s.hist.stage.h, Zeros(s.hist.objectSize - s.c.toReceive));
  }

  /** The requests the socket accepted are a prefix of Main E^k1 Main E^k2 ... Main, for the counts drawn. */
  lemma RequestsFollowPages(s: Conn)
    requires Reachable(s)
    ensures s.c.requested <= Pages(s.c.draws) + [MainObject]
  {
    ReachableInv(s);
    var left := Embeds(s.c.toRequest);
    assert s.c.requested <= s.c.requested + left <= s.c.requested + left + [MainObject];
  }

  /** At most one of the client's three events is pending, and the handle kept for its kind names it. */
  lemma OneTimer(s: Conn, i: EventId, j: EventId)
    requires Reachable(s)
    requires i in s.ev.pending && !s.ev.pending[i].OfServer()
    requires j in s.ev.pending && !s.ev.pending[j].OfServer()
    ensures i == j
    ensures i == match s.ev.pending[i]
                 case RequestMain => s.c.evMain
                 case RequestEmbedded => s.c.evEmbedded
                 case _ => s.c.evParse
  {
    ReachableInv(s);
    assert EventOk(s, i, s.ev.pending[i]);
    assert EventOk(s, j, s.ev.pending[j]);
  }

  /** The objects reported complete are whole, of the kinds requested, in order, one for each request. */
  lemma ResponsesAnswerRequests(s: Conn)
    requires Reachable(s)
    ensures |s.c.rxObjects| <= |s.c.requested| <= |s.c.rxObjects| + 1
    ensures |s.c.requestTs| == |s.c.requested|
    ensures forall i | 0 <= i < |s.c.rxObjects| ::
              IsResponse(s.c.rxObjects[i], s.c.requested[i], s.c.requestTs[i])
  {
    ReachableInv(s);
  }

  // ---- When the exchange stands still -------------------------------------------------------------

  /** The steps that carry requests and responses forward. */
  predicate IsExchange(st: Step) {
    st.ClientRecv? || st.ClientFires? || st.ServerRecv? || st.ServerFires? || st.ServerSend?
  }

  ghost predicate CanMove(s: Conn) {
    exists st :: Moves(s, st)
  }

  predicate Moves(s: Conn, st: Step) {
    IsExchange(st) && Enabled(s, st) && Next(s, st).Ok? && Next(s, st).value != s
  }

  /** A step that moves the exchange on from where it has got to. */
  function Mover(s: Conn): Step
    requires s.hist.stage.Generating? ==> s.srv.Some?
  {
    match s.hist.stage
    case Idle =>
      var id := if Holds(s, s.c.evMain, RequestMain) then s.c.evMain
                else if Holds(s, s.c.evEmbedded, RequestEmbedded) then s.c.evEmbedded
                else s.c.evParse;
      ClientFires(id, 0, 0, true, 0)
    case Asked => ServerRecv
    case Generating => ServerFires(s.srv.value.nextServe, 1, 1000, true, 0)
    case _ => if s.down != [] then ClientRecv(|s.down|) else ServerSend(1000, true, 0)
  }

  predicate IsOpen(s: Conn) {
    s.handshake.Finished? && s.srvAccepted && !s.hist.cut
  }

  lemma IdleMoves(s: Conn)
    requires Inv(s) && IsOpen(s) && !s.c.refused && s.hist.stage.Idle?
    ensures Moves(s, Mover(s))
  {
    var st := Mover(s);
    StepSafe(s, st);
  }

  lemma GeneratingMoves(s: Conn)
    requires Inv(s) && s.hist.stage.Generating?
    ensures Moves(s, Mover(s))
  {
    var st, id := Mover(s), s.srv.value.nextServe;
    assert EventOk(s, id, s.ev.pending[id]);
    StepSafe(s, st);
    ServerFiresEffect(s, st);
  }

  lemma UnsentMoves(s: Conn)
    requires Inv(s) && IsOpen(s) && s.hist.stage != Idle && s.hist.stage != Asked && s.hist.stage != Generating
    requires s.down == []
    ensures Moves(s, Mover(s))
  {
    ServerSendEffect(s, Mover(s));
  }

  lemma MoverMoves(s: Conn)
    requires Inv(s) && IsOpen(s) && !s.c.refused
    ensures Moves(s, Mover(s))
  {
    if s.hist.stage.Idle? {
      IdleMoves(s);
    } else if s.hist.stage.Generating? {
      GeneratingMoves(s);
    } else if s.hist.stage.Asked? {
      ServerRecvSafe(s);
    } else if s.down != [] {
      ClientRecvSafe(s, Mover(s));
    } else {
      UnsentMoves(s);
    }
  }

  /** After a refusal no event is pending, on either side. */
  lemma RefusedNothingPending(s: Conn)
    requires Inv(s) && s.c.refused
    ensures forall id :: id !in s.ev.pending
  {
  }

  lemma RefusedCannotMove(s: Conn, st: Step)
    requires Inv(s) && s.c.refused && IsExchange(st) && Enabled(s, st)
    ensures Next(s, st) == Ok(s)
  {
    RefusedNothingPending(s);
    if st.ServerSend? {
      ServerSendEffect(s, st);
    }
  }

  /**
   A refused request is logged as "waiting for another Tx opportunity", but nothing retries it: an open
   connection stands still exactly when some request has been refused.
   */
  lemma StandsStillIffRefused(s: Conn)
    requires Reachable(s) && IsOpen(s)
    ensures CanMove(s) <==> !s.c.refused
  {
    ReachableInv(s);
    if s.c.refused {
      forall st | IsExchange(st) && Enabled(s, st)
        ensures !Moves(s, st)
      {
        RefusedCannotMove(s, st);
      }
    } else {
      MoverMoves(s);
    }
  }

  /** A refusal can be reached: the socket need only refuse the first request. */
  lemma RefusedReachable(log: Server.Logging) returns (s: Conn)
    ensures Reachable(s) && s.log == log && IsOpen(s) && s.c.refused && !CanMove(s)
  {
    var steps;
    steps, s := ReachOpen(log);
    var st := ClientFires(s.c.evMain, 0, 0, false, 0);
    RefusedEffect(s, st, RequestMain);
    steps, s := ReachOn(log, steps, s, st);
    StandsStillIffRefused(s);
  }

  lemma RefusedStep(s: Conn, st: Step)
    requires Inv(s) && s.c.refused && Enabled(s, st)
    ensures Next(s, st).Ok? && Next(s, st).value.c.refused
    ensures Next(s, st).value.c.requested == s.c.requested
  {
    StepSafe(s, st);
    if IsExchange(st) {
      RefusedCannotMove(s, st);
    }
  }

  /** After one refusal the client never sends a request again, whatever happens. */
  lemma {:induction false} RefusedForEver(s: Conn, steps: seq<Step>, t: Conn)
    requires Inv(s) && s.c.refused && Leads(s, steps, t)
    ensures t.c.refused && t.c.requested == s.c.requested
    decreases |steps|
  {
    if steps != [] {
      StepSafe(s, steps[0]);
      RefusedStep(s, steps[0]);
      RefusedForEver(Next(s, steps[0]).value, steps[1..], t);
    }
  }

  // ---- The loop of the receive callback -------------------------------------------------------------

  function Receptions(ks: seq<nat>): (steps: seq<Step>)
    ensures |steps| == |ks|
    ensures forall i | 0 <= i < |ks| :: steps[i] == ClientRecv(ks[i])
  {
    seq(|ks|, i requires 0 <= i < |ks| => ClientRecv(ks[i]))
  }

  /** The packets that receptions of these sizes cut from the front of `down`. */
  function Chunks(down: Bytes, ks: seq<nat>): seq<Bytes> {
    if ks == [] || ks[0] > |down| then [] else [down[..ks[0]]] + Chunks(down[ks[0]..], ks[1..])
  }

  lemma ReceptionIsStep(s: Conn, k: nat)
    requires Enabled(s, ClientRecv(k)) && Next(s, ClientRecv(k)).Ok?
    ensures var n := Next(s, ClientRecv(k)).value;
            ReceivedPacket(s.c, s.ev, s.down[..k]) == Ok((n.c, n.ev)) && n.down == s.down[k..]
  {
  }

  /** One call of ReceivedDataCallback that reads several packets does what the single steps do in turn. */
  lemma {:induction false} CallbackIsSteps(s: Conn, ks: seq<nat>, t: Conn)
    requires Leads(s, Receptions(ks), t)
    ensures ReceivedData(s.c, s.ev, Chunks(s.down, ks)) == Ok((t.c, t.ev))
    decreases |ks|
  {
    if ks != [] {
      assert Receptions(ks)[1..] == Receptions(ks[1..]);
      ReceptionIsStep(s, ks[0]);
      CallbackIsSteps(Next(s, ClientRecv(ks[0])).value, ks[1..], t);
    }
  }

  /** The client's callback stops at the first empty packet. */
  lemma {:induction false} ClientStopsAtEmpty(c: Client, ev: Events, packets: seq<Bytes>, more: seq<Bytes>)
    ensures ReceivedData(c, ev, packets + [[]] + more) == ReceivedData(c, ev, packets)
    decreases |packets|
  {
    var all := packets + [[]] + more;
    if packets != [] && packets[0] != [] {
      assert all[1..] == packets[1..] + [[]] + more;
      var r := ReceivedPacket(c, ev, packets[0]);
      if r.Ok? {
        ClientStopsAtEmpty(r.value.0, r.value.1, packets[1..], more);
      }
    }
  }

  /** The server has read the first `n` packets on their way to it. */
  function Hearings(n: nat): (steps: seq<Step>)
    ensures |steps| == n
    ensures forall i | 0 <= i < n :: steps[i] == ServerRecv
  {
    seq(n, _ => ServerRecv)
  }

  lemma HearingIsStep(s: Conn)
    requires Enabled(s, ServerRecv)
    ensures var r := Server.ReceivedPacket(s.srv, s.ev, s.up[0]);
            if r.Ok? then
              && Next(s, ServerRecv).Ok? && s.up[0] != []
              && var n := Next(s, ServerRecv).value;
                 n.srv == r.value.0 && n.ev == r.value.1 && n.up == s.up[1..] && n.srv.Some?
            else Next(s, ServerRecv).Fatal?
  {
  }

  /** One call of the server's callback that reads several requests does what the single steps do in turn. */
  lemma {:induction false} ServerCallbackIsSteps(s: Conn, n: nat, t: Conn)
    requires Leads(s, Hearings(n), t)
    ensures n <= |s.up| && t.up == s.up[n..]
    ensures Server.ReceivedData(s.srv, s.ev, s.up[..n]) == Ok((t.srv, t.ev))
    decreases n
  {
    if n > 0 {
      assert Hearings(n)[1..] == Hearings(n - 1);
      HearingIsStep(s);
      var u := Next(s, ServerRecv).value;
      ServerCallbackIsSteps(u, n - 1, t);
      assert s.up[..n][1..] == u.up[..n - 1] && s.up[..n][0] == s.up[0];
    }
  }

  /** It succeeds only if they can all be taken, one by one. */
  lemma {:induction false} ServerCallbackSucceeds(s: Conn, n: nat) returns (t: Conn)
    requires n <= |s.up| && (forall i | 0 <= i < n :: s.up[i] != [])
    requires Server.ReceivedData(s.srv, s.ev, s.up[..n]).Ok? && s.srv.Some?
    ensures Leads(s, Hearings(n), t)
    decreases n
  {
    if n == 0 {
      t := s;
    } else {
      assert s.up[..n][0] == s.up[0];
      HearingIsStep(s);
      var u := Next(s, ServerRecv).value;
      assert s.up[..n][1..] == u.up[..n - 1];
      t := ServerCallbackSucceeds(u, n - 1);
      assert Hearings(n)[1..] == Hearings(n - 1);
    }
  }

  /** The server's callback stops at the first empty packet. */
  lemma {:induction false} ServerStopsAtEmpty(e: Server.Entry, ev: Events, packets: seq<Bytes>, more: seq<Bytes>)
    ensures Server.ReceivedData(e, ev, packets + [[]] + more) == Server.ReceivedData(e, ev, packets)
    decreases |packets|
  {
    var all := packets + [[]] + more;
    if packets != [] && packets[0] != [] {
      assert all[1..] == packets[1..] + [[]] + more;
      var r := Server.ReceivedPacket(e, ev, packets[0]);
      if r.Ok? {
        ServerStopsAtEmpty(r.value.0, r.value.1, packets[1..], more);
      }
    }
  }
}
