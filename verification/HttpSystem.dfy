/**
 One client, the server's entry for its connection, and the two directions of a reliable stream
 between them, as one transition system.

 The environment may do anything except the following.  The stream loses and reorders nothing, and
 may cut the response bytes anywhere but inside the header of a response; a request arrives as one
 chunk; `Send` takes a whole packet or none of it; a drawn object has at least one byte, and with its
 header fewer than 2^31; the connection is opened once and its handshake ends once.
 */
module HttpSystem {
  import opened Words
  import opened HttpHeader
  import opened HttpEvents
  import opened HttpClientSpec
  import Server = HttpServerSpec

  datatype Handshake = Unopened | Opening | Finished

  /**
   History that no step depends on: where the exchange under way has got to, the request it answers,
   the size drawn for its object, the bytes thrown away with the server's entry, the client's state
   when it was stopped, and whether either side has been closed.
   */
  datatype Stage =
    | Idle
    | Asked
    | Generating
    | Buffered
    | Flowing(h: Header)
    | Consuming(h: Header)
    | Abandoned

  datatype History =
    History(stage: Stage, kind: ContentType, ts: uint64, objectSize: nat, lost: nat, was: State, cut: bool)

  datatype Conn = Conn(
    c: Client,
    srv: Server.Entry,
    srvAccepted: bool,
    handshake: Handshake,
    ev: Events,
    up: seq<Bytes>,
    down: Bytes,
    log: Server.Logging,
    hist: History)

  function Initial(log: Server.Logging): Conn {
    Conn(INITIAL_CLIENT, None, false, Unopened, NO_EVENTS, [], [], log,
         History(Idle, NotSet, 0, 0, 0, NotStarted, false))
  }

  datatype Step =
    | ClientStart
    | ClientConnected
    | ClientConnectFailed
    | ClientStop
    | ClientClosed
    | ClientRecv(k: nat)
    | ClientFires(id: EventId, now: uint64, requestSize: nat, accepted: bool, count: uint32)
    | ServerAccept
    | ServerRecv
    | ServerFires(id: EventId, objectSize: nat, available: uint32, accepted: bool, now: uint64)
    | ServerSend(available: uint32, accepted: bool, now: uint64)
    | ServerNormalClose
    | ServerErrorClose

  /** What the environment promises about a step, and nothing about the state of either program. */
  predicate Enabled(s: Conn, st: Step) {
    match st
    case ClientStart => s.handshake.Unopened?
    case ClientConnected => s.handshake.Opening? && s.c.receiving
    case ClientConnectFailed => s.handshake.Opening? && s.c.receiving
    case ClientStop => !s.handshake.Unopened?
    case ClientClosed => !s.handshake.Unopened?
    case ClientRecv(k) => s.c.receiving && 1 <= k <= |s.down| && (s.c.toReceive == 0 ==> k >= HEADER_SIZE)
    case ClientFires(id, _, n, _, _) =>
      id in s.ev.pending && !s.ev.pending[id].OfServer() && n + HEADER_SIZE < 0x8000_0000
    case ServerAccept => !s.handshake.Unopened? && !s.srvAccepted
    case ServerRecv => s.srv.Some? && s.up != []
    case ServerFires(id, n, _, _, _) =>
      id in s.ev.pending && s.ev.pending[id].OfServer() && 1 <= n && n + HEADER_SIZE < 0x8000_0000
    case ServerSend(_, _, _) => s.srv.Some?
    case ServerNormalClose => s.srvAccepted
    case ServerErrorClose => s.srvAccepted
  }

  function ClientHandler(s: Conn, ev: Events, a: Action, now: uint64, n: nat, accepted: bool, count: uint32)
    : Result<Conn>
    requires !a.OfServer()
  {
    match a
    case RequestMain =>
      var (c, packet) :- RequestMainObject(s.c, now, n, accepted);
      Ok(s.(c := c, ev := ev, up := s.up + if packet.Some? then [packet.value] else []))
    case RequestEmbedded =>
      var (c, packet) :- RequestEmbeddedObject(s.c, now, n, accepted);
      Ok(s.(c := c, ev := ev, up := s.up + if packet.Some? then [packet.value] else []))
    case ParseMain =>
      var (c, ev1) :- ParseMainObject(s.c, ev, count);
      Ok(s.(c := c, ev := ev1))
  }

  /** What the two programs do, by calling the callback the step stands for. */
  function Program(s: Conn, st: Step): Result<Conn>
    requires Enabled(s, st)
  {
    match st
    case ClientStart =>
      var c :- StartApplication(s.c);
      Ok(s.(c := c, handshake := Opening))
    case ClientConnected =>
      var (c, ev) :- ConnectionSucceeded(s.c, s.ev);
      Ok(s.(c := c, ev := ev, handshake := Finished))
    case ClientConnectFailed =>
      var c :- ConnectionFailed(s.c);
      Ok(s.(c := c, handshake := Finished))
    case ClientStop =>
      var (c, ev) := StopApplication(s.c, s.ev);
      Ok(s.(c := c, ev := ev))
    case ClientClosed =>
      Ok(s.(ev := CancelAllPendingEvents(s.c, s.ev)))
    case ClientRecv(k) =>
      var (c, ev) :- HttpClientSpec.ReceivedPacket(s.c, s.ev, s.down[..k]);
      Ok(s.(c := c, ev := ev, down := s.down[k..]))
    case ClientFires(id, now, n, accepted, count) =>
      ClientHandler(s, Take(s.ev, id), s.ev.pending[id], now, n, accepted, count)
    case ServerAccept =>
      var e :- Server.AddSocket(s.srv);
      Ok(s.(srv := e, srvAccepted := true))
    case ServerRecv =>
      var (e, ev) :- Server.ReceivedPacket(s.srv, s.ev, s.up[0]);
      Ok(s.(srv := e, ev := ev, up := s.up[1..]))
    case ServerFires(id, n, available, accepted, now) =>
      var t := if s.ev.pending[id].ServeMain? then MainObject else EmbeddedObject;
      var (e, ev, bytes) :- Server.ServeNewObject(s.srv, Take(s.ev, id), t, n, available, accepted, now, s.log);
      Ok(s.(srv := e, ev := ev, down := s.down + bytes))
    case ServerSend(available, accepted, now) =>
      var (e, ev, bytes) :- Server.SendCallback(s.srv, s.ev, available, accepted, now, s.log);
      Ok(s.(srv := e, ev := ev, down := s.down + bytes))
    case ServerNormalClose =>
      var (e, ev) :- Server.NormalClose(s.srv, s.ev);
      Ok(s.(srv := e, ev := ev))
    case ServerErrorClose =>
      var (e, ev) :- Server.ErrorClose(s.srv, s.ev);
      Ok(s.(srv := e, ev := ev))
  }

  /** The stage reached when the server has produced or pushed bytes for the object in its buffer. */
  function AfterServing(s: Conn, n: Conn, now: uint64, objectSize: nat): Stage {
    if |n.down| == |s.down| then Buffered
    else Flowing(Header(Code(s.hist.kind), objectSize % TWO_32, s.hist.ts, now))
  }

  function Record(s: Conn, st: Step, n: Conn): History
    requires Enabled(s, st)
  {
    var h := s.hist;
    match st
    case ClientStop => h.(was := Phase(s), cut := true)
    case ClientClosed => h.(cut := true)
    case ClientConnectFailed => h.(cut := true)
    case ClientFires(_, now, _, _, _) =>
      if |n.c.requested| > |s.c.requested|
      then h.(stage := if s.srvAccepted && s.srv.None? then Abandoned else Asked,
              kind := n.c.requested[|s.c.requested|], ts := now, objectSize := 0)
      else h
    case ClientRecv(_) =>
      if |n.c.rxObjects| > |s.c.rxObjects| then h.(stage := Idle)
      else if h.stage.Flowing? then h.(stage := Consuming(h.stage.h))
      else h
    case ServerRecv => h.(stage := Generating)
    case ServerFires(_, size, _, _, now) =>
      h.(stage := AfterServing(s, n, now, size), objectSize := size)
    case ServerSend(_, _, now) =>
      if h.stage.Buffered? then h.(stage := AfterServing(s, n, now, h.objectSize)) else h
    case ServerNormalClose =>
      if s.srv.None? then h
      else h.(cut := true, stage := if n.srv.None? && (h.stage.Asked? || h.stage.Generating?)
                                    then Abandoned else h.stage)
    case ServerErrorClose =>
      if s.srv.None? then h
      else h.(cut := true, lost := s.srv.value.size,
              stage := if h.stage.Asked? || h.stage.Generating? || h.stage.Buffered? then Abandoned else h.stage)
    case _ => h
  }

  function Next(s: Conn, st: Step): Result<Conn>
    requires Enabled(s, st)
  {
    var n :- Program(s, st);
    Ok(n.(hist := Record(s, st, n)))
  }

  /** The client's state, or for a stopped client the state it was stopped in. */
  function Phase(s: Conn): State {
    if s.c.state.Stopped? then s.hist.was else s.c.state
  }
}
