/**
 Every step that the environment allows succeeds and keeps the invariant, except the one that looks up an
 entry it has erased.  For each step that moves data, one lemma says which state it leads to and one, free
 of the programs, that the invariant holds there.
 */
module HttpSafety {
  import opened Words
  import opened HttpHeader
  import opened HttpEvents
  import opened HttpClientSpec
  import Server = HttpServerSpec
  import opened HttpSystem
  import opened HttpInvariant

  /**
   The transmission opportunity drains a closing entry, which erases it, in a program built with log
   messages: the message that follows looks the entry up.
   */
  predicate LooksUpErased(s: Conn, st: Step) {
    && st.ServerSend? && s.srv.Some? && s.srv.value.size > 0 && !s.log.NoLogs?
    && Server.DrainsClosing(s.srv.value, st.available, st.accepted)
  }

  /** Safe means: the step is not fatal and the invariant holds after it. */
  predicate Safe(s: Conn, st: Step)
    requires Enabled(s, st)
  {
    Next(s, st).Ok? && Inv(Next(s, st).value)
  }

  // ---- Opening, stopping, closing ----------------------------------------------------------------

  lemma ClientStartSafe(s: Conn)
    requires Inv(s) && Enabled(s, ClientStart)
    ensures Safe(s, ClientStart)
  {
  }

  lemma ClientConnectedSafe(s: Conn)
    requires Inv(s) && Enabled(s, ClientConnected)
    ensures Safe(s, ClientConnected)
  {
  }

  lemma ClientConnectFailedSafe(s: Conn)
    requires Inv(s) && Enabled(s, ClientConnectFailed)
    ensures Safe(s, ClientConnectFailed)
  {
  }

  /** Cancelling the client's three handles leaves exactly the server's event, if there is one. */
  lemma CancelLeavesServer(s: Conn)
    requires EventsInv(s)
    ensures var p := CancelAllPendingEvents(s.c, s.ev).pending;
            && (forall id | id in p :: id in s.ev.pending && p[id] == s.ev.pending[id] && p[id].OfServer())
            && (forall id | id in s.ev.pending && s.ev.pending[id].OfServer() :: id in p)
  {
  }

  /** The state after the client's events are cancelled, because it was stopped or its peer has closed. */
  function ClientCut(s: Conn, stopped: bool): Conn {
    s.(c := if stopped then s.c.(state := Stopped, receiving := false) else s.c,
       ev := CancelAllPendingEvents(s.c, s.ev),
       hist := s.hist.(was := if stopped then Phase(s) else s.hist.was, cut := true))
  }

  lemma ClientCutEvents(s: Conn, stopped: bool)
    requires Inv(s) && !s.handshake.Unopened?
    ensures EventsInv(ClientCut(s, stopped))
  {
    CancelLeavesServer(s);
  }

  lemma ClientCutStage(s: Conn, stopped: bool)
    requires EventsInv(s) && StageInv(s)
    ensures StageInv(ClientCut(s, stopped))
  {
    CancelLeavesServer(s);
    if s.hist.stage.Generating? {
      assert EventOk(s, s.srv.value.nextServe, s.ev.pending[s.srv.value.nextServe]);
    }
  }

  lemma ClientCutKeeps(s: Conn, stopped: bool)
    requires Inv(s) && !s.handshake.Unopened?
    ensures Inv(ClientCut(s, stopped))
  {
    var n := ClientCut(s, stopped);
    ClientCutEvents(s, stopped);
    ClientCutStage(s, stopped);
    assert Phase(n) == Phase(s);
  }

  lemma ClientStopSafe(s: Conn)
    requires Inv(s) && Enabled(s, ClientStop)
    ensures Safe(s, ClientStop)
  {
    assert Next(s, ClientStop) == Ok(ClientCut(s, true));
    ClientCutKeeps(s, true);
  }

  lemma ClientClosedSafe(s: Conn)
    requires Inv(s) && Enabled(s, ClientClosed)
    ensures Safe(s, ClientClosed)
  {
    assert Next(s, ClientClosed) == Ok(ClientCut(s, false));
    ClientCutKeeps(s, false);
  }

  lemma ServerAcceptSafe(s: Conn)
    requires Inv(s) && Enabled(s, ServerAccept)
    ensures Safe(s, ServerAccept)
  {
    var n := Next(s, ServerAccept).value;
    assert StageInv(n);
  }

  /** The server's entry is erased, with whatever its buffer still holds. */
  function Gone(s: Conn): Conn
    requires s.srv.Some?
  {
    var early := s.hist.stage.Asked? || s.hist.stage.Generating? || s.hist.stage.Buffered?;
    s.(srv := None, ev := Cancel(s.ev, s.srv.value.nextServe),
       hist := s.hist.(cut := true, lost := s.srv.value.size, stage := if early then Abandoned else s.hist.stage))
  }

  lemma GoneKeeps(s: Conn)
    requires Inv(s) && s.srv.Some?
    ensures Inv(Gone(s))
  {
    var n := Gone(s);
    assert EventsInv(n);
    assert StageInv(n);
  }

  /** The server will erase the entry once its buffer is empty. */
  function Closing(s: Conn): Conn
    requires s.srv.Some?
  {
    s.(srv := Some(s.srv.value.(isClosing := true)), hist := s.hist.(cut := true))
  }

  lemma ClosingKeeps(s: Conn)
    requires Inv(s) && s.srv.Some? && s.srv.value.size > 0
    ensures Inv(Closing(s))
  {
    var n := Closing(s);
    assert EventsInv(n);
    assert StageInv(n);
  }

  lemma CloseEffect(s: Conn)
    requires s.srvAccepted && (s.srv.Some? ==> s.hist.lost == 0)
    requires s.srv.Some? && s.srv.value.size == 0 ==> !s.hist.stage.Buffered?
    ensures Next(s, ServerErrorClose) == Ok(if s.srv.None? then s else Gone(s))
    ensures Next(s, ServerNormalClose)
         == Ok(if s.srv.None? then s else if s.srv.value.size == 0 then Gone(s) else Closing(s))
  {
  }

  lemma ServerCloseSafe(s: Conn)
    requires Inv(s) && s.srvAccepted
    ensures Safe(s, ServerNormalClose)
    ensures Safe(s, ServerErrorClose)
  {
    CloseEffect(s);
    if s.srv.Some? {
      GoneKeeps(s);
      if s.srv.value.size > 0 {
        ClosingKeeps(s);
      }
    }
  }

  // ---- The server receives a request -------------------------------------------------------------

  /** The server has read a request and scheduled the serving of its object. */
  function Heard(s: Conn): Conn
    requires s.srv.Some? && s.up != [] && !s.hist.kind.NotSet?
  {
    var (ev, id) := Schedule(s.ev, Server.ServeAction(s.hist.kind));
    s.(srv := Some(s.srv.value.(nextServe := id, clientTs := s.hist.ts)), ev := ev, up := s.up[1..],
       hist := s.hist.(stage := Generating))
  }

  lemma RequestRead(p: Bytes, h: Header)
    requires |p| >= HEADER_SIZE && p[..HEADER_SIZE] == Serialize(h)
    ensures Deserialize(p) == h
  {
    assert p == Serialize(h) + p[HEADER_SIZE..];
    HeaderRoundTrip(h, p[HEADER_SIZE..]);
  }

  lemma HeardEffect(s: Conn)
    requires s.srv.Some? && s.up != [] && !s.hist.kind.NotSet?
    requires |s.up[0]| >= HEADER_SIZE
    requires s.up[0][..HEADER_SIZE] == Serialize(Header(Code(s.hist.kind), 0, s.hist.ts, 0))
    ensures Next(s, ServerRecv) == Ok(Heard(s))
  {
    RequestRead(s.up[0], Header(Code(s.hist.kind), 0, s.hist.ts, 0));
  }

  lemma HeardKeeps(s: Conn)
    requires Inv(s) && s.srv.Some? && s.up != []
    ensures !s.hist.kind.NotSet? && Inv(Heard(s))
  {
    var n := Heard(s);
    assert EventsInv(n);
    assert StageInv(n);
  }

  lemma ServerRecvSafe(s: Conn)
    requires Inv(s) && Enabled(s, ServerRecv)
    ensures Safe(s, ServerRecv)
  {
    HeardEffect(s);
    HeardKeeps(s);
  }

  // ---- The server pushes content -----------------------------------------------------------------

  /** The state after `m` more content bytes, with the header in front of them if they are the first. */
  function Pushed(s: Conn, m: nat, now: uint64): Conn
    requires s.srv.Some? && m <= s.srv.value.size
  {
    var b := s.srv.value;
    var e := Server.Depleted(b, m);
    s.(srv := e,
       ev := if e.None? then Cancel(s.ev, b.nextServe) else s.ev,
       down := s.down + Server.ResponsePacket(b, m, now),
       hist := if s.hist.stage.Buffered? then s.hist.(stage := Flowing(Server.ResponseHeader(b, now))) else s.hist)
  }

  /** The first part of an object goes out behind its header. */
  lemma PushFirst(s: Conn, m: nat, now: uint64)
    requires StageInv(s) && s.srv.Some? && 0 < m <= s.srv.value.size && s.hist.stage.Buffered? && s.hist.lost == 0
    ensures StageInv(Pushed(s, m, now))
  {
    var h := Server.ResponseHeader(s.srv.value, now);
    assert [] + (Serialize(h) + Zeros(m)) == Serialize(h) + Zeros(m);
  }

  /** A later part goes out before the client has read the header. */
  lemma PushBehindHeader(s: Conn, m: nat, now: uint64)
    requires StageInv(s) && s.srv.Some? && 0 < m <= s.srv.value.size && s.hist.stage.Flowing? && s.hist.lost == 0
    ensures StageInv(Pushed(s, m, now))
  {
    MoreZeros(Serialize(s.hist.stage.h), |s.down| - HEADER_SIZE, m);
  }

  /** Or after it has. */
  lemma PushContent(s: Conn, m: nat, now: uint64)
    requires StageInv(s) && s.srv.Some? && 0 < m <= s.srv.value.size && s.hist.stage.Consuming? && s.hist.lost == 0
    ensures StageInv(Pushed(s, m, now))
  {
    MoreZeros([], |s.down|, m);
    assert [] + Zeros(|s.down|) == Zeros(|s.down|) && [] + Zeros(|s.down| + m) == Zeros(|s.down| + m);
  }

  lemma MoreZeros(front: Bytes, k: nat, m: nat)
    ensures (front + Zeros(k)) + ([] + Zeros(m)) == front + Zeros(k + m)
  {
    ZerosSplit(k + m, k);
  }

  lemma PushKeeps(s: Conn, m: nat, now: uint64)
    requires Inv(s) && s.srv.Some? && 0 < m <= s.srv.value.size
    requires s.hist.stage.Buffered? || s.hist.stage.Flowing? || s.hist.stage.Consuming?
    ensures Inv(Pushed(s, m, now))
  {
    match s.hist.stage {
      case Buffered => PushFirst(s, m, now);
      case Flowing(_) => PushBehindHeader(s, m, now);
      case Consuming(_) => PushContent(s, m, now);
    }
  }

  /** What a transmission opportunity leads to. */
  function Served(s: Conn, available: uint32, accepted: bool, now: uint64): Conn
    requires s.srv.Some?
  {
    var m := Server.AcceptedContent(s.srv.value, available, accepted);
    if m == 0 then s else Pushed(s, m, now)
  }

  lemma ServedKeeps(s: Conn, available: uint32, accepted: bool, now: uint64)
    requires Inv(s) && s.srv.Some?
    ensures Inv(Served(s, available, accepted, now))
  {
    if Server.AcceptedContent(s.srv.value, available, accepted) > 0 {
      PushKeeps(s, Server.AcceptedContent(s.srv.value, available, accepted), now);
    }
  }

  lemma SendsNothing(s: Conn, st: Step)
    requires st.ServerSend? && s.srv.Some? && s.srv.value.size == 0 && !s.hist.stage.Buffered?
    ensures Next(s, st) == Ok(s)
  {
    assert s.down + [] == s.down;
  }

  lemma SendsSome(s: Conn, st: Step)
    requires st.ServerSend? && s.srv.Some? && Server.Servable(s.srv.value) && !s.srv.value.contentType.NotSet?
    requires s.hist.stage.Buffered? ==> BufferIs(s, false) && s.srv.value.size == s.hist.objectSize
    ensures Next(s, st).Fatal? <==> LooksUpErased(s, st)
    ensures Next(s, st).Ok? ==> Next(s, st) == Ok(Served(s, st.available, st.accepted, st.now))
  {
    Server.ServeEffect(s.srv.value, s.ev, st.available, st.accepted, st.now, s.log);
    Server.SendCallbackFatalIff(s.srv.value, s.ev, st.available, st.accepted, st.now, s.log);
    assert s.down + [] == s.down;
  }

  lemma ServerSendEffect(s: Conn, st: Step)
    requires st.ServerSend? && s.srv.Some? && Inv(s)
    ensures Next(s, st).Fatal? <==> LooksUpErased(s, st)
    ensures Next(s, st).Ok? ==> Next(s, st) == Ok(Served(s, st.available, st.accepted, st.now))
  {
    if s.srv.value.size == 0 {
      SendsNothing(s, st);
    } else {
      SendsSome(s, st);
    }
  }

  lemma ServerSendSafe(s: Conn, st: Step)
    requires st.ServerSend?
    requires Inv(s) && Enabled(s, st)
    ensures if LooksUpErased(s, st) then Next(s, st).Fatal? else Safe(s, st)
  {
    ServerSendEffect(s, st);
    ServedKeeps(s, st.available, st.accepted, st.now);
  }

  /** The state once a drawn object has been written to the empty buffer and nothing of it is sent yet. */
  function Written(s: Conn, id: EventId, objectSize: uint32): Conn
    requires s.srv.Some?
  {
    s.(srv := Some(s.srv.value.(contentType := s.hist.kind, size := objectSize, hasTxedPart := false)),
       ev := Take(s.ev, id),
       hist := s.hist.(stage := Buffered, objectSize := objectSize))
  }

  lemma WrittenKeeps(s: Conn, id: EventId, objectSize: uint32)
    requires Inv(s) && id in s.ev.pending && s.ev.pending[id].OfServer() && GoodSize(objectSize)
    ensures Inv(Written(s, id, objectSize))
  {
    var n := Written(s, id, objectSize);
    assert EventOk(s, id, s.ev.pending[id]);
    assert EventsInv(n);
  }

  /** Writing the object and serving it at once is one service of the buffer as written. */
  lemma ServeNewEffect(s: Conn, w: Conn, t: ContentType, size: uint32, available: uint32, accepted: bool, now: uint64)
    requires s.srv.Some? && s.srv.value.size == 0 && t == s.hist.kind && !t.NotSet? && size > 0
    requires w.srv == Some(s.srv.value.(contentType := t, size := size, hasTxedPart := false))
    ensures Server.ServeNewObject(s.srv, w.ev, t, size, available, accepted, now, s.log)
         == Server.ServeFromTxBuffer(w.srv, w.ev, available, accepted, now, s.log)
  {
  }

  lemma ServerFiresProgram(s: Conn, st: Step, w: Conn, e: Server.Entry, ev: Events, bytes: Bytes)
    requires st.ServerFires? && Enabled(s, st) && st.objectSize < TWO_32
    requires s.srv.Some? && s.srv.value.size == 0 && !s.hist.kind.NotSet?
    requires s.ev.pending[st.id] == Server.ServeAction(s.hist.kind)
    requires w == Written(s, st.id, st.objectSize)
    requires Server.ServeFromTxBuffer(w.srv, w.ev, st.available, st.accepted, st.now, s.log) == Ok((e, ev, bytes))
    ensures Program(s, st) == Ok(s.(srv := e, ev := ev, down := s.down + bytes))
  {
    ServeNewEffect(s, w, s.hist.kind, st.objectSize, st.available, st.accepted, st.now);
  }

  lemma ServerFiresEffect(s: Conn, st: Step)
    requires st.ServerFires? && Enabled(s, st)
    requires s.srv.Some? && s.srv.value.size == 0 && !s.hist.kind.NotSet?
    requires s.srv.value.clientTs == s.hist.ts && !s.srv.value.isClosing
    requires s.ev.pending[st.id] == Server.ServeAction(s.hist.kind)
    ensures st.objectSize < TWO_32
    ensures Next(s, st) == Ok(Served(Written(s, st.id, st.objectSize), st.available, st.accepted, st.now))
  {
    var w := Written(s, st.id, st.objectSize);
    Server.ServeEffect(w.srv.value, w.ev, st.available, st.accepted, st.now, s.log);
    assert s.down + [] == s.down;
    var (e, ev, bytes) := Server.ServeFromTxBuffer(w.srv, w.ev, st.available, st.accepted, st.now, s.log).value;
    ServerFiresProgram(s, st, w, e, ev, bytes);
  }

  lemma ServerFiresSafe(s: Conn, st: Step)
    requires st.ServerFires?
    requires Inv(s) && Enabled(s, st)
    ensures Safe(s, st)
  {
    assert EventOk(s, st.id, s.ev.pending[st.id]);
    ServerFiresEffect(s, st);
    WrittenKeeps(s, st.id, st.objectSize);
    ServedKeeps(Written(s, st.id, st.objectSize), st.available, st.accepted, st.now);
  }

  // ---- The client receives part of a response ----------------------------------------------------

  /** The header of the response that the client is reading or about to read. */
  function Heading(s: Conn): Header
    requires s.hist.stage.Flowing? || s.hist.stage.Consuming?
  {
    s.hist.stage.h
  }

  /** The state after `Receive` has taken `k` bytes, before the client looks whether it has them all. */
  function Taken(s: Conn, k: nat): Conn
    requires s.hist.stage.Flowing? || s.hist.stage.Consuming?
    requires k <= |s.down| && |s.down| - k + Held(s) < TWO_32
    requires |s.down| - k + Held(s) <= s.hist.objectSize
  {
    var h := Heading(s);
    var left := |s.down| - k + Held(s);
    s.(c := s.c.(toReceive := left,
                 objectClientTs := if s.hist.stage.Flowing? then h.clientTs else s.c.objectClientTs,
                 objectServerTs := if s.hist.stage.Flowing? then h.serverTs else s.c.objectServerTs,
                 constructed := Some(Serialize(h) + Zeros(s.hist.objectSize - left))),
       down := Zeros(|s.down| - k),
       hist := s.hist.(stage := Consuming(h)))
  }

  predicate CanTake(s: Conn, k: nat) {
    && Inv(s) && s.c.receiving && 1 <= k <= |s.down| && (s.c.toReceive == 0 ==> k >= HEADER_SIZE)
  }

  /** The first part of a response, with `m` bytes of content. */
  lemma ReceiveFirst(c: Client, h: Header, m: nat)
    requires c.toReceive == 0 && m <= h.contentLength
    ensures Receive(c, Serialize(h) + Zeros(m))
         == Ok(c.(toReceive := h.contentLength - m, objectClientTs := h.clientTs, objectServerTs := h.serverTs,
                  constructed := Some(Serialize(h) + Zeros(m))))
  {
    HeaderRoundTrip(h, Zeros(m));
  }

  /** A later part, of `k` bytes. */
  lemma ReceiveMore(c: Client, h: Header, done: nat, k: nat)
    requires 0 < c.toReceive && k <= c.toReceive && c.constructed == Some(Serialize(h) + Zeros(done))
    ensures Receive(c, Zeros(k))
         == Ok(c.(toReceive := c.toReceive - k, constructed := Some(Serialize(h) + Zeros(done + k))))
  {
    ZerosSplit(done + k, done);
    assert Serialize(h) + Zeros(done) + Zeros(k) == Serialize(h) + Zeros(done + k);
  }

  /** Cutting `k` bytes off a response that nothing has been read of yet. */
  lemma CutFirst(down: Bytes, h: Header, k: nat)
    requires HEADER_SIZE <= k <= |down| && down == Serialize(h) + Zeros(|down| - HEADER_SIZE)
    ensures down[..k] == Serialize(h) + Zeros(k - HEADER_SIZE)
    ensures down[k..] == Zeros(|down| - k)
  {
    ZerosSplit(|down| - HEADER_SIZE, k - HEADER_SIZE);
  }

  lemma ReceiveFlowing(s: Conn, k: nat)
    requires s.hist.stage.Flowing? && StageInv(s) && HEADER_SIZE <= k <= |s.down|
    ensures |s.down| - k + Held(s) <= s.hist.objectSize
    ensures Receive(s.c, s.down[..k]) == Ok(Taken(s, k).c)
    ensures s.down[k..] == Zeros(|s.down| - k)
  {
    CutFirst(s.down, Heading(s), k);
    ReceiveFirst(s.c, Heading(s), k - HEADER_SIZE);
  }

  lemma ReceiveConsuming(s: Conn, k: nat)
    requires s.hist.stage.Consuming? && StageInv(s) && 1 <= k <= |s.down|
    ensures |s.down| - k + Held(s) <= s.hist.objectSize
    ensures Receive(s.c, s.down[..k]) == Ok(Taken(s, k).c)
    ensures s.down[k..] == Zeros(|s.down| - k)
  {
    ZerosSplit(|s.down|, k);
    ReceiveMore(s.c, Heading(s), s.hist.objectSize - s.c.toReceive, k);
  }

  lemma ReceiveEffect(s: Conn, k: nat)
    requires CanTake(s, k)
    ensures s.hist.stage.Flowing? || s.hist.stage.Consuming?
    ensures |s.down| - k + Held(s) <= s.hist.objectSize
    ensures Receive(s.c, s.down[..k]) == Ok(Taken(s, k).c)
    ensures s.down[k..] == Zeros(|s.down| - k)
  {
    if s.hist.stage.Flowing? {
      ReceiveFlowing(s, k);
    } else {
      ReceiveConsuming(s, k);
    }
  }

  lemma PartKeeps(s: Conn, k: nat)
    requires CanTake(s, k)
    ensures s.hist.stage.Flowing? || s.hist.stage.Consuming?
    ensures |s.down| - k + Held(s) <= s.hist.objectSize
    ensures Taken(s, k).c.toReceive > 0 ==> Inv(Taken(s, k))
  {
    ReceiveEffect(s, k);
  }

  /** The last byte has been taken: the object is reported, and the exchange is over. */
  function Reported(s: Conn, k: nat): Conn
    requires s.hist.stage.Flowing? || s.hist.stage.Consuming?
    requires k <= |s.down| && |s.down| - k + Held(s) < TWO_32
    requires |s.down| - k + Held(s) <= s.hist.objectSize
  {
    var n := Taken(s, k);
    n.(c := ReportObject(n.c), hist := n.hist.(stage := Idle))
  }

  lemma WholeIsResponse(h: Header, t: ContentType, ts: uint64)
    requires h.contentType == Code(t) && h.clientTs == ts && h.contentLength > 0
    ensures IsResponse(Some(Serialize(h) + Zeros(h.contentLength)), t, ts)
  {
    HeaderRoundTrip(h, Zeros(h.contentLength));
  }

  lemma OneMoreAnswered(kind: ContentType, ts: uint64, kinds: seq<ContentType>, stamps: seq<uint64>,
                        objects: seq<Option<Bytes>>, o: Option<Bytes>)
    requires InStep(false, kind, ts, kinds, stamps, objects) && IsResponse(o, kind, ts)
    ensures InStep(true, kind, ts, kinds, stamps, objects + [o])
  {
  }

  lemma ReportedIsResponse(s: Conn, k: nat)
    requires CanTake(s, k)
    ensures s.hist.stage.Flowing? || s.hist.stage.Consuming?
    ensures |s.down| - k + Held(s) <= s.hist.objectSize
    ensures Taken(s, k).c.toReceive == 0 ==> ReceivedInv(Reported(s, k)) && StageInv(Reported(s, k))
  {
    ReceiveEffect(s, k);
    var n := Taken(s, k);
    if n.c.toReceive == 0 {
      WholeIsResponse(Heading(s), s.hist.kind, s.hist.ts);
      OneMoreAnswered(s.hist.kind, s.hist.ts, s.c.requested, s.c.requestTs, s.c.rxObjects, n.c.constructed);
    }
  }

  /** The client's next event is scheduled, with the change of state that goes with it. */
  function Scheduled(s: Conn, a: Action): Conn
    requires !a.OfServer()
  {
    var (ev, id) := Schedule(s.ev, a);
    s.(ev := ev,
       c := match a
            case RequestMain => s.c.(evMain := id, state := Reading)
            case RequestEmbedded => s.c.(evEmbedded := id)
            case ParseMain => s.c.(evParse := id, state := ParsingMain))
  }

  predicate NoClientEvents(s: Conn) {
    forall id | id in s.ev.pending :: s.ev.pending[id].OfServer()
  }

  lemma ScheduledKeeps(s: Conn, a: Action)
    requires !a.OfServer()
    requires EventsInv(s) && NoClientEvents(s) && ClientInv(s)
    requires s.c.receiving && s.handshake.Finished? && !s.c.refused
    requires s.hist.stage.Idle? && StageInv(s) && ReceivedInv(s)
    requires s.c.state.ExpectingMain? ==> a.ParseMain?
    requires match a
             case RequestMain => true
             case RequestEmbedded => s.c.toRequest > 0 && (s.c.state.ParsingMain? || s.c.state.ExpectingEmbedded?)
             case ParseMain => s.c.toRequest == 0
    requires ScriptInv(Scheduled(s, a))
    ensures Inv(Scheduled(s, a))
  {
    var n := Scheduled(s, a);
    assert EventsInv(n);
    assert ClientInv(n);
  }

  /** What the client schedules when it has a whole object. */
  function AfterObject(s: Conn): Action {
    if s.c.state.ExpectingMain? then ParseMain
    else if s.c.toRequest > 0 then RequestEmbedded
    else RequestMain
  }

  lemma LastPartKeeps(s: Conn, k: nat)
    requires CanTake(s, k)
    requires s.hist.stage.Flowing? || s.hist.stage.Consuming?
    requires |s.down| - k + Held(s) == 0
    ensures Inv(Scheduled(Reported(s, k), AfterObject(s)))
  {
    ReportedIsResponse(s, k);
    var r := Reported(s, k);
    assert EventsInv(r) && NoClientEvents(r);
    assert r.c.requested + Embeds(0) == r.c.requested;
    ScheduledKeeps(r, AfterObject(s));
  }

  lemma ClientRecvSafe(s: Conn, st: Step)
    requires st.ClientRecv?
    requires Inv(s) && Enabled(s, st)
    ensures Safe(s, st)
  {
    var k := st.k;
    ReceiveEffect(s, k);
    var n := Taken(s, k);
    if n.c.toReceive > 0 {
      assert Next(s, st) == Ok(n);
      PartKeeps(s, k);
    } else {
      assert Next(s, st) == Ok(Scheduled(Reported(s, k), AfterObject(s)));
      LastPartKeeps(s, k);
    }
  }

  // ---- An event of the client fires --------------------------------------------------------------

  function Kind(a: Action): ContentType
    requires a.RequestMain? || a.RequestEmbedded?
  {
    if a.RequestMain? then MainObject else EmbeddedObject
  }

  /** The socket has taken a request of kind `t`. */
  function Requested(s: Conn, id: EventId, t: ContentType, now: uint64, requestSize: nat): Conn
    requires !t.NotSet?
    requires t.EmbeddedObject? ==> s.c.toRequest > 0
  {
    s.(c := s.c.(state := Expecting(t), toRequest := if t.MainObject? then s.c.toRequest else s.c.toRequest - 1,
                 requested := s.c.requested + [t], requestTs := s.c.requestTs + [now]),
       ev := Take(s.ev, id),
       up := s.up + [RequestPacket(t, now, requestSize)],
       hist := s.hist.(stage := if s.srvAccepted && s.srv.None? then Abandoned else Asked,
                       kind := t, ts := now, objectSize := 0))
  }

  predicate Fires(s: Conn, id: EventId, a: Action) {
    Inv(s) && Holds(s, id, a)
  }

  lemma OnlyClientEvent(s: Conn, id: EventId, a: Action)
    requires Fires(s, id, a) && !a.OfServer()
    ensures EventOk(s, id, a) && s.hist.stage.Idle? && s.c.receiving && s.handshake.Finished? && !s.c.refused
    ensures NoClientEvents(s.(ev := Take(s.ev, id)))
  {
    assert EventOk(s, id, s.ev.pending[id]);
  }

  lemma EmbedsSplit(n: nat)
    requires n > 0
    ensures Embeds(n) == [EmbeddedObject] + Embeds(n - 1)
  {
  }

  lemma RequestedScript(s: Conn, id: EventId, t: ContentType, now: uint64, requestSize: nat)
    requires ScriptInv(s) && !t.NotSet? && (t.EmbeddedObject? ==> s.c.toRequest > 0)
    requires if t.MainObject? then s.c.state.Connecting? || s.c.state.Reading?
             else s.c.state.ParsingMain? || s.c.state.ExpectingEmbedded?
    ensures ScriptInv(Requested(s, id, t, now, requestSize))
  {
    if t.EmbeddedObject? {
      EmbedsSplit(s.c.toRequest);
      assert s.c.requested + [t] + Embeds(s.c.toRequest - 1) == s.c.requested + Embeds(s.c.toRequest);
      assert s.c.requested + Embeds(s.c.toRequest) == Pages(s.c.draws);
    }
  }

  lemma RequestedKeeps(s: Conn, id: EventId, a: Action, now: uint64, requestSize: nat)
    requires Fires(s, id, a) && (a.RequestMain? || a.RequestEmbedded?)
    requires a.RequestEmbedded? ==> s.c.toRequest > 0
    ensures Inv(Requested(s, id, Kind(a), now, requestSize))
  {
    OnlyClientEvent(s, id, a);
    var n := Requested(s, id, Kind(a), now, requestSize);
    HeaderRoundTrip(Header(Code(Kind(a)), 0, now, 0), Zeros(requestSize));
    assert EventsInv(n);
    assert StageInv(n);
    RequestedScript(s, id, Kind(a), now, requestSize);
  }

  /** The socket has refused a request, and nothing is left that could repeat it. */
  function Refused(s: Conn, id: EventId): Conn {
    s.(c := s.c.(refused := true), ev := Take(s.ev, id))
  }

  lemma RefusedKeeps(s: Conn, id: EventId, a: Action)
    requires Fires(s, id, a) && !a.OfServer()
    ensures Inv(Refused(s, id))
  {
    OnlyClientEvent(s, id, a);
    assert EventsInv(Refused(s, id));
  }

  /** What a firing of a request event leads to when the socket takes the request. */
  lemma AcceptedEffect(s: Conn, st: Step, a: Action)
    requires st.ClientFires? && Enabled(s, st) && st.accepted && s.ev.pending[st.id] == a && s.c.toReceive == 0
    requires match a
             case RequestMain => s.c.state.Connecting? || s.c.state.Reading?
             case RequestEmbedded => (s.c.state.ParsingMain? || s.c.state.ExpectingEmbedded?) && s.c.toRequest > 0
             case _ => false
    ensures Next(s, st) == Ok(Requested(s, st.id, Kind(a), st.now, st.requestSize))
  {
    WentThroughIffAccepted(true, PacketSize(RequestPacket(Kind(a), st.now, st.requestSize)));
  }

  /** And when it does not. */
  lemma RefusedEffect(s: Conn, st: Step, a: Action)
    requires st.ClientFires? && Enabled(s, st) && !st.accepted && s.ev.pending[st.id] == a
    requires match a
             case RequestMain => s.c.state.Connecting? || s.c.state.Reading?
             case RequestEmbedded => (s.c.state.ParsingMain? || s.c.state.ExpectingEmbedded?) && s.c.toRequest > 0
             case _ => false
    ensures Next(s, st) == Ok(Refused(s, st.id))
  {
    var packet := RequestPacket(Kind(a), st.now, st.requestSize);
    assert |packet| < 0x8000_0000;
    WentThroughIffAccepted(false, PacketSize(packet));
    assert s.up + [] == s.up;
  }

  lemma RequestSafe(s: Conn, st: Step)
    requires st.ClientFires? && Inv(s) && Enabled(s, st)
    requires s.ev.pending[st.id].RequestMain? || s.ev.pending[st.id].RequestEmbedded?
    ensures Safe(s, st)
  {
    var a := s.ev.pending[st.id];
    OnlyClientEvent(s, st.id, a);
    if st.accepted {
      AcceptedEffect(s, st, a);
      RequestedKeeps(s, st.id, a, st.now, st.requestSize);
    } else {
      RefusedEffect(s, st, a);
      RefusedKeeps(s, st.id, a);
    }
  }

  /** The parse has drawn its count. */
  function Parsed(s: Conn, id: EventId, count: uint32): Conn {
    s.(c := s.c.(toRequest := count, draws := s.c.draws + [count]), ev := Take(s.ev, id))
  }

  lemma ParsedScript(s: Conn, id: EventId, count: uint32, a: Action)
    requires s.c.state.ParsingMain? && s.c.toRequest == 0 && ScriptInv(s) && id in s.ev.pending
    requires a == if count > 0 then RequestEmbedded else RequestMain
    ensures ScriptInv(Scheduled(Parsed(s, id, count), a))
  {
    var p := Parsed(s, id, count);
    assert p.c.draws[..|p.c.draws| - 1] == s.c.draws;
    assert Pages(s.c.draws) + [MainObject] + Embeds(0) == Pages(s.c.draws) + [MainObject];
  }

  lemma ParseSafe(s: Conn, st: Step)
    requires st.ClientFires? && Inv(s) && Enabled(s, st) && s.ev.pending[st.id].ParseMain?
    ensures Safe(s, st)
  {
    OnlyClientEvent(s, st.id, ParseMain);
    var p := Parsed(s, st.id, st.count);
    var a := if st.count > 0 then RequestEmbedded else RequestMain;
    assert Next(s, st) == Ok(Scheduled(p, a));
    ParsedScript(s, st.id, st.count, a);
    assert EventsInv(p);
    ScheduledKeeps(p, a);
  }

  lemma ClientFiresSafe(s: Conn, st: Step)
    requires st.ClientFires?
    requires Inv(s) && Enabled(s, st)
    ensures Safe(s, st)
  {
    if s.ev.pending[st.id].ParseMain? {
      ParseSafe(s, st);
    } else {
      RequestSafe(s, st);
    }
  }

  // ---- All steps ---------------------------------------------------------------------------------

  predicate OfServer(st: Step) {
    || st.ServerAccept? || st.ServerRecv? || st.ServerFires? || st.ServerSend?
    || st.ServerNormalClose? || st.ServerErrorClose?
  }

  lemma ClientStepSafe(s: Conn, st: Step)
    requires Inv(s) && Enabled(s, st) && !OfServer(st)
    ensures Safe(s, st)
  {
    match st
    case ClientStart => ClientStartSafe(s);
    case ClientConnected => ClientConnectedSafe(s);
    case ClientConnectFailed => ClientConnectFailedSafe(s);
    case ClientStop => ClientStopSafe(s);
    case ClientClosed => ClientClosedSafe(s);
    case ClientRecv(_) => ClientRecvSafe(s, st);
    case ClientFires(_, _, _, _, _) => ClientFiresSafe(s, st);
  }

  lemma ServerStepSafe(s: Conn, st: Step)
    requires Inv(s) && Enabled(s, st) && OfServer(st) && !st.ServerSend?
    ensures Safe(s, st)
  {
    match st
    case ServerAccept => ServerAcceptSafe(s);
    case ServerRecv => ServerRecvSafe(s);
    case ServerFires(_, _, _, _, _) => ServerFiresSafe(s, st);
    case ServerNormalClose => ServerCloseSafe(s);
    case ServerErrorClose => ServerCloseSafe(s);
  }

  /**
   A step reaches a fatal error or a failed assertion of either program exactly when it looks up an entry
   that it has erased, and every other step keeps the invariant.
   */
  lemma StepSafe(s: Conn, st: Step)
    requires Inv(s) && Enabled(s, st)
    ensures if LooksUpErased(s, st) then Next(s, st).Fatal? else Safe(s, st)
  {
    if st.ServerSend? {
      ServerSendSafe(s, st);
    } else if OfServer(st) {
      ServerStepSafe(s, st);
    } else {
      ClientStepSafe(s, st);
    }
  }
}
