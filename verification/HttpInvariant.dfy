/** The invariant of the composed HTTP system: what every step that is not fatal keeps. */
module HttpInvariant {
  import opened Words
  import opened HttpHeader
  import opened HttpEvents
  import opened HttpClientSpec
  import Server = HttpServerSpec
  import opened HttpSystem

  /** A pending event is held by the handle for its kind, and its handler accepts the present state. */
  predicate EventOk(s: Conn, id: EventId, a: Action) {
    match a
    case RequestMain =>
      id == s.c.evMain && (s.c.state.Connecting? || s.c.state.Reading?) && s.handshake.Finished?
    case ParseMain =>
      id == s.c.evParse && s.c.state.ParsingMain? && s.c.toRequest == 0
    case RequestEmbedded =>
      && id == s.c.evEmbedded && (s.c.state.ParsingMain? || s.c.state.ExpectingEmbedded?)
      && s.c.toRequest > 0 && s.hist.stage.Idle?
    case ServeMain => ServeOk(s, id) && s.hist.kind.MainObject?
    case ServeEmbedded => ServeOk(s, id) && s.hist.kind.EmbeddedObject?
  }

  predicate ServeOk(s: Conn, id: EventId) {
    s.srv.Some? && id == s.srv.value.nextServe && s.hist.stage.Generating?
  }

  /** The server's handle is none of the client's, so neither side ever cancels the other's event. */
  predicate HandlesInv(s: Conn) {
    && s.c.evMain < s.ev.next && s.c.evEmbedded < s.ev.next && s.c.evParse < s.ev.next
    && (s.srv.Some? ==>
          var id := s.srv.value.nextServe;
          id < s.ev.next && (id != 0 ==> id != s.c.evMain && id != s.c.evEmbedded && id != s.c.evParse))
  }

  predicate EventsInv(s: Conn) {
    && 0 < s.ev.next
    && HandlesInv(s)
    && forall id | id in s.ev.pending :: 0 < id < s.ev.next && EventOk(s, id, s.ev.pending[id])
  }

  predicate ClientInv(s: Conn) {
    && !s.hist.was.Stopped?
    && (s.c.receiving <==> !s.c.state.NotStarted? && !s.c.state.Stopped?)
    && (s.c.state.Stopped? ==> s.hist.cut)
    && (s.c.toReceive == 0 ==> s.c.objectClientTs == 0 && s.c.objectServerTs == 0)
    && (s.handshake.Unopened? <==> Phase(s).NotStarted?)
    && (s.handshake.Opening? ==> Phase(s).Connecting?)
    && (s.handshake.Unopened? ==> !s.srvAccepted && s.c == INITIAL_CLIENT)
    && (s.srv.Some? ==> s.srvAccepted && s.hist.lost == 0)
    && (s.srv.Some? && s.srv.value.isClosing ==> s.hist.cut && s.srv.value.size > 0)
    && (!s.srvAccepted ==> s.hist.lost == 0 && (s.hist.stage.Idle? || s.hist.stage.Asked?))
    && (s.srvAccepted && s.srv.None? ==> s.hist.cut)
  }

  /** Content bytes that have not yet been accepted by the server's socket. */
  function Held(s: Conn): nat {
    if s.srv.Some? then s.srv.value.size else s.hist.lost
  }

  predicate Answers(h: Header, s: Conn) {
    && h.contentType == Code(s.hist.kind)
    && h.contentLength == s.hist.objectSize
    && h.clientTs == s.hist.ts
  }

  predicate GoodSize(n: nat) {
    1 <= n && n + HEADER_SIZE < 0x8000_0000
  }

  predicate BufferIs(s: Conn, hasTxedPart: bool) {
    s.srv.Some? ==>
      && s.srv.value.hasTxedPart == hasTxedPart
      && s.srv.value.contentType == s.hist.kind
      && s.srv.value.clientTs == s.hist.ts
  }

  predicate Quiet(s: Conn) {
    s.up == [] && s.down == [] && s.c.toReceive == 0
  }

  /** Where the request or response under way is, for each stage of an exchange. */
  predicate StageInv(s: Conn) {
    match s.hist.stage
    case Idle => Quiet(s) && (s.srv.Some? ==> s.srv.value.size == 0)
    case Asked =>
      && |s.up| == 1 && s.down == [] && s.c.toReceive == 0
      && |s.up[0]| >= HEADER_SIZE
      && s.up[0][..HEADER_SIZE] == Serialize(Header(Code(s.hist.kind), 0, s.hist.ts, 0))
      && (s.srv.Some? ==> s.srv.value.size == 0)
      && (s.srv.None? ==> !s.srvAccepted)
    case Generating =>
      && Quiet(s) && s.srv.Some? && s.srv.value.size == 0 && s.srv.value.clientTs == s.hist.ts
      && s.srv.value.nextServe in s.ev.pending
    case Buffered =>
      && Quiet(s) && s.srv.Some? && BufferIs(s, false)
      && GoodSize(s.hist.objectSize) && s.srv.value.size == s.hist.objectSize
    case Flowing(h) =>
      && s.up == [] && s.c.toReceive == 0 && BufferIs(s, true)
      && GoodSize(s.hist.objectSize) && Answers(h, s)
      && |s.down| > HEADER_SIZE && s.down == Serialize(h) + Zeros(|s.down| - HEADER_SIZE)
      && |s.down| - HEADER_SIZE + Held(s) == s.hist.objectSize
    case Consuming(h) =>
      && s.up == [] && BufferIs(s, true)
      && GoodSize(s.hist.objectSize) && Answers(h, s)
      && s.down == Zeros(|s.down|)
      && 0 < s.c.toReceive <= s.hist.objectSize && s.c.toReceive == |s.down| + Held(s)
      && s.c.constructed == Some(Serialize(h) + Zeros(s.hist.objectSize - s.c.toReceive))
      && s.c.objectClientTs == h.clientTs && s.c.objectServerTs == h.serverTs
    case Abandoned => s.srv.None? && s.srvAccepted && s.down == [] && s.c.toReceive == 0 && |s.up| <= 1
  }

  function Expecting(t: ContentType): State
    requires !t.NotSet?
  {
    if t.MainObject? then ExpectingMain else ExpectingEmbedded
  }

  predicate ExchangeInv(s: Conn) {
    && StageInv(s)
    && (if s.hist.stage.Idle? then !Phase(s).ExpectingMain?
        else !s.hist.kind.NotSet? && Phase(s) == Expecting(s.hist.kind))
  }

  // ---- The requests follow the pages -------------------------------------------------------------

  function Embeds(n: nat): seq<ContentType> {
    seq(n, _ => EmbeddedObject)
  }

  /** Main E^k1 Main E^k2 ..., one page for each count drawn. */
  function Pages(draws: seq<uint32>): seq<ContentType> {
    if draws == [] then [] else Pages(draws[..|draws| - 1]) + [MainObject] + Embeds(draws[|draws| - 1])
  }

  /** The requests accepted so far, for a client in a given phase that has `left` more to make. */
  predicate FollowsPages(phase: State, requested: seq<ContentType>, draws: seq<uint32>, left: nat) {
    match phase
    case ExpectingMain => requested == Pages(draws) + [MainObject] && left == 0
    case ParsingMain =>
      if left == 0 then requested == Pages(draws) + [MainObject]
      else requested + Embeds(left) == Pages(draws)
    case ExpectingEmbedded => requested + Embeds(left) == Pages(draws)
    case _ => requested == Pages(draws) && left == 0
  }

  predicate ScriptInv(s: Conn) {
    FollowsPages(Phase(s), s.c.requested, s.c.draws, s.c.toRequest)
  }

  // ---- The objects received answer the requests ----------------------------------------------------

  /** A complete object of the requested kind, carrying its request's time stamp back. */
  predicate IsResponse(o: Option<Bytes>, t: ContentType, ts: uint64) {
    && o.Some? && |o.value| > HEADER_SIZE
    && var h := Deserialize(o.value);
       && h.contentType == Code(t) && h.clientTs == ts
       && o.value == Serialize(h) + Zeros(h.contentLength)
  }

  predicate AllAnswered(objects: seq<Option<Bytes>>, kinds: seq<ContentType>, stamps: seq<uint64>)
    requires |objects| <= |kinds| == |stamps|
  {
    forall i | 0 <= i < |objects| :: IsResponse(objects[i], kinds[i], stamps[i])
  }

  /** Every request but the one under way has been answered, in order. */
  predicate InStep(idle: bool, kind: ContentType, ts: uint64,
                   kinds: seq<ContentType>, stamps: seq<uint64>, objects: seq<Option<Bytes>>)
  {
    && |stamps| == |kinds| == |objects| + (if idle then 0 else 1)
    && (!idle ==> kind == kinds[|objects|] && ts == stamps[|objects|])
    && AllAnswered(objects, kinds, stamps)
  }

  predicate ReceivedInv(s: Conn) {
    InStep(s.hist.stage.Idle?, s.hist.kind, s.hist.ts, s.c.requested, s.c.requestTs, s.c.rxObjects)
  }

  // ---- Nothing stalls except after a refusal or a close --------------------------------------------

  predicate Holds(s: Conn, id: EventId, a: Action) {
    id in s.ev.pending && s.ev.pending[id] == a
  }

  predicate ClientHasEvent(s: Conn) {
    || Holds(s, s.c.evMain, RequestMain)
    || Holds(s, s.c.evEmbedded, RequestEmbedded)
    || Holds(s, s.c.evParse, ParseMain)
  }

  predicate LivenessInv(s: Conn) {
    && (s.c.refused ==> s.hist.stage.Idle? && !ClientHasEvent(s) && s.handshake.Finished?)
    && (!s.c.refused && !s.hist.cut && s.handshake.Finished? && s.hist.stage.Idle? ==> ClientHasEvent(s))
  }

  predicate Inv(s: Conn) {
    EventsInv(s) && ClientInv(s) && ExchangeInv(s) && ScriptInv(s) && ReceivedInv(s) && LivenessInv(s)
  }

  lemma InitialInv(log: Server.Logging)
    ensures Inv(Initial(log))
  {
  }
}
