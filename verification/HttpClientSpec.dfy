/**
 What each callback of ThreeGppHttpClient does to the fields of the client, to the event list and to
 the packet it hands to its socket.  Simulation time, random draws and the socket's verdict on a
 packet are parameters.
 */
module HttpClientSpec {
  import opened Words
  import opened HttpHeader
  import opened HttpEvents

  datatype State =
    | NotStarted | Connecting | ExpectingMain | ExpectingEmbedded | ParsingMain | Reading | Stopped

  /**
   The fields of the client.  `receiving` says that the receive and connect callbacks are set.  The
   last five fields record what the trace sources show: the requests that the socket accepted with
   their time stamps, the counts drawn at each parse, the objects reported complete, and whether
   some request was refused.
   */
  datatype Client = Client(
    state: State,
    toReceive: uint32,
    constructed: Option<Bytes>,
    objectClientTs: uint64,
    objectServerTs: uint64,
    toRequest: uint32,
    evMain: EventId,
    evEmbedded: EventId,
    evParse: EventId,
    receiving: bool,
    requested: seq<ContentType>,
    requestTs: seq<uint64>,
    draws: seq<uint32>,
    rxObjects: seq<Option<Bytes>>,
    refused: bool)

  const INITIAL_CLIENT :=
    Client(NotStarted, 0, None, 0, 0, 0, 0, 0, 0, false, [], [], [], [], false)

  /** What `Send` returns: the whole size, converted to `int`, or -1. */
  function SendReturns(accepted: bool, size: uint32): int {
    if accepted then ToInt32(size) else -1
  }

  /** The callers' test `actualBytes == static_cast<int>(packetSize)`. */
  predicate WentThrough(accepted: bool, size: uint32) {
    SendReturns(accepted, size) == ToInt32(size)
  }

  /** The test tells success from refusal for every packet size but one. */
  lemma WentThroughIffAccepted(accepted: bool, size: uint32)
    ensures WentThrough(accepted, size) <==> accepted || size == 0xFFFF_FFFF
  {
    assert ToInt32(0xFFFF_FFFF) == -1;
  }

  function PacketSize(p: Bytes): uint32 {
    |p| % TWO_32
  }

  function SwitchToState(c: Client, state: State): Result<Client> {
    if (state.ExpectingMain? || state.ExpectingEmbedded?) && c.toReceive > 0
    then Fatal("Cannot start a new receiving session")
    else Ok(c.(state := state))
  }

  function CancelAllPendingEvents(c: Client, ev: Events): Events {
    Cancel(Cancel(Cancel(ev, c.evMain), c.evEmbedded), c.evParse)
  }

  function OpenConnection(c: Client): Result<Client> {
    if c.state.NotStarted? || c.state.ExpectingEmbedded? || c.state.ParsingMain? || c.state.Reading?
    then
      var c1 :- SwitchToState(c, Connecting);
      Ok(c1.(receiving := true))
    else Fatal("Invalid state for OpenConnection()")
  }

  function StartApplication(c: Client): Result<Client> {
    if c.state.NotStarted? then OpenConnection(c) else Fatal("Invalid state for StartApplication()")
  }

  function StopApplication(c: Client, ev: Events): (Client, Events) {
    (c.(state := Stopped, receiving := false), CancelAllPendingEvents(c, ev))
  }

  function ConnectionSucceeded(c: Client, ev: Events): Result<(Client, Events)> {
    if c.state.Connecting? then
      if c.toRequest != 0 then Fatal("m_embeddedObjectsToBeRequested == 0")
      else
        var (ev1, id) := Schedule(ev, RequestMain);
        Ok((c.(evMain := id), ev1))
    else Fatal("Invalid state for ConnectionSucceeded()")
  }

  function ConnectionFailed(c: Client): Result<Client> {
    if c.state.Connecting? then Ok(c) else Fatal("Invalid state for ConnectionFailed()")
  }

  function RequestPacket(t: ContentType, now: uint64, requestSize: nat): Bytes {
    Serialize(Header(Code(t), 0, now, 0)) + Zeros(requestSize)
  }

  /** A request reads back as one of its kind and time, without content length, in front of its size in zeros. */
  lemma RequestReads(t: ContentType, now: uint64, requestSize: nat)
    ensures var p := RequestPacket(t, now, requestSize);
            && |p| == HEADER_SIZE + requestSize
            && GetContentType(Deserialize(p)) == Ok(t)
            && Deserialize(p).contentLength == 0 && Deserialize(p).clientTs == now
            && forall i | HEADER_SIZE <= i < |p| :: p[i] == 0
  {
    HeaderRoundTrip(Header(Code(t), 0, now, 0), Zeros(requestSize));
  }

  /** The socket has taken a request of kind `t`. */
  function RequestTaken(c: Client, t: ContentType, next: State, now: uint64): Result<Client> {
    var c1 :- SwitchToState(c, next);
    Ok(c1.(requested := c.requested + [t], requestTs := c.requestTs + [now]))
  }

  function RequestMainObject(c: Client, now: uint64, requestSize: nat, accepted: bool): Result<(Client, Option<Bytes>)>
  {
    if c.state.Connecting? || c.state.Reading? then
      var packet := RequestPacket(MainObject, now, requestSize);
      var sent := if accepted then Some(packet) else None;
      if WentThrough(accepted, PacketSize(packet)) then
        var c1 :- RequestTaken(c, MainObject, ExpectingMain, now);
        Ok((c1, sent))
      else
        Ok((c.(refused := true), sent))
    else Fatal("Invalid state for RequestMainObject()")
  }

  function RequestEmbeddedObject(c: Client, now: uint64, requestSize: nat, accepted: bool)
    : Result<(Client, Option<Bytes>)>
  {
    if c.state.Connecting? || c.state.ParsingMain? || c.state.ExpectingEmbedded? then
      if c.toRequest > 0 then
        var packet := RequestPacket(EmbeddedObject, now, requestSize);
        var sent := if accepted then Some(packet) else None;
        if WentThrough(accepted, PacketSize(packet)) then
          var c1 :- RequestTaken(c.(toRequest := c.toRequest - 1), EmbeddedObject, ExpectingEmbedded, now);
          Ok((c1, sent))
        else
          Ok((c.(refused := true), sent))
      else
        Ok((c, None))
    else Fatal("Invalid state for RequestEmbeddedObject()")
  }

  /** The first packet of an object carries the header, which is removed to learn the object's size. */
  function TakeHeader(c: Client, packet: Bytes): Result<(Client, Bytes)> {
    if c.toReceive == 0 then
      if |packet| < HEADER_SIZE then Fatal("header reaches past the end of the packet")
      else
        var h := Deserialize(packet);
        var content := packet[HEADER_SIZE..];
        Ok((c.(toReceive := h.contentLength, objectClientTs := h.clientTs, objectServerTs := h.serverTs,
               constructed := Some(Serialize(h) + content)), content))
    else Ok((c, packet))
  }

  function Receive(c: Client, packet: Bytes): Result<Client> {
    var firstPacket := c.toReceive == 0;
    var (c1, content) :- TakeHeader(c, packet);
    if c1.toReceive < |content| then
      Ok(c1.(toReceive := 0, constructed := None))
    else
      var c2 := c1.(toReceive := c1.toReceive - |content|);
      if firstPacket then Ok(c2)
      else match c2.constructed
        case None => Fatal("null m_constructedPacket")
        case Some(p) => Ok(c2.(constructed := Some(p + content)))
  }

  /** A whole object has arrived: report it and reset the time stamps. */
  function ReportObject(c: Client): Client {
    c.(rxObjects := c.rxObjects + [c.constructed], objectClientTs := 0, objectServerTs := 0)
  }

  function ReceiveMainObject(c: Client, ev: Events, packet: Bytes): Result<(Client, Events)> {
    if c.state.ExpectingMain? then
      var c1 :- Receive(c, packet);
      if c1.toReceive > 0 then Ok((c1, ev)) else EnterParsingTime(ReportObject(c1), ev)
    else Fatal("Invalid state for ReceiveMainObject()")
  }

  function ReceiveEmbeddedObject(c: Client, ev: Events, packet: Bytes): Result<(Client, Events)> {
    if c.state.ExpectingEmbedded? then
      var c1 :- Receive(c, packet);
      if c1.toReceive > 0 then Ok((c1, ev))
      else
        var c2 := ReportObject(c1);
        if c2.toRequest > 0 then
          var (ev1, id) := Schedule(ev, RequestEmbedded);
          Ok((c2.(evEmbedded := id), ev1))
        else EnterReadingTime(c2, ev)
    else Fatal("Invalid state for ReceiveEmbeddedObject()")
  }

  /** One round of the loop in ReceivedDataCallback. */
  function ReceivedPacket(c: Client, ev: Events, packet: Bytes): Result<(Client, Events)> {
    match c.state
    case ExpectingMain => ReceiveMainObject(c, ev, packet)
    case ExpectingEmbedded => ReceiveEmbeddedObject(c, ev, packet)
    case _ => Fatal("Invalid state for ReceivedData()")
  }

  /** The whole loop: the packets that RecvFrom returns until it has none left or returns an empty one. */
  function ReceivedData(c: Client, ev: Events, packets: seq<Bytes>): Result<(Client, Events)>
    decreases |packets|
  {
    if packets == [] || packets[0] == [] then Ok((c, ev))
    else
      var (c1, ev1) :- ReceivedPacket(c, ev, packets[0]);
      ReceivedData(c1, ev1, packets[1..])
  }

  function EnterParsingTime(c: Client, ev: Events): Result<(Client, Events)> {
    if c.state.ExpectingMain? then
      var (ev1, id) := Schedule(ev, ParseMain);
      var c1 :- SwitchToState(c.(evParse := id), ParsingMain);
      Ok((c1, ev1))
    else Fatal("Invalid state for EnterParsingTime()")
  }

  function ParseMainObject(c: Client, ev: Events, count: uint32): Result<(Client, Events)> {
    if c.state.ParsingMain? then
      var c1 := c.(toRequest := count, draws := c.draws + [count]);
      if count > 0 then
        var (ev1, id) := Schedule(ev, RequestEmbedded);
        Ok((c1.(evEmbedded := id), ev1))
      else EnterReadingTime(c1, ev)
    else Fatal("Invalid state for ParseMainObject()")
  }

  function EnterReadingTime(c: Client, ev: Events): Result<(Client, Events)> {
    if c.state.ExpectingEmbedded? || c.state.ParsingMain? then
      var (ev1, id) := Schedule(ev, RequestMain);
      var c1 :- SwitchToState(c.(evMain := id), Reading);
      Ok((c1, ev1))
    else Fatal("Invalid state for EnterReadingTime()")
  }

  // ---- What each callback refuses ---------------------------------------------------------------------------

  /** A new object is never expected before the last one is complete. */
  lemma RequestsRefused(c: Client, now: uint64, requestSize: nat, accepted: bool)
    requires requestSize + HEADER_SIZE < 0x8000_0000
    ensures RequestMainObject(c, now, requestSize, accepted).Ok?
       <==> (c.state.Connecting? || c.state.Reading?) && !(accepted && c.toReceive > 0)
    ensures RequestEmbeddedObject(c, now, requestSize, accepted).Ok?
       <==> && (c.state.Connecting? || c.state.ParsingMain? || c.state.ExpectingEmbedded?)
            && !(accepted && c.toReceive > 0 && c.toRequest > 0)
  {
    WentThroughIffAccepted(accepted, HEADER_SIZE + requestSize);
  }

  /** Every other callback has one state, or two, in which it may be called. */
  lemma StatesRefused(c: Client, ev: Events, count: uint32)
    ensures StartApplication(c).Ok? <==> c.state.NotStarted?
    ensures OpenConnection(c).Ok?
       <==> c.state.NotStarted? || c.state.ExpectingEmbedded? || c.state.ParsingMain? || c.state.Reading?
    ensures ConnectionSucceeded(c, ev).Ok? <==> c.state.Connecting? && c.toRequest == 0
    ensures ConnectionFailed(c).Ok? <==> c.state.Connecting?
    ensures EnterParsingTime(c, ev).Ok? <==> c.state.ExpectingMain?
    ensures ParseMainObject(c, ev, count).Ok? <==> c.state.ParsingMain?
    ensures EnterReadingTime(c, ev).Ok? <==> c.state.ExpectingEmbedded? || c.state.ParsingMain?
  {
  }

  /** The content bytes that an object is still expected to have, and those in the packet. */
  function Expected(c: Client, packet: Bytes): nat
    requires c.toReceive == 0 ==> |packet| >= HEADER_SIZE
  {
    if c.toReceive == 0 then Deserialize(packet).contentLength else c.toReceive
  }

  function ContentIn(c: Client, packet: Bytes): nat
    requires c.toReceive == 0 ==> |packet| >= HEADER_SIZE
  {
    if c.toReceive == 0 then |packet| - HEADER_SIZE else |packet|
  }

  /**
   A packet is refused only when it begins an object without a whole header, or continues one of which nothing
   has been kept.  One with more than is expected ends the object and throws it away; any other is added.
   */
  lemma ReceiveAccounts(c: Client, packet: Bytes)
    ensures Receive(c, packet).Ok?
       <==> if c.toReceive == 0 then |packet| >= HEADER_SIZE else |packet| <= c.toReceive ==> c.constructed.Some?
    ensures Receive(c, packet).Ok? ==>
              var r, expected, n := Receive(c, packet).value, Expected(c, packet), ContentIn(c, packet);
              if n > expected then r.toReceive == 0 && r.constructed == None
              else
                && r.toReceive == expected - n && r.constructed.Some?
                && |r.constructed.value| == n + if c.toReceive == 0 then HEADER_SIZE else |c.constructed.value|
  {
  }

  lemma PacketsRefused(c: Client, ev: Events, packet: Bytes)
    ensures ReceivedPacket(c, ev, packet).Ok?
       <==> (c.state.ExpectingMain? || c.state.ExpectingEmbedded?) && Receive(c, packet).Ok?
  {
  }
}
