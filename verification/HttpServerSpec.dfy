/**
 What the callbacks of ThreeGppHttpServer do to one socket's entry in the Tx buffer, to the event list
 and to the packet handed to that socket.  An absent entry is a socket the buffer does not know.
 */
module HttpServerSpec {
  import opened Words
  import opened HttpHeader
  import opened HttpEvents
  import opened HttpClientSpec

  datatype TxBuffer = TxBuffer(
    nextServe: EventId,
    clientTs: uint64,
    contentType: ContentType,
    size: uint32,
    isClosing: bool,
    hasTxedPart: bool)

  type Entry = Option<TxBuffer>

  const EMPTY_BUFFER := TxBuffer(0, 0, NotSet, 0, false, false)

  /**
   Whether the program is built with log messages and, if so, whether those of level INFO are shown.  The
   server looks things up for its messages, and the look-ups assert.
   */
  datatype Logging = NoLogs | LogsBuilt | LogsShown

  function AddSocket(e: Entry): Result<Entry> {
    if e.Some? then Fatal("Cannot add socket because it has already been added before")
    else Ok(Some(EMPTY_BUFFER))
  }

  /** RemoveSocket and CloseSocket both cancel the serving event and erase the entry. */
  function RemoveSocket(e: Entry, ev: Events): Result<(Entry, Events)> {
    if e.None? then Fatal("Socket cannot be found") else Ok((None, Cancel(ev, e.value.nextServe)))
  }

  function WriteNewObject(e: Entry, t: ContentType, objectSize: uint32): Result<Entry> {
    if t.NotSet? then Fatal("Unable to write an object without a proper Content-Type")
    else if objectSize == 0 then Fatal("Unable to write a zero-sized object")
    else if e.None? then Fatal("Socket cannot be found")
    else if e.value.size != 0 then
      Fatal("Cannot write to Tx buffer until the previous content has been completely sent")
    else Ok(Some(e.value.(contentType := t, size := objectSize, hasTxedPart := false)))
  }

  function RecordNextServe(e: Entry, id: EventId, clientTs: uint64): Result<Entry> {
    if e.None? then Fatal("Socket cannot be found")
    else Ok(Some(e.value.(nextServe := id, clientTs := clientTs)))
  }

  function DepleteBufferSize(e: Entry, ev: Events, amount: uint32): Result<(Entry, Events)> {
    if amount == 0 then Fatal("Unable to consume zero bytes")
    else if e.None? then Fatal("Socket cannot be found")
    else if e.value.size < amount then Fatal("The requested amount is larger than the current buffer size")
    else
      var b := e.value.(size := e.value.size - amount, hasTxedPart := true);
      if b.isClosing && b.size == 0 then RemoveSocket(Some(b), ev) else Ok((Some(b), ev))
  }

  function PrepareClose(e: Entry): Result<Entry> {
    if e.None? then Fatal("Socket cannot be found") else Ok(Some(e.value.(isClosing := true)))
  }

  /** `std::min(txBufferSize, socketSize - 22)`, where the subtraction is on 32-bit unsigned numbers. */
  function ContentToSend(size: uint32, available: uint32): uint32 {
    var room := ToUint32(available - HEADER_SIZE);
    if size < room then size else room
  }

  /** The header that goes in front of the first part of an object. */
  function ResponseHeader(b: TxBuffer, now: uint64): Header {
    Header(Code(b.contentType), b.size, b.clientTs, now)
  }

  function ResponsePacket(b: TxBuffer, contentSize: uint32, now: uint64): Bytes {
    (if b.hasTxedPart then [] else Serialize(ResponseHeader(b, now))) + Zeros(contentSize)
  }

  function ServeFromTxBuffer(e: Entry, ev: Events, available: uint32, accepted: bool, now: uint64, log: Logging)
    : Result<(Entry, Events, Bytes)>
  {
    if e.None? then Fatal("Socket cannot be found")
    else if e.value.size == 0 then Ok((e, ev, []))
    else
      var contentSize := ContentToSend(e.value.size, available);
      if contentSize == 0 then Ok((e, ev, []))
      else
        var packet := ResponsePacket(e.value, contentSize, now);
        var sent := if accepted then packet else [];
        if WentThrough(accepted, PacketSize(packet)) then
          var (e1, ev1) :- DepleteBufferSize(e, ev, contentSize);
          if log.LogsShown? && e1.None? then Fatal("Socket cannot be found") else Ok((e1, ev1, sent))
        else Ok((e, ev, sent))
  }

  function ServeNewObject(e: Entry, ev: Events, t: ContentType, objectSize: uint32,
                          available: uint32, accepted: bool, now: uint64, log: Logging)
    : Result<(Entry, Events, Bytes)>
  {
    var e1 :- WriteNewObject(e, t, objectSize);
    ServeFromTxBuffer(e1, ev, available, accepted, now, log)
  }

  function ServeAction(t: ContentType): Action
    requires !t.NotSet?
  {
    if t.MainObject? then ServeMain else ServeEmbedded
  }

  /** One round of the loop in ReceivedDataCallback. */
  function ReceivedPacket(e: Entry, ev: Events, packet: Bytes): Result<(Entry, Events)> {
    if |packet| < HEADER_SIZE then Fatal("header reaches past the end of the packet")
    else
      var h := Deserialize(packet);
      var t :- GetContentType(h);
      if t.NotSet? then Fatal("Invalid packet")
      else
        var (ev1, id) := Schedule(ev, ServeAction(t));
        var e1 :- RecordNextServe(e, id, h.clientTs);
        Ok((e1, ev1))
  }

  /** The whole loop: the packets that RecvFrom returns until it has none left or returns an empty one. */
  function ReceivedData(e: Entry, ev: Events, packets: seq<Bytes>): Result<(Entry, Events)>
    decreases |packets|
  {
    if packets == [] || packets[0] == [] then Ok((e, ev))
    else
      var (e1, ev1) :- ReceivedPacket(e, ev, packets[0]);
      ReceivedData(e1, ev1, packets[1..])
  }

  /** The content type that SendCallback looks up for its message once it has served the buffer. */
  function LookUpType(e: Entry): Result<ContentType> {
    if e.None? then Fatal("Socket cannot be found")
    else if e.value.contentType.NotSet? then Fatal("Invalid Tx buffer content type.")
    else Ok(e.value.contentType)
  }

  function SendCallback(e: Entry, ev: Events, available: uint32, accepted: bool, now: uint64, log: Logging)
    : Result<(Entry, Events, Bytes)>
  {
    if e.None? then Fatal("Socket cannot be found")
    else if e.value.size == 0 then Ok((e, ev, []))
    else
      var served :- ServeFromTxBuffer(e, ev, available, accepted, now, log);
      if log.NoLogs? then Ok(served)
      else
        var _ :- LookUpType(served.0);
        Ok(served)
  }

  function NormalClose(e: Entry, ev: Events): Result<(Entry, Events)> {
    if e.None? then Ok((e, ev))
    else if e.value.size == 0 then RemoveSocket(e, ev)
    else
      var e1 :- PrepareClose(e);
      Ok((e1, ev))
  }

  function ErrorClose(e: Entry, ev: Events): Result<(Entry, Events)> {
    if e.None? then Ok((e, ev)) else RemoveSocket(e, ev)
  }

  // ---- What the assertions refuse ---------------------------------------------------------------------------

  lemma BufferRefuses(e: Entry, ev: Events, t: ContentType, n: uint32, id: EventId, ts: uint64)
    ensures AddSocket(e).Ok? <==> e.None?
    ensures RemoveSocket(e, ev).Ok? <==> e.Some?
    ensures WriteNewObject(e, t, n).Ok? <==> e.Some? && e.value.size == 0 && !t.NotSet? && n > 0
    ensures RecordNextServe(e, id, ts).Ok? <==> e.Some?
    ensures DepleteBufferSize(e, ev, n).Ok? <==> e.Some? && 0 < n <= e.value.size
    ensures PrepareClose(e).Ok? <==> e.Some?
    ensures LookUpType(e).Ok? <==> e.Some? && !e.value.contentType.NotSet?
  {
  }

  /** A new entry holds nothing: no content and no type of it, no time stamp, and no event in any list. */
  lemma NewEntryHoldsNothing(e: Entry, ev: Events)
    requires AddSocket(e).Ok? && NO_EVENTS.next <= ev.next && forall id | id in ev.pending :: NO_EVENTS.next <= id
    ensures var b := AddSocket(e).value;
            && b.Some? && b.value.size == 0 && b.value.contentType.NotSet? && b.value.clientTs == 0
            && IsExpired(ev, b.value.nextServe) && !b.value.isClosing && !b.value.hasTxedPart
  {
  }

  /** A request is refused unless it has a whole header with one of the two content types. */
  lemma RequestsRefused(e: Entry, ev: Events, packet: Bytes)
    ensures ReceivedPacket(e, ev, packet).Ok?
       <==> && e.Some? && |packet| >= HEADER_SIZE
            && (Deserialize(packet).contentType == 1 || Deserialize(packet).contentType == 2)
  {
  }

  // ---- What one service of the buffer does, for every size of room in the socket --------------------

  /** An object whose response packet has a positive 32-bit size. */
  predicate Servable(b: TxBuffer) {
    0 < b.size && b.size + HEADER_SIZE < 0x8000_0000
  }

  /** The entry after `sent` more content bytes have been accepted. */
  function Depleted(b: TxBuffer, sent: nat): Entry
    requires sent <= b.size
  {
    if b.isClosing && sent == b.size then None
    else Some(b.(size := b.size - sent, hasTxedPart := true))
  }

  /** The content bytes that one call makes the socket accept. */
  function AcceptedContent(b: TxBuffer, available: uint32, accepted: bool): (n: nat)
    ensures n <= b.size
  {
    if accepted then ContentToSend(b.size, available) else 0
  }

  /** The socket takes all that is left of an object whose peer has asked to close, so the entry goes too. */
  predicate DrainsClosing(b: TxBuffer, available: uint32, accepted: bool) {
    b.isClosing && AcceptedContent(b, available, accepted) == b.size
  }

  /**
   The buffer shrinks by exactly the content that the socket accepted, the header goes out in front of
   the first accepted packet and of no other, and nothing else changes.  The message about the remaining
   bytes asserts an entry that has just been erased exactly when a closing entry is drained.
   */
  lemma ServeEffect(b: TxBuffer, ev: Events, available: uint32, accepted: bool, now: uint64, log: Logging)
    requires Servable(b)
    ensures var n := AcceptedContent(b, available, accepted);
            var r := ServeFromTxBuffer(Some(b), ev, available, accepted, now, log);
            && (r.Fatal? <==> log.LogsShown? && DrainsClosing(b, available, accepted))
            && (r.Ok? && n == 0 ==> r.value == (Some(b), ev, []))
            && (r.Ok? && n > 0 ==> r.value.0 == Depleted(b, n) && r.value.2 == ResponsePacket(b, n, now))
            && (r.Ok? ==> r.value.1 == if r.value.0.Some? then ev else Cancel(ev, b.nextServe))
  {
    var contentSize := ContentToSend(b.size, available);
    if contentSize > 0 {
      var packet := ResponsePacket(b, contentSize, now);
      assert |packet| < 0x8000_0000;
      WentThroughIffAccepted(accepted, PacketSize(packet));
    }
  }

  /**
   A transmission opportunity is fatal exactly when it drains a closing entry in a program built with log
   messages; otherwise it is one service of the buffer.
   */
  lemma SendCallbackFatalIff(b: TxBuffer, ev: Events, available: uint32, accepted: bool, now: uint64, log: Logging)
    requires Servable(b) && !b.contentType.NotSet?
    ensures var r := SendCallback(Some(b), ev, available, accepted, now, log);
            && (r.Fatal? <==> !log.NoLogs? && DrainsClosing(b, available, accepted))
            && (r.Ok? ==> r == ServeFromTxBuffer(Some(b), ev, available, accepted, now, log))
  {
    ServeEffect(b, ev, available, accepted, now, log);
  }

  /** With less room than a header the subtraction wraps, and the whole object is offered. */
  lemma OfferFitsIffRoomForHeader(size: uint32, available: uint32)
    requires 0 < size && size + HEADER_SIZE < 0x8000_0000
    ensures ContentToSend(size, available) + HEADER_SIZE <= available <==> available >= HEADER_SIZE
    ensures available < HEADER_SIZE ==> ContentToSend(size, available) == size
    ensures ContentToSend(size, available) == 0 <==> available == HEADER_SIZE
  {
  }

  // ---- Serving an object over many transmission opportunities --------------------------------------

  datatype Opportunity = Opportunity(available: uint32, accepted: bool, now: uint64)

  /** Once the entry is erased its callbacks are cleared, and the server hears of no more opportunities. */
  function ServeAll(e: Entry, ev: Events, ops: seq<Opportunity>, log: Logging): Result<(Entry, Events, Bytes)>
    decreases |ops|
  {
    if ops == [] || e.None? then Ok((e, ev, []))
    else
      var (e1, ev1, first) :- ServeFromTxBuffer(e, ev, ops[0].available, ops[0].accepted, ops[0].now, log);
      var (e2, ev2, rest) :- ServeAll(e1, ev1, ops[1..], log);
      Ok((e2, ev2, first + rest))
  }

  /** The opportunities at which an unfinished object moves on. */
  function Useful(ops: seq<Opportunity>): nat {
    if ops == [] then 0
    else Useful(ops[1..]) + if ops[0].accepted && ops[0].available != HEADER_SIZE then 1 else 0
  }

  function FirstUseful(ops: seq<Opportunity>): uint64 {
    if ops == [] then 0
    else if ops[0].accepted && ops[0].available != HEADER_SIZE then ops[0].now
    else FirstUseful(ops[1..])
  }

  /** What the socket has been given once `sent` content bytes of the object in `b` have gone out. */
  function Delivered(b: TxBuffer, sent: nat, firstTs: uint64): Bytes {
    if sent == 0 then []
    else (if b.hasTxedPart then [] else Serialize(ResponseHeader(b, firstTs))) + Zeros(sent)
  }

  lemma DeliveredInTurn(b: TxBuffer, b1: TxBuffer, n: nat, m: nat, ts: uint64, later: uint64)
    requires n > 0 && b1.hasTxedPart
    ensures Delivered(b, n, ts) + Delivered(b1, m, later) == Delivered(b, n + m, ts)
  {
    ZerosSplit(n + m, n);
    assert Delivered(b1, m, later) == Zeros(m);
  }

  /** What a call gives the socket, and what is left, as one step of `ServeAll`. */
  lemma ServeAllStep(b: TxBuffer, ev: Events, ops: seq<Opportunity>, n: nat, b1: TxBuffer, log: Logging)
    requires Servable(b) && ops != [] && n == AcceptedContent(b, ops[0].available, ops[0].accepted)
    requires b1 == if n == 0 then b else b.(size := b.size - n, hasTxedPart := true)
    ensures n > 0 <==> ops[0].accepted && ops[0].available != HEADER_SIZE
    ensures var r := ServeFromTxBuffer(Some(b), ev, ops[0].available, ops[0].accepted, ops[0].now, log);
            if b.isClosing && n == b.size then
              if log.LogsShown? then r.Fatal?
              else r == Ok((None, Cancel(ev, b.nextServe), Delivered(b, n, ops[0].now)))
            else r == Ok((Some(b1), ev, Delivered(b, n, ops[0].now)))
  {
    ServeEffect(b, ev, ops[0].available, ops[0].accepted, ops[0].now, log);
    OfferFitsIffRoomForHeader(b.size, ops[0].available);
  }

  /** What is left of the entry when `left` bytes of the object in `b` remain. */
  function EntryLeft(b: TxBuffer, left: nat): Entry
    requires left <= b.size
  {
    if left == b.size then Some(b)
    else if b.isClosing && left == 0 then None
    else Some(b.(size := left, hasTxedPart := true))
  }

  /** All opportunities have been taken; `left` bytes of the object in `b` remain. */
  predicate DrainedTo(b: TxBuffer, ev: Events, ops: seq<Opportunity>, log: Logging,
                      r: Result<(Entry, Events, Bytes)>, left: nat)
  {
    && left <= b.size < TWO_32
    && (Useful(ops) >= b.size ==> left == 0)
    && (r.Fatal? <==> log.LogsShown? && EntryLeft(b, left).None?)
    && (r.Ok? ==>
          && r.value.0 == EntryLeft(b, left)
          && r.value.1 == (if EntryLeft(b, left).None? then Cancel(ev, b.nextServe) else ev)
          && r.value.2 == Delivered(b, b.size - left, FirstUseful(ops)))
  }

  lemma ServeAllUnfolds(b: TxBuffer, b1: TxBuffer, ev: Events, ops: seq<Opportunity>, log: Logging, first: Bytes)
    requires ops != []
    requires ServeFromTxBuffer(Some(b), ev, ops[0].available, ops[0].accepted, ops[0].now, log)
          == Ok((Some(b1), ev, first))
    ensures var r := ServeAll(Some(b1), ev, ops[1..], log);
            ServeAll(Some(b), ev, ops, log) == if r.Ok? then Ok((r.value.0, r.value.1, first + r.value.2)) else r
  {
  }

  lemma LeftFurther(b: TxBuffer, n: nat, b1: TxBuffer, left: nat)
    requires n <= b.size < TWO_32 && !(b.isClosing && 0 < n == b.size) && left <= b.size - n
    requires b1 == if n == 0 then b else b.(size := b.size - n, hasTxedPart := true)
    ensures EntryLeft(b1, left) == EntryLeft(b, left) && b1.nextServe == b.nextServe
  {
  }

  /** One more opportunity in front, at which `n` content bytes go out. */
  lemma DrainedMore(b: TxBuffer, ev: Events, ops: seq<Opportunity>, log: Logging, n: nat, b1: TxBuffer,
                    r: Result<(Entry, Events, Bytes)>, left: nat)
    requires ops != [] && n <= b.size < TWO_32 && !(b.isClosing && 0 < n == b.size)
    requires n > 0 <==> ops[0].accepted && ops[0].available != HEADER_SIZE
    requires b1 == if n == 0 then b else b.(size := b.size - n, hasTxedPart := true)
    requires DrainedTo(b1, ev, ops[1..], log, r, left)
    ensures var first := Delivered(b, n, ops[0].now);
            DrainedTo(b, ev, ops, log, if r.Ok? then Ok((r.value.0, r.value.1, first + r.value.2)) else r, left)
  {
    LeftFurther(b, n, b1, left);
    if r.Ok? {
      if n > 0 {
        DeliveredInTurn(b, b1, n, b1.size - left, ops[0].now, FirstUseful(ops[1..]));
      } else {
        assert [] + r.value.2 == r.value.2;
      }
    }
  }

  lemma DrainedFurther(b: TxBuffer, ev: Events, ops: seq<Opportunity>, log: Logging, n: nat, b1: TxBuffer, left: nat)
    requires Servable(b) && ops != [] && n == AcceptedContent(b, ops[0].available, ops[0].accepted)
    requires !(b.isClosing && n == b.size)
    requires b1 == if n == 0 then b else b.(size := b.size - n, hasTxedPart := true)
    requires DrainedTo(b1, ev, ops[1..], log, ServeAll(Some(b1), ev, ops[1..], log), left)
    ensures DrainedTo(b, ev, ops, log, ServeAll(Some(b), ev, ops, log), left)
  {
    ServeAllStep(b, ev, ops, n, b1, log);
    ServeAllUnfolds(b, b1, ev, ops, log, Delivered(b, n, ops[0].now));
    DrainedMore(b, ev, ops, log, n, b1, ServeAll(Some(b1), ev, ops[1..], log), left);
  }

  /** The opportunity that drains a closing entry is the last. */
  lemma DrainedAtOnce(b: TxBuffer, ev: Events, ops: seq<Opportunity>, log: Logging)
    requires Servable(b) && ops != [] && DrainsClosing(b, ops[0].available, ops[0].accepted)
    ensures DrainedTo(b, ev, ops, log, ServeAll(Some(b), ev, ops, log), 0)
  {
    ServeAllStep(b, ev, ops, b.size, b.(size := 0, hasTxedPart := true), log);
    if !log.LogsShown? {
      var first := Delivered(b, b.size, ops[0].now);
      assert first + [] == first;
    }
  }

  /**
   Whatever the sizes and verdicts of the opportunities, the socket gets one header and then exactly the
   content that has left the buffer; enough useful opportunities drain it; and an entry whose peer has
   asked to close is erased, with its event, when the last byte has gone out and no earlier.
   */
  lemma {:induction false} ServeAllDelivers(b: TxBuffer, ev: Events, ops: seq<Opportunity>, log: Logging)
    returns (left: nat)
    requires b.size + HEADER_SIZE < 0x8000_0000
    ensures DrainedTo(b, ev, ops, log, ServeAll(Some(b), ev, ops, log), left)
    decreases |ops|
  {
    if ops == [] {
      left := b.size;
    } else if b.size == 0 {
      left := ServeAllDelivers(b, ev, ops[1..], log);
      EmptyServesNothing(b, ev, ops, log);
    } else if DrainsClosing(b, ops[0].available, ops[0].accepted) {
      left := 0;
      DrainedAtOnce(b, ev, ops, log);
    } else {
      var n := AcceptedContent(b, ops[0].available, ops[0].accepted);
      var b1 := if n == 0 then b else b.(size := b.size - n, hasTxedPart := true);
      left := ServeAllDelivers(b1, ev, ops[1..], log);
      DrainedFurther(b, ev, ops, log, n, b1, left);
    }
  }

  lemma EmptyServesNothing(b: TxBuffer, ev: Events, ops: seq<Opportunity>, log: Logging)
    requires b.size == 0 && ops != []
    ensures var r := ServeAll(Some(b), ev, ops[1..], log);
            ServeAll(Some(b), ev, ops, log) == if r.Ok? then Ok((r.value.0, r.value.1, [] + r.value.2)) else r
  {
  }
}
