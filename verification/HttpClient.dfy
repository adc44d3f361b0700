/** ThreeGppHttpClient as an object: its callbacks update its fields, the event list and its socket. */
module HttpClient {
  import opened Words
  import opened HttpHeader
  import opened HttpEvents
  import Spec = HttpClientSpec

  class Simulator {
    var ev: Events

    constructor ()
      ensures ev == NO_EVENTS
    {
      ev := NO_EVENTS;
    }

    method Schedule(a: Action) returns (id: EventId)
      modifies this
      ensures (ev, id) == HttpEvents.Schedule(old(ev), a)
    {
      id := ev.next;
      ev := Events(ev.pending[id := a], id + 1);
    }

    method Cancel(id: EventId)
      modifies this
      ensures ev == HttpEvents.Cancel(old(ev), id)
    {
      ev := Events(ev.pending - {id}, ev.next);
    }
  }

  /**
   A socket.  `willing` is the environment's verdict on the next packet; `hasCallbacks` says that the
   application is told of data, room and closing.
   */
  class Socket {
    var willing: bool
    var available: uint32
    var isOpen: bool
    var sendShut: bool
    var hasCallbacks: bool
    ghost var sent: seq<Bytes>

    method Close()
      modifies this`isOpen
      ensures !isOpen
    {
      isOpen := false;
    }

    method ShutdownSend()
      modifies this`sendShut
      ensures sendShut
    {
      sendShut := true;
    }

    method ClearCallbacks()
      modifies this`hasCallbacks
      ensures !hasCallbacks
    {
      hasCallbacks := false;
    }

    method Send(p: Bytes) returns (actual: int)
      modifies this`sent
      ensures actual == Spec.SendReturns(willing, Spec.PacketSize(p))
      ensures sent == if willing then old(sent) + [p] else old(sent)
    {
      if willing {
        sent := sent + [p];
        actual := ToInt32(Spec.PacketSize(p));
      } else {
        actual := -1;
      }
    }
  }

  class ThreeGppHttpClient {
    const sim: Simulator
    const socket: Socket
    var state: Spec.State
    var objectBytesToBeReceived: uint32
    var constructedPacket: Option<Bytes>
    var objectClientTs: uint64
    var objectServerTs: uint64
    var embeddedObjectsToBeRequested: uint32
    var eventRequestMainObject: EventId
    var eventRequestEmbeddedObject: EventId
    var eventParseMainObject: EventId
    var receiving: bool
    ghost var requested: seq<ContentType>
    ghost var requestTs: seq<uint64>
    ghost var draws: seq<uint32>
    ghost var rxObjects: seq<Option<Bytes>>
    ghost var refused: bool

    constructor (sim: Simulator, socket: Socket)
      ensures this.sim == sim && this.socket == socket && View() == Spec.INITIAL_CLIENT
    {
      this.sim, this.socket := sim, socket;
      state, receiving, refused := Spec.NotStarted, false, false;
      objectBytesToBeReceived, objectClientTs, objectServerTs, embeddedObjectsToBeRequested := 0, 0, 0, 0;
      constructedPacket := None;
      eventRequestMainObject, eventRequestEmbeddedObject, eventParseMainObject := 0, 0, 0;
      requested, requestTs, draws, rxObjects := [], [], [], [];
    }

    ghost function View(): Spec.Client
      reads this
    {
      Spec.Client(state, objectBytesToBeReceived, constructedPacket, objectClientTs, objectServerTs,
                  embeddedObjectsToBeRequested, eventRequestMainObject, eventRequestEmbeddedObject,
                  eventParseMainObject, receiving, requested, requestTs, draws, rxObjects, refused)
    }

    /** The outcome `r` has come about; when `ok` is false the program has stopped. */
    ghost predicate Became(ok: bool, r: Result<(Spec.Client, Events)>)
      reads this, sim
    {
      ok == r.Ok? && (ok ==> View() == r.value.0 && sim.ev == r.value.1)
    }

    ghost predicate BecameAlone(ok: bool, r: Result<Spec.Client>)
      reads this
    {
      ok == r.Ok? && (ok ==> View() == r.value)
    }

    /** The outcome `r` has come about, and the packet in it is the only one added to what was `sent`. */
    ghost predicate BecameSending(ok: bool, r: Result<(Spec.Client, Option<Bytes>)>, sent: seq<Bytes>)
      reads this, socket
    {
      && ok == r.Ok?
      && (ok ==> View() == r.value.0)
      && (ok ==> socket.sent == sent + if r.value.1.Some? then [r.value.1.value] else [])
    }

    method SwitchToState(s: Spec.State) returns (ok: bool)
      modifies this
      ensures BecameAlone(ok, Spec.SwitchToState(old(View()), s))
    {
      if s == Spec.ExpectingMain || s == Spec.ExpectingEmbedded {
        if objectBytesToBeReceived > 0 {
          return false;
        }
      }
      state := s;
      ok := true;
    }

    method CancelAllPendingEvents()
      modifies sim
      ensures sim.ev == Spec.CancelAllPendingEvents(View(), old(sim.ev))
    {
      sim.Cancel(eventRequestMainObject);
      sim.Cancel(eventRequestEmbeddedObject);
      sim.Cancel(eventParseMainObject);
    }

    method StartApplication() returns (ok: bool)
      modifies this
      ensures BecameAlone(ok, Spec.StartApplication(old(View())))
    {
      if state == Spec.NotStarted {
        ok := SwitchToState(Spec.Connecting);
        if ok {
          receiving := true;
        }
      } else {
        ok := false;
      }
    }

    method StopApplication()
      modifies this, sim, socket`isOpen
      ensures (View(), sim.ev) == Spec.StopApplication(old(View()), old(sim.ev))
      ensures !socket.isOpen
    {
      state := Spec.Stopped;
      CancelAllPendingEvents();
      socket.Close();
      receiving := false;
    }

    method ConnectionSucceeded() returns (ok: bool)
      modifies this, sim
      ensures Became(ok, Spec.ConnectionSucceeded(old(View()), old(sim.ev)))
    {
      if state != Spec.Connecting || embeddedObjectsToBeRequested != 0 {
        return false;
      }
      eventRequestMainObject := sim.Schedule(RequestMain);
      ok := true;
    }

    /** Makes a request and hands it to the socket; says whether the socket seems to have taken it. */
    method SendRequest(t: ContentType, now: uint64, requestSize: nat) returns (through: bool)
      modifies socket`sent
      ensures var packet := Spec.RequestPacket(t, now, requestSize);
              && through == Spec.WentThrough(socket.willing, Spec.PacketSize(packet))
              && socket.sent == if socket.willing then old(socket.sent) + [packet] else old(socket.sent)
    {
      var packet := Spec.RequestPacket(t, now, requestSize);
      var actualBytes := socket.Send(packet);
      through := actualBytes == ToInt32(Spec.PacketSize(packet));
    }

    /** The socket has taken a request of kind `t`. */
    method RequestTaken(t: ContentType, next: Spec.State, now: uint64) returns (ok: bool)
      modifies this
      ensures BecameAlone(ok, Spec.RequestTaken(old(View()), t, next, now))
    {
      ok := SwitchToState(next);
      requested, requestTs := requested + [t], requestTs + [now];
    }

    method RequestMainObject(now: uint64, requestSize: nat) returns (ok: bool)
      modifies this, socket`sent
      ensures BecameSending(ok, Spec.RequestMainObject(old(View()), now, requestSize, socket.willing), old(socket.sent))
    {
      if state != Spec.Connecting && state != Spec.Reading {
        return false;
      }
      var through := SendRequest(MainObject, now, requestSize);
      assert old(socket.sent) + [] == old(socket.sent);
      if !through {
        refused := true;
        ok := true;
      } else {
        ok := RequestTaken(MainObject, Spec.ExpectingMain, now);
      }
    }

    method RequestEmbeddedObject(now: uint64, requestSize: nat) returns (ok: bool)
      modifies this, socket`sent
      ensures BecameSending(ok, Spec.RequestEmbeddedObject(old(View()), now, requestSize, socket.willing),
                            old(socket.sent))
    {
      if state != Spec.Connecting && state != Spec.ParsingMain && state != Spec.ExpectingEmbedded {
        return false;
      }
      assert old(socket.sent) + [] == old(socket.sent);
      if embeddedObjectsToBeRequested == 0 {
        return true;
      }
      var through := SendRequest(EmbeddedObject, now, requestSize);
      if !through {
        refused := true;
        ok := true;
      } else {
        embeddedObjectsToBeRequested := embeddedObjectsToBeRequested - 1;
        ok := RequestTaken(EmbeddedObject, Spec.ExpectingEmbedded, now);
      }
    }

    method Receive(packet: Bytes) returns (ok: bool)
      modifies this
      ensures BecameAlone(ok, Spec.Receive(old(View()), packet))
    {
      var firstPacket := false;
      var content := packet;
      if objectBytesToBeReceived == 0 {
        firstPacket := true;
        if |packet| < HEADER_SIZE {
          return false;
        }
        var header := Deserialize(packet);
        content := packet[HEADER_SIZE..];
        objectBytesToBeReceived := header.contentLength;
        objectClientTs := header.clientTs;
        objectServerTs := header.serverTs;
        constructedPacket := Some(Serialize(header) + content);
      }
      if objectBytesToBeReceived < |content| {
        objectBytesToBeReceived := 0;
        constructedPacket := None;
      } else {
        objectBytesToBeReceived := objectBytesToBeReceived - |content|;
        if !firstPacket {
          if constructedPacket.None? {
            return false;
          }
          constructedPacket := Some(constructedPacket.value + content);
        }
      }
      ok := true;
    }

    method ReportObject()
      modifies this
      ensures View() == Spec.ReportObject(old(View()))
    {
      rxObjects := rxObjects + [constructedPacket];
      objectServerTs := 0;
      objectClientTs := 0;
    }

    method ReceiveMainObject(packet: Bytes) returns (ok: bool)
      modifies this, sim
      ensures Became(ok, Spec.ReceiveMainObject(old(View()), old(sim.ev), packet))
    {
      if state != Spec.ExpectingMain {
        return false;
      }
      ok := Receive(packet);
      if ok && objectBytesToBeReceived == 0 {
        ReportObject();
        ok := EnterParsingTime();
      }
    }

    method ReceiveEmbeddedObject(packet: Bytes) returns (ok: bool)
      modifies this, sim
      ensures Became(ok, Spec.ReceiveEmbeddedObject(old(View()), old(sim.ev), packet))
    {
      if state != Spec.ExpectingEmbedded {
        return false;
      }
      ok := Receive(packet);
      if ok && objectBytesToBeReceived == 0 {
        ReportObject();
        if embeddedObjectsToBeRequested > 0 {
          eventRequestEmbeddedObject := sim.Schedule(RequestEmbedded);
        } else {
          ok := EnterReadingTime();
        }
      }
    }

    method EnterParsingTime() returns (ok: bool)
      modifies this, sim
      ensures Became(ok, Spec.EnterParsingTime(old(View()), old(sim.ev)))
    {
      if state != Spec.ExpectingMain {
        return false;
      }
      eventParseMainObject := sim.Schedule(ParseMain);
      ok := SwitchToState(Spec.ParsingMain);
    }

    method ParseMainObject(count: uint32) returns (ok: bool)
      modifies this, sim
      ensures Became(ok, Spec.ParseMainObject(old(View()), old(sim.ev), count))
    {
      if state != Spec.ParsingMain {
        return false;
      }
      embeddedObjectsToBeRequested := count;
      draws := draws + [count];
      if embeddedObjectsToBeRequested > 0 {
        eventRequestEmbeddedObject := sim.Schedule(RequestEmbedded);
        ok := true;
      } else {
        ok := EnterReadingTime();
      }
    }

    method EnterReadingTime() returns (ok: bool)
      modifies this, sim
      ensures Became(ok, Spec.EnterReadingTime(old(View()), old(sim.ev)))
    {
      if state != Spec.ExpectingEmbedded && state != Spec.ParsingMain {
        return false;
      }
      eventRequestMainObject := sim.Schedule(RequestMain);
      ok := SwitchToState(Spec.Reading);
    }

    method DispatchPacket(packet: Bytes) returns (ok: bool)
      modifies this, sim
      ensures Became(ok, Spec.ReceivedPacket(old(View()), old(sim.ev), packet))
    {
      if state == Spec.ExpectingMain {
        ok := ReceiveMainObject(packet);
      } else if state == Spec.ExpectingEmbedded {
        ok := ReceiveEmbeddedObject(packet);
      } else {
        ok := false;
      }
    }

    /** `packets` is what RecvFrom returns, one after the other; an empty packet ends the loop. */
    method ReceivedDataCallback(packets: seq<Bytes>) returns (ok: bool)
      modifies this, sim
      ensures Became(ok, Spec.ReceivedData(old(View()), old(sim.ev), packets))
    {
      ghost var whole := Spec.ReceivedData(View(), sim.ev, packets);
      var rest := packets;
      while rest != []
        invariant whole == Spec.ReceivedData(View(), sim.ev, rest)
        decreases |rest|
      {
        var packet := rest[0];
        if packet == [] {
          return true;
        }
        ok := DispatchPacket(packet);
        if !ok {
          return;
        }
        rest := rest[1..];
      }
      ok := true;
    }
  }
}
