/** ThreeGppHttpServer and its Tx buffer as objects, with one buffer entry for each accepted socket. */
module HttpServer {
  import opened Words
  import opened HttpHeader
  import opened HttpEvents
  import opened HttpClient
  import ClientSpec = HttpClientSpec
  import Spec = HttpServerSpec

  class ThreeGppHttpServerTxBuffer {
    const sim: Simulator
    var txBuffer: map<Socket, Spec.TxBuffer>

    constructor (sim: Simulator)
      ensures this.sim == sim && txBuffer == map[]
    {
      this.sim := sim;
      txBuffer := map[];
    }

    ghost function Entry(socket: Socket): Spec.Entry
      reads this
    {
      EntryIn(txBuffer, socket)
    }

    static ghost function EntryIn(m: map<Socket, Spec.TxBuffer>, socket: Socket): Spec.Entry {
      if socket in m then Some(m[socket]) else None
    }

    /** No socket but this one has had its entry touched. */
    ghost predicate OthersAsIn(before: map<Socket, Spec.TxBuffer>, socket: Socket)
      reads this
    {
      txBuffer - {socket} == before - {socket}
    }

    /** The outcome `r` has come about for this socket, and nothing has happened to any other. */
    ghost predicate Became(ok: bool, socket: Socket, r: Result<(Spec.Entry, Events)>,
                           before: map<Socket, Spec.TxBuffer>)
      reads this, sim
    {
      && OthersAsIn(before, socket)
      && ok == r.Ok?
      && (ok ==> Entry(socket) == r.value.0 && sim.ev == r.value.1)
    }

    /** An erased entry's socket has been closed and tells the server nothing more; another is left alone. */
    ghost predicate ClosedIfErased(socket: Socket, before: map<Socket, Spec.TxBuffer>, open: bool, told: bool)
      reads this, socket
    {
      var erased := socket in before && socket !in txBuffer;
      socket.isOpen == (open && !erased) && socket.hasCallbacks == (told && !erased)
    }

    ghost predicate BecameAlone(ok: bool, socket: Socket, r: Result<Spec.Entry>,
                                before: map<Socket, Spec.TxBuffer>)
      reads this
    {
      OthersAsIn(before, socket) && ok == r.Ok? && (ok ==> Entry(socket) == r.value)
    }

    method AddSocket(socket: Socket) returns (ok: bool)
      modifies this
      ensures BecameAlone(ok, socket, Spec.AddSocket(old(Entry(socket))), old(txBuffer))
    {
      ok := socket !in txBuffer;
      if ok {
        txBuffer := txBuffer[socket := Spec.EMPTY_BUFFER];
      }
    }

    /** Forgets the socket, which stays open. */
    method RemoveSocket(socket: Socket) returns (ok: bool)
      modifies this, sim, socket`hasCallbacks
      ensures Became(ok, socket, Spec.RemoveSocket(old(Entry(socket)), old(sim.ev)), old(txBuffer))
      ensures ok ==> !socket.hasCallbacks
      ensures !ok ==> unchanged(socket)
    {
      ok := socket in txBuffer;
      if ok {
        sim.Cancel(txBuffer[socket].nextServe);
        socket.ClearCallbacks();
        txBuffer := txBuffer - {socket};
      }
    }

    /** Forgets the socket and closes it. */
    method CloseSocket(socket: Socket) returns (ok: bool)
      modifies this, sim, socket`isOpen, socket`hasCallbacks
      ensures Became(ok, socket, Spec.RemoveSocket(old(Entry(socket)), old(sim.ev)), old(txBuffer))
      ensures ClosedIfErased(socket, old(txBuffer), old(socket.isOpen), old(socket.hasCallbacks))
    {
      ok := socket in txBuffer;
      if ok {
        sim.Cancel(txBuffer[socket].nextServe);
        socket.Close();
        socket.ClearCallbacks();
        txBuffer := txBuffer - {socket};
      }
    }

    method CloseAllSockets()
      modifies this, sim, txBuffer.Keys
      ensures txBuffer == map[]
      ensures forall s | s in old(txBuffer) :: Shut(s)
      ensures forall s | s in old(txBuffer) :: old(txBuffer)[s].nextServe !in sim.ev.pending
      ensures forall id | id in old(sim.ev.pending) ::
                (forall s | s in old(txBuffer) :: old(txBuffer)[s].nextServe != id)
                ==> Kept(id, old(sim.ev.pending), sim.ev.pending)
      ensures sim.ev.pending.Keys <= old(sim.ev.pending.Keys)
    {
      var left := txBuffer.Keys;
      while left != {}
        invariant left <= txBuffer.Keys
        invariant txBuffer == old(txBuffer)
        invariant forall s | s in txBuffer && s !in left :: Shut(s)
        invariant sim.ev.pending.Keys <= old(sim.ev.pending.Keys)
        invariant forall s | s in txBuffer && s !in left :: txBuffer[s].nextServe !in sim.ev.pending
        invariant forall id | id in old(sim.ev.pending) ::
                    (forall s | s in txBuffer :: txBuffer[s].nextServe != id)
                    ==> Kept(id, old(sim.ev.pending), sim.ev.pending)
        decreases left
      {
        var s :| s in left;
        sim.Cancel(txBuffer[s].nextServe);
        s.Close();
        s.ClearCallbacks();
        left := left - {s};
      }
      txBuffer := map[];
    }

    static ghost predicate Shut(s: Socket)
      reads s
    {
      !s.isOpen && !s.hasCallbacks
    }

    static ghost predicate Kept(id: EventId, before: map<EventId, Action>, after: map<EventId, Action>)
      requires id in before
    {
      id in after && after[id] == before[id]
    }

    method WriteNewObject(socket: Socket, t: ContentType, objectSize: uint32) returns (ok: bool)
      modifies this
      ensures BecameAlone(ok, socket, Spec.WriteNewObject(old(Entry(socket)), t, objectSize), old(txBuffer))
      ensures !ok ==> unchanged(this)
    {
      ok := t != NotSet && objectSize > 0 && socket in txBuffer && txBuffer[socket].size == 0;
      if ok {
        var b := txBuffer[socket];
        txBuffer := txBuffer[socket := b.(contentType := t, size := objectSize, hasTxedPart := false)];
      }
    }

    method RecordNextServe(socket: Socket, id: EventId, clientTs: uint64) returns (ok: bool)
      modifies this
      ensures BecameAlone(ok, socket, Spec.RecordNextServe(old(Entry(socket)), id, clientTs), old(txBuffer))
    {
      ok := socket in txBuffer;
      if ok {
        txBuffer := txBuffer[socket := txBuffer[socket].(nextServe := id, clientTs := clientTs)];
      }
    }

    method DepleteBufferSize(socket: Socket, amount: uint32) returns (ok: bool)
      modifies this, sim, socket`isOpen, socket`hasCallbacks
      ensures ClosedIfErased(socket, old(txBuffer), old(socket.isOpen), old(socket.hasCallbacks))
      ensures Became(ok, socket, Spec.DepleteBufferSize(old(Entry(socket)), old(sim.ev), amount), old(txBuffer))
    {
      ok := amount > 0 && socket in txBuffer && txBuffer[socket].size >= amount;
      if ok {
        var b := txBuffer[socket];
        txBuffer := txBuffer[socket := b.(size := b.size - amount, hasTxedPart := true)];
        if b.isClosing && b.size == amount {
          ok := CloseSocket(socket);
        }
      }
    }

    method PrepareClose(socket: Socket) returns (ok: bool)
      modifies this
      ensures BecameAlone(ok, socket, Spec.PrepareClose(old(Entry(socket))), old(txBuffer))
    {
      ok := socket in txBuffer;
      if ok {
        txBuffer := txBuffer[socket := txBuffer[socket].(isClosing := true)];
      }
    }
  }

  datatype ServerState = NotStarted | Started | Stopped

  class ThreeGppHttpServer {
    const sim: Simulator
    const buffer: ThreeGppHttpServerTxBuffer
    const initialSocket: Socket
    const log: Spec.Logging
    var state: ServerState

    constructor (sim: Simulator, initialSocket: Socket, log: Spec.Logging)
      ensures this.sim == sim && this.initialSocket == initialSocket && this.log == log && state == NotStarted
      ensures buffer.sim == sim && fresh(buffer) && buffer.txBuffer == map[]
    {
      this.sim, this.initialSocket, this.log, state := sim, initialSocket, log, NotStarted;
      buffer := new ThreeGppHttpServerTxBuffer(sim);
    }

    ghost predicate Valid() {
      buffer.sim == sim
    }

    /** The outcome `r` has come about, and the bytes in it are the only ones handed to this socket. */
    ghost predicate BecameSending(ok: bool, socket: Socket, r: Result<(Spec.Entry, Events, Bytes)>,
                                  before: map<Socket, Spec.TxBuffer>, sent: seq<Bytes>)
      reads this, buffer, sim, socket
    {
      && buffer.OthersAsIn(before, socket)
      && ok == r.Ok?
      && (ok ==> buffer.Entry(socket) == r.value.0 && sim.ev == r.value.1)
      && (ok ==> socket.sent == if r.value.2 == [] then sent else sent + [r.value.2])
    }

    /** Closes every accepted socket, and stops listening. */
    method StopApplication()
      requires Valid()
      modifies this`state, buffer, sim, buffer.txBuffer.Keys, initialSocket`isOpen, initialSocket`hasCallbacks
      ensures state == Stopped && buffer.txBuffer == map[]
      ensures !initialSocket.isOpen && !initialSocket.hasCallbacks
      ensures forall s | s in old(buffer.txBuffer) ::
                ThreeGppHttpServerTxBuffer.Shut(s) && old(buffer.txBuffer)[s].nextServe !in sim.ev.pending
      ensures forall id | id in old(sim.ev.pending) ::
                (forall s | s in old(buffer.txBuffer) :: old(buffer.txBuffer)[s].nextServe != id)
                ==> ThreeGppHttpServerTxBuffer.Kept(id, old(sim.ev.pending), sim.ev.pending)
    {
      state := Stopped;
      ghost var before := buffer.txBuffer;
      buffer.CloseAllSockets();
      initialSocket.Close();
      initialSocket.ClearCallbacks();
    }

    method ServeFromTxBuffer(socket: Socket, now: uint64) returns (ok: bool, actual: uint32)
      requires Valid()
      modifies buffer, sim, socket`sent, socket`isOpen, socket`hasCallbacks
      ensures BecameSending(ok, socket,
                            Spec.ServeFromTxBuffer(old(buffer.Entry(socket)), old(sim.ev),
                                                   socket.available, socket.willing, now, log),
                            old(buffer.txBuffer), old(socket.sent))
      ensures buffer.ClosedIfErased(socket, old(buffer.txBuffer), old(socket.isOpen), old(socket.hasCallbacks))
      ensures ok && |socket.sent| > |old(socket.sent)| ==>
                actual == ClientSpec.PacketSize(socket.sent[|socket.sent| - 1])
      ensures ok && buffer.Entry(socket) == old(buffer.Entry(socket)) ==> actual == 0
    {
      if socket !in buffer.txBuffer {
        return false, 0;
      }
      var b := buffer.txBuffer[socket];
      if b.size == 0 {
        return true, 0;
      }
      var contentSize := Spec.ContentToSend(b.size, socket.available);
      if contentSize == 0 {
        return true, 0;
      }
      var packet := Spec.ResponsePacket(b, contentSize, now);
      var packetSize := ClientSpec.PacketSize(packet);
      var actualBytes := socket.Send(packet);
      if actualBytes == ToInt32(packetSize) {
        ok := buffer.DepleteBufferSize(socket, contentSize);
        ok := ok && !(log == Spec.LogsShown && socket !in buffer.txBuffer);
        actual := packetSize;
      } else {
        ok, actual := true, 0;
      }
    }

    method ServeNewObject(socket: Socket, t: ContentType, objectSize: uint32, now: uint64) returns (ok: bool)
      requires Valid()
      modifies buffer, sim, socket`sent, socket`isOpen, socket`hasCallbacks
      ensures BecameSending(ok, socket,
                            Spec.ServeNewObject(old(buffer.Entry(socket)), old(sim.ev), t, objectSize,
                                                socket.available, socket.willing, now, log),
                            old(buffer.txBuffer), old(socket.sent))
      ensures buffer.ClosedIfErased(socket, old(buffer.txBuffer), old(socket.isOpen), old(socket.hasCallbacks))
    {
      ok := buffer.WriteNewObject(socket, t, objectSize);
      if ok {
        var actualSent;
        ok, actualSent := ServeFromTxBuffer(socket, now);
      }
    }

    /** Built with log messages, the program looks the entry up again after it has been served. */
    method SendCallback(socket: Socket, now: uint64) returns (ok: bool)
      requires Valid()
      modifies buffer, sim, socket`sent, socket`isOpen, socket`hasCallbacks
      ensures BecameSending(ok, socket,
                            Spec.SendCallback(old(buffer.Entry(socket)), old(sim.ev),
                                              socket.available, socket.willing, now, log),
                            old(buffer.txBuffer), old(socket.sent))
      ensures buffer.ClosedIfErased(socket, old(buffer.txBuffer), old(socket.isOpen), old(socket.hasCallbacks))
    {
      ok := socket in buffer.txBuffer;
      if ok && buffer.txBuffer[socket].size != 0 {
        var actualSent;
        ok, actualSent := ServeFromTxBuffer(socket, now);
        if ok && log != Spec.NoLogs {
          ok := socket in buffer.txBuffer && buffer.txBuffer[socket].contentType != NotSet;
        }
      }
    }

    method DispatchRequest(socket: Socket, packet: Bytes) returns (ok: bool)
      requires Valid()
      modifies buffer, sim
      ensures buffer.Became(ok, socket, Spec.ReceivedPacket(old(buffer.Entry(socket)), old(sim.ev), packet),
                            old(buffer.txBuffer))
    {
      if |packet| < HEADER_SIZE {
        return false;
      }
      var header := Deserialize(packet);
      var t := GetContentType(header);
      if t.Fatal? || t.value == NotSet {
        return false;
      }
      var id := sim.Schedule(if t.value == MainObject then ServeMain else ServeEmbedded);
      ok := buffer.RecordNextServe(socket, id, header.clientTs);
    }

    /** `packets` is what RecvFrom returns, one after the other; an empty packet ends the loop. */
    method ReceivedDataCallback(socket: Socket, packets: seq<Bytes>) returns (ok: bool)
      requires Valid()
      modifies buffer, sim
      ensures buffer.Became(ok, socket, Spec.ReceivedData(old(buffer.Entry(socket)), old(sim.ev), packets),
                            old(buffer.txBuffer))
    {
      ghost var whole := Spec.ReceivedData(buffer.Entry(socket), sim.ev, packets);
      var rest := packets;
      while rest != []
        invariant whole == Spec.ReceivedData(buffer.Entry(socket), sim.ev, rest)
        invariant buffer.OthersAsIn(old(buffer.txBuffer), socket)
        decreases |rest|
      {
        var packet := rest[0];
        if packet == [] {
          return true;
        }
        ok := DispatchRequest(socket, packet);
        if !ok {
          return;
        }
        rest := rest[1..];
      }
      ok := true;
    }

    /** The listening socket must not be closed while the server runs. */
    method NormalCloseCallback(socket: Socket) returns (ok: bool)
      requires Valid()
      modifies buffer, sim, socket`sendShut, socket`hasCallbacks
      ensures socket == initialSocket ==>
                ok == (state != Started) && unchanged(buffer) && unchanged(sim) && unchanged(socket)
      ensures socket != initialSocket ==>
                buffer.Became(ok, socket, Spec.NormalClose(old(buffer.Entry(socket)), old(sim.ev)),
                              old(buffer.txBuffer))
      ensures socket != initialSocket ==>
                var erased := socket in old(buffer.txBuffer) && socket !in buffer.txBuffer;
                && socket.sendShut == (old(socket.sendShut) || erased)
                && socket.hasCallbacks == (old(socket.hasCallbacks) && !erased)
    {
      if socket == initialSocket {
        ok := state != Started;
      } else if socket !in buffer.txBuffer {
        ok := true;
      } else if buffer.txBuffer[socket].size == 0 {
        socket.ShutdownSend();
        ok := buffer.RemoveSocket(socket);
      } else {
        ok := buffer.PrepareClose(socket);
      }
    }

    method ErrorCloseCallback(socket: Socket) returns (ok: bool)
      requires Valid()
      modifies buffer, sim, socket`isOpen, socket`hasCallbacks
      ensures socket == initialSocket ==>
                ok == (state != Started) && unchanged(buffer) && unchanged(sim) && unchanged(socket)
      ensures socket != initialSocket ==>
                buffer.Became(ok, socket, Spec.ErrorClose(old(buffer.Entry(socket)), old(sim.ev)), old(buffer.txBuffer))
      ensures socket != initialSocket ==>
                buffer.ClosedIfErased(socket, old(buffer.txBuffer), old(socket.isOpen), old(socket.hasCallbacks))
    {
      ok := true;
      if socket == initialSocket {
        ok := state != Started;
      } else if socket in buffer.txBuffer {
        ok := buffer.CloseSocket(socket);
      }
    }
  }
}
