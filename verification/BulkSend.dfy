/** BulkSendApplication as an object. */
module BulkSend {
  import opened Words
  import opened SeqTsSizeHeader
  import Spec = BulkSendSpec

  /** A stream socket whose return values the environment has laid down; after the last it refuses. */
  class StreamSocket {
    var answers: seq<int>
    var isOpen: bool
    ghost var stream: Bytes

    /** Takes the whole packet, its first bytes, or nothing, and says so. */
    method Send(p: Bytes) returns (actual: int)
      modifies this
      ensures isOpen == old(isOpen)
      ensures actual == if old(answers) == [] then -1 else old(answers)[0]
      ensures answers == if old(answers) == [] then [] else old(answers)[1..]
      ensures stream == old(stream) + if 0 < actual <= |p| then p[..actual] else []
    {
      actual := -1;
      if answers != [] {
        actual, answers := answers[0], answers[1..];
      }
      stream := stream + if 0 < actual <= |p| then p[..actual] else [];
    }

    method Close()
      modifies this`isOpen
      ensures !isOpen
    {
      isOpen := false;
    }
  }

  class BulkSendApplication {
    const cfg: Spec.Config
    const socket: StreamSocket
    var totBytes: nat
    var unsentPacket: Option<Bytes>
    var seqNum: uint32
    var connected: bool
    ghost var frames: seq<Bytes>

    constructor (cfg: Spec.Config, socket: StreamSocket)
      requires socket.stream == []
      ensures this.cfg == cfg && this.socket == socket
      ensures View() == Spec.INITIAL
    {
      this.cfg, this.socket := cfg, socket;
      totBytes, unsentPacket, seqNum, connected, frames := 0, None, 0, false, [];
    }

    ghost function View(): Spec.Sender
      reads this, socket
    {
      Spec.Sender(totBytes, unsentPacket, seqNum, connected, socket.stream, frames)
    }

    /** The packet to try next: the cached one, or a new one of at most `m_sendSize` bytes. */
    method NextPacket(now: uint64) returns (ok: bool, packet: Bytes)
      requires Spec.More(cfg, View())
      modifies this
      ensures ok == Spec.NextPacket(cfg, old(View()), now).Ok?
      ensures ok ==> (View(), packet) == Spec.NextPacket(cfg, old(View()), now).value
    {
      if unsentPacket.Some? {
        return true, unsentPacket.value;
      }
      var toSend := cfg.sendSize;
      if cfg.maxBytes > 0 && cfg.maxBytes - totBytes < toSend {
        toSend := cfg.maxBytes - totBytes;
      }
      if cfg.withHeader {
        var s := seqNum;
        seqNum := (seqNum + 1) % TWO_32;
        if toSend < HEADER_SIZE {
          return false, [];
        }
        packet := Encode(Header(toSend, s, now)) + Zeros(toSend - HEADER_SIZE);
      } else {
        packet := Zeros(toSend);
      }
      frames := frames + [packet];
      ok := true;
    }

    /** One attempt to send: a whole packet goes on, a refusal or a part ends the loop. */
    method TrySend(packet: Bytes) returns (ok: bool, more: bool)
      requires packet != []
      modifies this, socket
      ensures socket.isOpen == old(socket.isOpen)
      ensures socket.answers == if old(socket.answers) == [] then [] else old(socket.answers)[1..]
      ensures var actual := if old(socket.answers) == [] then -1 else old(socket.answers)[0];
              && ok == Spec.AfterSend(old(View()), packet, actual).Ok?
              && (ok ==> (View(), more) == Spec.AfterSend(old(View()), packet, actual).value)
    {
      more := false;
      var actual := socket.Send(packet);
      if actual == |packet| {
        assert packet[..actual] == packet;
        totBytes := totBytes + actual;
        unsentPacket := None;
        more := true;
      } else if actual == -1 {
        assert old(socket.stream) + [] == old(socket.stream);
        unsentPacket := Some(packet);
      } else if 0 < actual < |packet| {
        totBytes := totBytes + actual;
        unsentPacket := Some(packet[actual..]);
      } else {
        return false, false;
      }
      ok := true;
    }

    /** One round of the sending loop, which leads to what the loop would have led to. */
    method SendOnce(now: uint64) returns (ok: bool, more: bool)
      requires Spec.Inv(cfg, View()) && Spec.More(cfg, View())
      modifies this, socket
      ensures socket.isOpen == old(socket.isOpen)
      ensures !ok ==> Spec.SendLoop(cfg, old(View()), old(socket.answers), now).Fatal?
      ensures var whole := Spec.SendLoop(cfg, old(View()), old(socket.answers), now);
              ok ==> whole == if more then Spec.SendLoop(cfg, View(), socket.answers, now) else Ok(View())
      ensures ok ==> Spec.Inv(cfg, View()) && connected == old(connected)
      ensures ok && more ==> |socket.answers| < old(|socket.answers|)
    {
      var packet;
      ok, packet := NextPacket(now);
      if !ok {
        return false, false;
      }
      Spec.NextPacketKeeps(cfg, old(View()), now);
      ghost var s1 := View();
      ok, more := TrySend(packet);
      if ok {
        Spec.AfterSendKeeps(cfg, s1, packet, if old(socket.answers) == [] then -1 else old(socket.answers)[0]);
      }
    }

    /** The sending loop, and the close that follows it when everything has been sent. */
    method SendData(now: uint64) returns (ok: bool)
      requires Spec.Inv(cfg, View())
      requires socket.isOpen
      modifies this, socket
      ensures ok == Spec.SendData(cfg, old(View()), old(socket.answers), now).Ok?
      ensures ok ==> View() == Spec.SendData(cfg, old(View()), old(socket.answers), now).value
      ensures ok && old(connected) ==> (socket.isOpen <==> connected)
      ensures ok ==> Spec.Inv(cfg, View())
    {
      ghost var whole := Spec.SendLoop(cfg, View(), socket.answers, now);
      var more := true;
      while more && (cfg.maxBytes == 0 || totBytes < cfg.maxBytes)
        invariant Spec.Inv(cfg, View()) && socket.isOpen
        invariant connected == old(connected)
        invariant whole == if more then Spec.SendLoop(cfg, View(), socket.answers, now) else Ok(View())
        decreases more, |socket.answers|
      {
        ok, more := SendOnce(now);
        if !ok {
          return;
        }
      }
      if totBytes == cfg.maxBytes && connected {
        socket.Close();
        connected := false;
      }
      ok := true;
    }

    method ConnectionSucceeded(now: uint64) returns (ok: bool)
      requires Spec.Inv(cfg, View()) && socket.isOpen
      modifies this, socket
      ensures var s := old(View()).(connected := true);
              && ok == Spec.SendData(cfg, s, old(socket.answers), now).Ok?
              && (ok ==> View() == Spec.SendData(cfg, s, old(socket.answers), now).value)
      ensures ok ==> (socket.isOpen <==> connected)
    {
      connected := true;
      ok := SendData(now);
    }

    /** The socket has room again; before the connection and after the close this does nothing. */
    method DataSend(now: uint64) returns (ok: bool)
      requires Spec.Inv(cfg, View()) && (connected ==> socket.isOpen)
      modifies this, socket
      ensures var r := if old(connected) then Spec.SendData(cfg, old(View()), old(socket.answers), now)
                       else Ok(old(View()));
              ok == r.Ok? && (ok ==> View() == r.value)
    {
      ok := true;
      if connected {
        ok := SendData(now);
      }
    }
  }
}
