/**
 What BulkSendApplication::SendData does to the fields of the application and to the byte stream its
 socket accepts.  The return values of `Send` are the environment's; when they run out the socket
 refuses.
 */
module BulkSendSpec {
  import opened Words
  import opened Frames
  import opened SeqTsSizeHeader
  import opened Division

  /** The attributes.  A send size of 2^31 or more would not survive the trip through an `int`. */
  datatype Config = Config(sendSize: uint32, maxBytes: uint64, withHeader: bool) {
    predicate Valid() {
      0 < sendSize < 0x8000_0000
    }
  }

  /**
   The fields of the application; `stream` is what the socket has accepted and `frames` the packets
   created so far, in order.
   */
  datatype Sender = Sender(
    totBytes: nat,
    unsent: Option<Bytes>,
    seqNum: uint32,
    connected: bool,
    stream: Bytes,
    frames: seq<Bytes>)

  const INITIAL := Sender(0, None, 0, false, [], [])

  function ToSend(cfg: Config, s: Sender): nat
    requires cfg.maxBytes > 0 ==> s.totBytes <= cfg.maxBytes
  {
    if cfg.maxBytes > 0 && cfg.maxBytes - s.totBytes < cfg.sendSize then cfg.maxBytes - s.totBytes
    else cfg.sendSize
  }

  predicate More(cfg: Config, s: Sender) {
    cfg.maxBytes == 0 || s.totBytes < cfg.maxBytes
  }

  /** The abort on a packet that is too small for its header. */
  const NO_ROOM := "toSend < header.GetSerializedSize()"

  /** The packet to try: the one left over, or a new one. */
  function NextPacket(cfg: Config, s: Sender, now: uint64): Result<(Sender, Bytes)>
    requires More(cfg, s)
  {
    if s.unsent.Some? then Ok((s, s.unsent.value))
    else
      var toSend := ToSend(cfg, s);
      if !cfg.withHeader then Ok((s.(frames := s.frames + [Zeros(toSend)]), Zeros(toSend)))
      else if toSend < HEADER_SIZE then Fatal(NO_ROOM)
      else
        var packet := Framed(toSend, s.seqNum, now);
        Ok((s.(seqNum := (s.seqNum + 1) % TWO_32, frames := s.frames + [packet]), packet))
  }

  function Framed(size: nat, seqNum: uint32, now: uint64): Bytes
    requires HEADER_SIZE <= size < TWO_32
  {
    Encode(Header(size, seqNum, now)) + Zeros(size - HEADER_SIZE)
  }

  /** The effect of `Send` returning `actual`, and whether the loop goes on. */
  function AfterSend(s: Sender, packet: Bytes, actual: int): Result<(Sender, bool)> {
    if actual == |packet| then
      Ok((s.(totBytes := s.totBytes + actual, unsent := None, stream := s.stream + packet), true))
    else if actual == -1 then Ok((s.(unsent := Some(packet)), false))
    else if 0 < actual < |packet| then
      Ok((s.(totBytes := s.totBytes + actual, unsent := Some(packet[actual..]),
             stream := s.stream + packet[..actual]), false))
    else Fatal("Unexpected return value from m_socket->Send ()")
  }

  /** An answer other than a refusal and a number of bytes from 1 to the packet's size is fatal. */
  lemma UnexpectedAnswers(s: Sender, packet: Bytes, actual: int)
    requires packet != []
    ensures AfterSend(s, packet, actual).Ok? <==> actual == -1 || 1 <= actual <= |packet|
  {
  }

  function SendLoop(cfg: Config, s: Sender, answers: seq<int>, now: uint64): Result<Sender>
    decreases |answers|
  {
    if !More(cfg, s) then Ok(s)
    else
      var (s1, packet) :- NextPacket(cfg, s, now);
      var (s2, more) :- AfterSend(s1, packet, if answers == [] then -1 else answers[0]);
      if more && answers != [] then SendLoop(cfg, s2, answers[1..], now) else Ok(s2)
  }

  function SendData(cfg: Config, s: Sender, answers: seq<int>, now: uint64): Result<Sender> {
    var s1 :- SendLoop(cfg, s, answers, now);
    if s1.totBytes == cfg.maxBytes && s1.connected then Ok(s1.(connected := false)) else Ok(s1)
  }

  // ---- What every run keeps --------------------------------------------------------------------------

  function Left(s: Sender): Bytes {
    if s.unsent.Some? then s.unsent.value else []
  }

  /** The size of the `i`-th packet, which depends on the attributes alone. */
  function SizeAt(cfg: Config, i: nat): int {
    var rest := cfg.maxBytes - i * cfg.sendSize;
    if cfg.maxBytes > 0 && rest < cfg.sendSize then rest else cfg.sendSize
  }

  function TotalOf(cfg: Config, n: nat): nat {
    if cfg.maxBytes > 0 && n * cfg.sendSize > cfg.maxBytes then cfg.maxBytes else n * cfg.sendSize
  }

  predicate FrameOk(cfg: Config, f: Bytes, i: nat) {
    && |f| == SizeAt(cfg, i) > 0
    && (cfg.withHeader ==>
          && |f| >= HEADER_SIZE
          && var h := Decode(f);
             && h.size == |f| && h.seqNum == i % TWO_32
             && f == Encode(h) + Zeros(|f| - HEADER_SIZE))
    && (!cfg.withHeader ==> f == Zeros(|f|))
  }

  /**
   The socket's stream and the cached packet make up exactly the packets created, which never pass the
   limit, and the byte count is the length of the stream.
   */
  predicate Inv(cfg: Config, s: Sender) {
    && cfg.Valid()
    && s.stream + Left(s) == Concat(s.frames)
    && s.totBytes == |s.stream|
    && (s.unsent.Some? ==> s.unsent.value != [])
    && |Concat(s.frames)| == TotalOf(cfg, |s.frames|)
    && (cfg.withHeader ==> s.seqNum == |s.frames| % TWO_32)
    && FramesOk(cfg, s.frames)
  }

  predicate FramesOk(cfg: Config, frames: seq<Bytes>) {
    forall i | 0 <= i < |frames| :: FrameOk(cfg, frames[i], i)
  }

  lemma InitialInv(cfg: Config)
    requires cfg.Valid()
    ensures Inv(cfg, INITIAL)
  {
  }

  lemma NextSize(cfg: Config, s: Sender)
    requires Inv(cfg, s) && More(cfg, s) && s.unsent.None?
    ensures cfg.maxBytes > 0 ==> s.totBytes <= cfg.maxBytes
    ensures ToSend(cfg, s) == SizeAt(cfg, |s.frames|) > 0
    ensures TotalOf(cfg, |s.frames|) + ToSend(cfg, s) == TotalOf(cfg, |s.frames| + 1)
  {
    var n, k := |s.frames|, cfg.sendSize;
    assert s.stream + [] == s.stream;
    assert (n + 1) * k == n * k + k;
  }

  lemma FramedOk(cfg: Config, i: nat, now: uint64)
    requires cfg.Valid() && cfg.withHeader && HEADER_SIZE <= SizeAt(cfg, i) < TWO_32
    ensures FrameOk(cfg, Framed(SizeAt(cfg, i), i % TWO_32, now), i)
  {
    HeaderRoundTrip(Header(SizeAt(cfg, i), i % TWO_32, now), Zeros(SizeAt(cfg, i) - HEADER_SIZE));
  }

  lemma NextSeq(n: nat)
    ensures (n % TWO_32 + 1) % TWO_32 == (n + 1) % TWO_32
  {
  }

  /** A new packet may be added to those created, and is then the one left to send. */
  lemma AddedKeeps(cfg: Config, s: Sender, t: Sender, packet: Bytes)
    requires Inv(cfg, s) && s.unsent.None? && packet != [] && FrameOk(cfg, packet, |s.frames|)
    requires TotalOf(cfg, |s.frames|) + |packet| == TotalOf(cfg, |s.frames| + 1)
    requires cfg.withHeader ==> t.seqNum == (s.seqNum + 1) % TWO_32
    requires t == s.(frames := s.frames + [packet], unsent := Some(packet), seqNum := t.seqNum)
    ensures Inv(cfg, t)
  {
    var n := |s.frames|;
    assert |t.frames| == n + 1;
    assert FramesOk(cfg, t.frames);
    NextSeq(n);
    ConcatSnoc(s.frames, packet);
    assert s.stream == Concat(s.frames) by {
      assert s.stream + [] == s.stream;
    }
    assert |Concat(t.frames)| == TotalOf(cfg, n + 1);
  }

  lemma NewPacketKeeps(cfg: Config, s: Sender, now: uint64)
    requires Inv(cfg, s) && More(cfg, s) && s.unsent.None?
    ensures NextPacket(cfg, s, now).Fatal? <==> cfg.withHeader && SizeAt(cfg, |s.frames|) < HEADER_SIZE
    ensures NextPacket(cfg, s, now).Ok? ==>
              var (s1, packet) := NextPacket(cfg, s, now).value;
              packet != [] && Inv(cfg, s1.(unsent := Some(packet))) && s1.stream == s.stream
              && s1.connected == s.connected && s1.totBytes == s.totBytes && s.frames <= s1.frames
  {
    NextSize(cfg, s);
    if NextPacket(cfg, s, now).Ok? {
      var (s1, packet) := NextPacket(cfg, s, now).value;
      if cfg.withHeader {
        FramedOk(cfg, |s.frames|, now);
      }
      AddedKeeps(cfg, s, s1.(unsent := Some(packet)), packet);
    }
  }

  lemma AfterSendKeeps(cfg: Config, s: Sender, packet: Bytes, actual: int)
    requires Inv(cfg, s.(unsent := Some(packet))) && AfterSend(s, packet, actual).Ok?
    ensures var (s2, more) := AfterSend(s, packet, actual).value;
            && Inv(cfg, s2) && s2.connected == s.connected && s2.frames == s.frames
            && s.stream <= s2.stream
            && (more <==> actual == |packet|)
  {
    if actual == |packet| {
      assert s.stream + packet + [] == s.stream + packet;
    } else if 0 < actual < |packet| {
      assert packet == packet[..actual] + packet[actual..];
      assert s.stream + packet[..actual] + packet[actual..] == s.stream + packet;
    }
  }

  lemma NextPacketKeeps(cfg: Config, s: Sender, now: uint64)
    requires Inv(cfg, s) && More(cfg, s) && NextPacket(cfg, s, now).Ok?
    ensures var (s1, packet) := NextPacket(cfg, s, now).value;
            && packet != [] && Inv(cfg, s1.(unsent := Some(packet)))
            && s1.stream == s.stream && s1.connected == s.connected && s1.totBytes == s.totBytes
            && s.frames <= s1.frames
  {
    if s.unsent.None? {
      NewPacketKeeps(cfg, s, now);
    }
  }

  lemma {:induction false} SendLoopKeeps(cfg: Config, s: Sender, answers: seq<int>, now: uint64)
    requires Inv(cfg, s) && SendLoop(cfg, s, answers, now).Ok?
    ensures var t := SendLoop(cfg, s, answers, now).value;
            Inv(cfg, t) && t.connected == s.connected && s.stream <= t.stream && s.frames <= t.frames
    decreases |answers|
  {
    if More(cfg, s) {
      NextPacketKeeps(cfg, s, now);
      var (s1, packet) := NextPacket(cfg, s, now).value;
      var actual := if answers == [] then -1 else answers[0];
      AfterSendKeeps(cfg, s1, packet, actual);
      var (s2, more) := AfterSend(s1, packet, actual).value;
      if more && answers != [] {
        SendLoopKeeps(cfg, s2, answers[1..], now);
      }
    }
  }

  /** One call: the application closes exactly when the byte count equals the limit. */
  lemma SendDataKeeps(cfg: Config, s: Sender, answers: seq<int>, now: uint64)
    requires Inv(cfg, s) && SendData(cfg, s, answers, now).Ok?
    ensures var t := SendData(cfg, s, answers, now).value;
            && Inv(cfg, t) && s.stream <= t.stream && s.frames <= t.frames
            && (t.connected <==> s.connected && t.totBytes != cfg.maxBytes)
  {
    SendLoopKeeps(cfg, s, answers, now);
  }

  /** The packets from the `n`-th on carry this time. */
  predicate Stamped(frames: seq<Bytes>, n: nat, now: uint64) {
    forall i | n <= i < |frames| :: |frames[i]| >= HEADER_SIZE && Decode(frames[i]).ts == now
  }

  lemma NextPacketStamps(cfg: Config, s: Sender, now: uint64)
    requires cfg.withHeader && More(cfg, s) && (cfg.maxBytes > 0 ==> s.totBytes <= cfg.maxBytes)
    requires NextPacket(cfg, s, now).Ok?
    ensures var s1 := NextPacket(cfg, s, now).value.0;
            s.frames <= s1.frames && Stamped(s1.frames, |s.frames|, now)
  {
    if s.unsent.None? {
      var size := ToSend(cfg, s);
      HeaderRoundTrip(Header(size, s.seqNum, now), Zeros(size - HEADER_SIZE));
    }
  }

  /** Every packet made in a call carries the time of the call, also when it is sent in a later one. */
  lemma {:induction false} CallStamps(cfg: Config, s: Sender, answers: seq<int>, now: uint64)
    requires Inv(cfg, s) && cfg.withHeader && SendLoop(cfg, s, answers, now).Ok?
    ensures var t := SendLoop(cfg, s, answers, now).value;
            s.frames <= t.frames && Stamped(t.frames, |s.frames|, now)
    decreases |answers|
  {
    if More(cfg, s) {
      NextPacketKeeps(cfg, s, now);
      NextPacketStamps(cfg, s, now);
      var (s1, packet) := NextPacket(cfg, s, now).value;
      var actual := if answers == [] then -1 else answers[0];
      AfterSendKeeps(cfg, s1, packet, actual);
      var (s2, more) := AfterSend(s1, packet, actual).value;
      if more && answers != [] {
        CallStamps(cfg, s2, answers[1..], now);
      }
    }
  }

  // ---- Runs --------------------------------------------------------------------------------------------

  /** One call of SendData: what `Send` answers in it, and the time. */
  datatype Call = Call(answers: seq<int>, now: uint64)

  /** ConnectionSucceeded makes the first call; DataSend makes another only while connected. */
  function Run(cfg: Config, s: Sender, calls: seq<Call>): Result<Sender>
    decreases |calls|
  {
    if calls == [] || !s.connected then Ok(s)
    else
      var t :- SendData(cfg, s, calls[0].answers, calls[0].now);
      Run(cfg, t, calls[1..])
  }

  lemma {:induction false} RunKeeps(cfg: Config, s: Sender, calls: seq<Call>)
    requires Inv(cfg, s) && Run(cfg, s, calls).Ok?
    requires cfg.maxBytes > 0 ==> (s.connected <==> s.totBytes < cfg.maxBytes)
    ensures var t := Run(cfg, s, calls).value;
            && Inv(cfg, t) && s.stream <= t.stream && s.frames <= t.frames
            && (cfg.maxBytes > 0 ==> (t.connected <==> t.totBytes < cfg.maxBytes))
    decreases |calls|
  {
    if calls != [] && s.connected {
      SendDataKeeps(cfg, s, calls[0].answers, calls[0].now);
      var t := SendData(cfg, s, calls[0].answers, calls[0].now).value;
      InvBounds(cfg, t);
      RunKeeps(cfg, t, calls[1..]);
    }
  }

  lemma InvBounds(cfg: Config, s: Sender)
    requires Inv(cfg, s)
    ensures s.stream <= Concat(s.frames)
    ensures cfg.maxBytes > 0 ==> s.totBytes + |Left(s)| <= cfg.maxBytes
  {
    assert s.stream <= s.stream + Left(s);
  }

  /** The state in which ConnectionSucceeded makes the first call. */
  const CONNECTED := INITIAL.(connected := true)

  /**
   Over any run, with full, partial and refused sends: the socket's stream is a prefix of the generated
   stream and as long as the byte count, it never passes the limit, and the application has closed
   exactly when every byte up to the limit has been accepted.
   */
  lemma RunSendsPrefix(cfg: Config, calls: seq<Call>)
    requires cfg.Valid() && Run(cfg, CONNECTED, calls).Ok?
    ensures var t := Run(cfg, CONNECTED, calls).value;
            && t.stream + Left(t) == Concat(t.frames)
            && t.totBytes == |t.stream|
            && FramesOk(cfg, t.frames)
            && (cfg.maxBytes > 0 ==>
                  && |t.stream| + |Left(t)| <= cfg.maxBytes
                  && (!t.connected <==> |t.stream| == cfg.maxBytes))
  {
    RunKeeps(cfg, CONNECTED, calls);
    InvBounds(cfg, Run(cfg, CONNECTED, calls).value);
  }

  // ---- When the program aborts or stops too early --------------------------------------------------------

  /** Every packet the attributes call for has room for a header. */
  predicate HeadersFit(cfg: Config) {
    cfg.withHeader ==>
      && cfg.sendSize >= HEADER_SIZE
      && (cfg.maxBytes > 0 && cfg.sendSize > 0 ==>
            cfg.maxBytes % cfg.sendSize == 0 || cfg.maxBytes % cfg.sendSize >= HEADER_SIZE)
  }

  lemma LastSize(cfg: Config, n: nat)
    requires cfg.Valid() && cfg.maxBytes > 0 && n * cfg.sendSize < cfg.maxBytes
    ensures SizeAt(cfg, n) == cfg.sendSize || SizeAt(cfg, n) == cfg.maxBytes % cfg.sendSize
    ensures SizeAt(cfg, n) > 0
  {
    var rest := cfg.maxBytes - n * cfg.sendSize;
    if rest < cfg.sendSize {
      DivModUnique(cfg.maxBytes, cfg.sendSize, n, rest);
    }
  }

  /** When headers fit, a new packet is never refused by the application itself. */
  lemma NeverAborts(cfg: Config, s: Sender, now: uint64)
    requires Inv(cfg, s) && More(cfg, s) && HeadersFit(cfg)
    ensures NextPacket(cfg, s, now).Ok?
  {
    if s.unsent.None? {
      NewPacketKeeps(cfg, s, now);
      NextSize(cfg, s);
      if cfg.maxBytes > 0 {
        assert s.stream + [] == s.stream;
        LastSize(cfg, |s.frames|);
      }
    }
  }

  lemma {:induction false} LoopNeverAborts(cfg: Config, s: Sender, answers: seq<int>, now: uint64)
    requires Inv(cfg, s) && HeadersFit(cfg)
    ensures SendLoop(cfg, s, answers, now) != Fatal(NO_ROOM)
    decreases |answers|
  {
    if More(cfg, s) {
      NeverAborts(cfg, s, now);
      NextPacketKeeps(cfg, s, now);
      var (s1, packet) := NextPacket(cfg, s, now).value;
      var actual := if answers == [] then -1 else answers[0];
      var sent := AfterSend(s1, packet, actual);
      if sent.Ok? && sent.value.1 && answers != [] {
        AfterSendKeeps(cfg, s1, packet, actual);
        LoopNeverAborts(cfg, sent.value.0, answers[1..], now);
      }
    }
  }

  /** The answers of a socket that takes `n` whole packets. */
  function WholePackets(cfg: Config, n: nat): seq<int> {
    seq(n, _ => cfg.sendSize)
  }

  /** A packet of full size, taken whole. */
  lemma FullSend(cfg: Config, s: Sender, answers: seq<int>, now: uint64)
    requires Inv(cfg, s) && More(cfg, s) && s.unsent.None? && SizeAt(cfg, |s.frames|) == cfg.sendSize
    requires cfg.withHeader ==> cfg.sendSize >= HEADER_SIZE
    requires answers != [] && answers[0] == cfg.sendSize
    ensures NextPacket(cfg, s, now).Ok?
    ensures var s1 := NextPacket(cfg, s, now).value.0;
            var s2 := AfterSend(s1, NextPacket(cfg, s, now).value.1, cfg.sendSize);
            && s2.Ok? && s2.value.1 && Inv(cfg, s2.value.0) && s2.value.0.unsent.None?
            && |s2.value.0.frames| == |s.frames| + 1
            && SendLoop(cfg, s, answers, now) == SendLoop(cfg, s2.value.0, answers[1..], now)
  {
    NextSize(cfg, s);
    NewPacketKeeps(cfg, s, now);
    var (s1, packet) := NextPacket(cfg, s, now).value;
    AfterSendKeeps(cfg, s1, packet, cfg.sendSize);
  }

  lemma {:induction false} ShortLastPacketAborts(cfg: Config, s: Sender, answers: seq<int>, now: uint64)
    requires Inv(cfg, s) && s.unsent.None? && More(cfg, s) && !HeadersFit(cfg)
    requires cfg.maxBytes > 0 ==> |s.frames| <= cfg.maxBytes / cfg.sendSize
    requires cfg.maxBytes > 0 ==> |answers| == cfg.maxBytes / cfg.sendSize - |s.frames|
    requires forall i | 0 <= i < |answers| :: answers[i] == cfg.sendSize
    ensures SendLoop(cfg, s, answers, now) == Fatal(NO_ROOM)
    decreases |answers|
  {
    var n := |s.frames|;
    NextSize(cfg, s);
    NewPacketKeeps(cfg, s, now);
    assert s.stream + [] == s.stream;
    if cfg.sendSize >= HEADER_SIZE {
      var q, r := cfg.maxBytes / cfg.sendSize, cfg.maxBytes % cfg.sendSize;
      Quotient(cfg.maxBytes, cfg.sendSize);
      if n == q {
        assert SizeAt(cfg, n) == r;
      } else {
        MulAtLeast(cfg.sendSize, q - n);
        MulSpread(cfg.sendSize, q, n);
        FullSend(cfg, s, answers, now);
        var s1 := NextPacket(cfg, s, now).value.0;
        var s2 := AfterSend(s1, NextPacket(cfg, s, now).value.1, cfg.sendSize).value.0;
        if n + 1 < q {
          MulAtLeast(cfg.sendSize, q - (n + 1));
        }
        MulSpread(cfg.sendSize, q, n + 1);
        assert s2.stream + [] == s2.stream;
        ShortLastPacketAborts(cfg, s2, answers[1..], now);
      }
    }
  }

  lemma {:induction false} RunNeverAborts(cfg: Config, s: Sender, calls: seq<Call>)
    requires Inv(cfg, s) && HeadersFit(cfg)
    ensures Run(cfg, s, calls) != Fatal(NO_ROOM)
    decreases |calls|
  {
    if calls != [] && s.connected {
      LoopNeverAborts(cfg, s, calls[0].answers, calls[0].now);
      var t := SendData(cfg, s, calls[0].answers, calls[0].now);
      if t.Ok? {
        SendDataKeeps(cfg, s, calls[0].answers, calls[0].now);
        RunNeverAborts(cfg, t.value, calls[1..]);
      }
    }
  }

  predicate RunAborts(cfg: Config, calls: seq<Call>) {
    Run(cfg, CONNECTED, calls) == Fatal(NO_ROOM)
  }

  /** A socket that takes every packet whole brings the application to the one that is too small. */
  lemma ReachesAbort(cfg: Config) returns (calls: seq<Call>)
    requires cfg.Valid() && !HeadersFit(cfg)
    ensures RunAborts(cfg, calls)
  {
    InitialInv(cfg);
    var n := if cfg.maxBytes > 0 then cfg.maxBytes / cfg.sendSize else 0;
    ShortLastPacketAborts(cfg, CONNECTED, WholePackets(cfg, n), 0);
    calls := [Call(WholePackets(cfg, n), 0)];
  }

  /**
   Some run aborts on a packet too small for its header exactly when the attributes do not leave room
   for one: the send size is below 20, or the limit leaves a last packet of 1 to 19 bytes.
   */
  lemma AbortsIffHeadersDoNotFit(cfg: Config)
    requires cfg.Valid()
    ensures (exists calls :: RunAborts(cfg, calls)) <==> !HeadersFit(cfg)
  {
    if HeadersFit(cfg) {
      InitialInv(cfg);
      forall calls
        ensures !RunAborts(cfg, calls)
      {
        RunNeverAborts(cfg, CONNECTED, calls);
      }
    } else {
      var calls := ReachesAbort(cfg);
    }
  }

  lemma FirstCallCloses(cfg: Config, answers: seq<int>, now: uint64)
    requires cfg.Valid() && cfg.maxBytes == 0 && SendData(cfg, CONNECTED, answers, now).Ok?
    ensures var t := SendData(cfg, CONNECTED, answers, now).value;
            && Inv(cfg, t) && (!t.connected <==> t.totBytes == 0)
            && (!t.connected <==> answers == [] || answers[0] == -1)
  {
    InitialInv(cfg);
    SendDataKeeps(cfg, CONNECTED, answers, now);
    NextPacketKeeps(cfg, CONNECTED, now);
    var (s1, packet) := NextPacket(cfg, CONNECTED, now).value;
    var actual := if answers == [] then -1 else answers[0];
    AfterSendKeeps(cfg, s1, packet, actual);
    var (s2, more) := AfterSend(s1, packet, actual).value;
    if more && answers != [] {
      SendLoopKeeps(cfg, s2, answers[1..], now);
    }
  }

  /** Once something has been accepted, an application without a limit stays connected. */
  lemma {:induction false} StaysConnected(cfg: Config, s: Sender, calls: seq<Call>)
    requires Inv(cfg, s) && cfg.maxBytes == 0 && s.connected && s.totBytes > 0 && Run(cfg, s, calls).Ok?
    ensures Run(cfg, s, calls).value.connected
    decreases |calls|
  {
    if calls != [] {
      SendDataKeeps(cfg, s, calls[0].answers, calls[0].now);
      StaysConnected(cfg, SendData(cfg, s, calls[0].answers, calls[0].now).value, calls[1..]);
    }
  }

  /**
   A limit of zero is documented as no limit, but a byte count of zero then equals it: a run ends closed
   exactly when the socket took nothing at the first call.
   */
  lemma UnlimitedClosesIffNothingAccepted(cfg: Config, calls: seq<Call>)
    requires cfg.Valid() && cfg.maxBytes == 0 && Run(cfg, CONNECTED, calls).Ok?
    ensures !Run(cfg, CONNECTED, calls).value.connected
       <==> calls != [] && (calls[0].answers == [] || calls[0].answers[0] == -1)
  {
    if calls != [] {
      FirstCallCloses(cfg, calls[0].answers, calls[0].now);
      var t := SendData(cfg, CONNECTED, calls[0].answers, calls[0].now).value;
      if t.connected {
        StaysConnected(cfg, t, calls[1..]);
      }
    }
  }
}
