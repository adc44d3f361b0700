/** BulkSendApplication's stream, cut anyhow on its way, through PacketSink's reassembly. */
module FramedStream {
  import opened Words
  import opened Frames
  import opened SeqTsSizeHeader
  import opened Division
  import Tx = BulkSendSpec
  import Rx = PacketSinkSpec

  /** Every unit that the attributes call for is longer than its header. */
  ghost predicate LongUnits(cfg: Tx.Config) {
    cfg.Valid() && cfg.withHeader && forall i: nat | Tx.SizeAt(cfg, i) > 0 :: Tx.SizeAt(cfg, i) > HEADER_SIZE
  }

  /** That is so exactly when the send size and what the limit leaves for a last unit are above 20. */
  lemma LongUnitsIff(cfg: Tx.Config)
    requires cfg.Valid() && cfg.withHeader
    ensures LongUnits(cfg) <==>
              && cfg.sendSize > HEADER_SIZE
              && (cfg.maxBytes > 0 ==> cfg.maxBytes % cfg.sendSize == 0 || cfg.maxBytes % cfg.sendSize > HEADER_SIZE)
  {
    var r := cfg.maxBytes % cfg.sendSize;
    if LongUnits(cfg) {
      assert Tx.SizeAt(cfg, 0) > HEADER_SIZE;
      Quotient(cfg.maxBytes, cfg.sendSize);
      assert cfg.maxBytes > 0 ==> Tx.SizeAt(cfg, cfg.maxBytes / cfg.sendSize) == r;
    } else {
      var i: nat :| 0 < Tx.SizeAt(cfg, i) <= HEADER_SIZE;
      if cfg.maxBytes > 0 && i * cfg.sendSize < cfg.maxBytes {
        Tx.LastSize(cfg, i);
      }
    }
  }

  lemma LongUnitsMakeLongFrames(cfg: Tx.Config, s: Tx.Sender)
    requires LongUnits(cfg) && Tx.Inv(cfg, s)
    ensures Rx.LongFrames(s.frames)
  {
    forall i | 0 <= i < |s.frames|
      ensures Rx.IsFrame(s.frames[i]) && |s.frames[i]| > HEADER_SIZE
    {
      assert Tx.FrameOk(cfg, s.frames[i], i);
    }
  }

  /** The unit that the sender made as its `i`-th. */
  predicate IsUnit(cfg: Tx.Config, u: Rx.Unit, i: nat) {
    && u.header.seqNum == i % TWO_32
    && u.header.size == Tx.SizeAt(cfg, i) == |u.payload| + HEADER_SIZE
    && u.payload == Zeros(|u.payload|)
  }

  lemma UnitIs(cfg: Tx.Config, f: Bytes, i: nat)
    requires cfg.withHeader && Tx.FrameOk(cfg, f, i)
    ensures IsUnit(cfg, Rx.UnitOf(f), i)
  {
    assert f[HEADER_SIZE..] == Zeros(|f| - HEADER_SIZE);
  }

  /**
   Printer and parser undo each other.  Whatever the sending socket accepted, part by part, and however
   the stream was then cut into arrivals, the sink reports the sender's units in order, with their
   numbers and sizes, as many as have arrived whole; what it keeps is the start of the next unit.
   */
  lemma SinkReportsSentUnits(cfg: Tx.Config, calls: seq<Tx.Call>, t: Tx.Sender, arrivals: seq<Bytes>)
    returns (units: seq<Rx.Unit>, last: Bytes)
    requires LongUnits(cfg) && Tx.Run(cfg, Tx.CONNECTED, calls) == Ok(t)
    requires Concat(arrivals) <= t.stream && Rx.ReceiveAll([], arrivals).Ok?
    ensures Rx.ReceiveAll([], arrivals) == Ok((units, last))
    ensures |units| <= |t.frames| && Concat(arrivals) == Concat(t.frames[..|units|]) + last
    ensures if |units| < |t.frames| then last < t.frames[|units|] else last == []
    ensures forall i | 0 <= i < |units| ::
              |t.frames[i]| >= HEADER_SIZE && units[i] == Rx.UnitOf(t.frames[i]) && IsUnit(cfg, units[i], i)
  {
    Tx.InitialInv(cfg);
    Tx.RunKeeps(cfg, Tx.CONNECTED, calls);
    LongUnitsMakeLongFrames(cfg, t);
    var fs, x := t.frames, Concat(arrivals);
    assert x <= Concat(fs) by {
      Tx.InvBounds(cfg, t);
    }
    assert [] + x == x;
    EmptyHoldsNone(fs);
    units, last := Rx.ReassemblesAll(fs, [], arrivals);
    Rx.CutBytes(fs, Whole(fs, |x|), x, units, last);
    Rx.CutUnits(fs, Whole(fs, |x|), x, units, last);
    RestIsPartial(fs, Whole(fs, |x|), |x|, last);
    forall i | 0 <= i < |units|
      ensures |fs[i]| >= HEADER_SIZE && units[i] == Rx.UnitOf(fs[i]) && IsUnit(cfg, units[i], i)
    {
      assert Tx.FrameOk(cfg, fs[i], i);
      UnitIs(cfg, fs[i], i);
    }
  }

  lemma EmptyHoldsNone(fs: seq<Bytes>)
    requires Rx.LongFrames(fs)
    ensures Whole(fs, 0) == 0
  {
  }

  lemma ProperPart(last: Bytes, f: Bytes, tail: Bytes)
    requires last <= f + tail && |last| < |f|
    ensures last < f
  {
    assert last == (f + tail)[..|last|] == f[..|last|];
  }

  lemma RestIsPartial(fs: seq<Bytes>, n: nat, len: nat, last: Bytes)
    requires n == Whole(fs, len) && |last| == len - |Concat(fs[..n])| && last <= Concat(fs[n..])
    ensures n < |fs| ==> last < fs[n]
    ensures n == |fs| ==> last == []
  {
    RestIsShort(fs, len);
    var ahead := fs[n..];
    if n < |fs| {
      ProperPart(last, ahead[0], Concat(ahead[1..]));
    }
  }

  /** Once the application has closed and every byte has arrived, every unit has been reported. */
  lemma AllUnitsArrive(cfg: Tx.Config, calls: seq<Tx.Call>, t: Tx.Sender, arrivals: seq<Bytes>)
    returns (units: seq<Rx.Unit>)
    requires LongUnits(cfg) && cfg.maxBytes > 0 && Tx.Run(cfg, Tx.CONNECTED, calls) == Ok(t) && !t.connected
    requires Concat(arrivals) == t.stream && Rx.ReceiveAll([], arrivals).Ok?
    ensures Rx.ReceiveAll([], arrivals) == Ok((units, []))
    ensures |units| == |t.frames| && |t.stream| == cfg.maxBytes
  {
    var last;
    units, last := SinkReportsSentUnits(cfg, calls, t, arrivals);
    Tx.RunSendsPrefix(cfg, calls);
    assert t.stream + [] == t.stream;
    if |units| < |t.frames| {
      NotAllYet(t.frames, |units|, last, t.stream);
    } else {
      assert t.frames[..|units|] == t.frames;
    }
  }

  lemma NotAllYet(fs: seq<Bytes>, n: nat, last: Bytes, x: Bytes)
    requires n < |fs| && last < fs[n] && x == Concat(fs[..n]) + last
    ensures |x| < |Concat(fs)|
  {
    ConcatSplit(fs, n);
    assert Concat(fs[n..]) == fs[n] + Concat(fs[n..][1..]);
  }
}
