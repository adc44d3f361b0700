/** PacketSink as an object: one reassembly buffer for each sender, and the trace of the units found. */
module PacketSink {
  import opened Words
  import opened SeqTsSizeHeader
  import opened SinkReports
  import Spec = PacketSinkSpec

  class PacketSink {
    const enableSeqTsSizeHeader: bool
    var traced: bool // something is connected to the RxWithSeqTsSize trace source
    var totalRx: nat
    var buffer: map<Address, Bytes>
    ghost var reports: seq<Report>

    constructor (enableSeqTsSizeHeader: bool, traced: bool)
      ensures this.enableSeqTsSizeHeader == enableSeqTsSizeHeader && this.traced == traced
      ensures totalRx == 0 && buffer == map[] && reports == []
    {
      this.enableSeqTsSizeHeader, this.traced := enableSeqTsSizeHeader, traced;
      totalRx, buffer, reports := 0, map[], [];
    }

    /** A sender heard from for the first time starts with an empty buffer. */
    ghost function Pending(from: Address): Bytes
      reads this
    {
      PendingIn(buffer, from)
    }

    /** The outcome `r` has come about for this sender, and no other sender's buffer has changed. */
    ghost predicate Became(ok: bool, from: Address, r: Result<(seq<Spec.Unit>, Bytes)>,
                           before: map<Address, Bytes>, reported: seq<Report>)
      reads this
    {
      && buffer - {from} == before - {from}
      && ok == r.Ok?
      && (ok ==> reports == reported + Reports(from, r.value.0))
      && (ok ==> from in buffer && buffer[from] == r.value.1)
    }

    method PacketReceived(p: Bytes, from: Address) returns (ok: bool)
      modifies this`buffer, this`reports
      ensures Became(ok, from, Spec.PacketReceived(old(Pending(from)), p), old(buffer), old(reports))
    {
      var b := if from in buffer then buffer[from] else [];
      b := b + p;
      buffer := buffer[from := b];
      if |b| < HEADER_SIZE {
        return false;
      }
      var header := Decode(b);
      if header.size == 0 {
        return false;
      }
      ok, b := Drain(from, header, b);
      buffer := buffer[from := b];
    }

    /** The loop that reports the whole units at the front of a buffer, and returns the bytes after them. */
    method Drain(from: Address, firstHeader: Header, b0: Bytes) returns (ok: bool, b: Bytes)
      modifies this`reports
      ensures ok == Spec.Drain(firstHeader, b0).Ok?
      ensures ok ==> reports == old(reports) + Reports(from, Spec.Drain(firstHeader, b0).value.0)
      ensures ok ==> b == Spec.Drain(firstHeader, b0).value.1
    {
      ghost var whole := Spec.Drain(firstHeader, b0);
      ghost var units: seq<Spec.Unit> := [];
      var header := firstHeader;
      b := b0;
      ThenNothing(whole);
      var more := true;
      while more && |b| >= header.size
        invariant reports == old(reports) + Reports(from, units)
        invariant more ==> Then(units, Spec.Drain(header, b)) == whole
        invariant !more ==> whole == Ok((units, b))
        decreases more, |b|
      {
        if header.size < HEADER_SIZE {
          return false, b;
        }
        var complete := b[..header.size];
        b := b[header.size..];
        header := Decode(complete);
        var unit := Spec.Unit(header, complete[HEADER_SIZE..]);
        reports := reports + [Report(from, unit)];
        assert Reports(from, units + [unit]) == Reports(from, units) + [Report(from, unit)];
        if |b| > HEADER_SIZE {
          header := Decode(b);
          ThenOneMore(units, unit, Spec.Drain(header, b));
        } else {
          more := false;
        }
        units := units + [unit];
      }
      assert units + [] == units;
      ok := true;
    }

    /** What is known once `done` has been reported and `r` is what the rest will give. */
    static ghost function Then(done: seq<Spec.Unit>, r: Result<(seq<Spec.Unit>, Bytes)>)
      : Result<(seq<Spec.Unit>, Bytes)>
    {
      if r.Ok? then Ok((done + r.value.0, r.value.1)) else r
    }

    static lemma ThenNothing(r: Result<(seq<Spec.Unit>, Bytes)>)
      ensures Then([], r) == r
    {
      if r.Ok? {
        assert [] + r.value.0 == r.value.0;
      }
    }

    static lemma ThenOneMore(done: seq<Spec.Unit>, unit: Spec.Unit, r: Result<(seq<Spec.Unit>, Bytes)>)
      ensures Then(done, Then([unit], r)) == Then(done + [unit], r)
    {
      if r.Ok? {
        assert done + ([unit] + r.value.0) == done + [unit] + r.value.0;
      }
    }

    /**
     `packets` is what RecvFrom returns, one after the other; an empty packet ends the loop.  Units are put
     together only when the header is enabled and somebody listens to the trace.
     */
    method HandleRead(packets: seq<(Bytes, Address)>) returns (ok: bool)
      modifies this`totalRx, this`buffer, this`reports
      ensures ok ==> totalRx == old(totalRx) + BytesRead(packets)
      ensures !(traced && enableSeqTsSizeHeader) ==> ok && buffer == old(buffer) && reports == old(reports)
      ensures traced && enableSeqTsSizeHeader ==> ok == HandleAll(old(buffer), old(reports), packets).Ok?
      ensures traced && enableSeqTsSizeHeader && ok ==>
                (buffer, reports) == HandleAll(old(buffer), old(reports), packets).value
    {
      ghost var whole := HandleAll(buffer, reports, packets);
      var rest := packets;
      while rest != []
        invariant totalRx + BytesRead(rest) == old(totalRx) + BytesRead(packets)
        invariant if traced && enableSeqTsSizeHeader then whole == HandleAll(buffer, reports, rest)
                  else buffer == old(buffer) && reports == old(reports)
        decreases |rest|
      {
        var (packet, from) := rest[0];
        if packet == [] {
          return true;
        }
        totalRx := totalRx + |packet|;
        if traced && enableSeqTsSizeHeader {
          ghost var before := buffer;
          ok := PacketReceived(packet, from);
          if !ok {
            return;
          }
          OneEntryChanged(before, buffer, from);
        }
        rest := rest[1..];
      }
      ok := true;
    }
  }
}
