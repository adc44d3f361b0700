/** What PacketSink does with the bytes of one sender: it cuts whole units off the front of a buffer. */
module PacketSinkSpec {
  import opened Words
  import opened SeqTsSizeHeader
  import opened Frames

  /** What the RxWithSeqTsSize trace source reports for a unit. */
  datatype Unit = Unit(header: Header, payload: Bytes)

  /**
   The loop of PacketReceived, for a buffer whose first header has been peeked at.  Removing the header
   of a fragment shorter than a header reads past its end.
   */
  function Drain(header: Header, buffer: Bytes): Result<(seq<Unit>, Bytes)>
    decreases |buffer|
  {
    if |buffer| < header.size then Ok(([], buffer))
    else if header.size < HEADER_SIZE then Fatal("header reaches past the end of the fragment")
    else
      var complete := buffer[..header.size];
      var rest := buffer[header.size..];
      var unit := Unit(Decode(complete), complete[HEADER_SIZE..]);
      if |rest| > HEADER_SIZE then
        var (units, last) :- Drain(Decode(rest), rest);
        Ok(([unit] + units, last))
      else Ok(([unit], rest))
  }

  function PacketReceived(buffer: Bytes, p: Bytes): Result<(seq<Unit>, Bytes)> {
    var b := buffer + p;
    if |b| < HEADER_SIZE then Fatal("header reaches past the end of the buffer")
    else if Decode(b).size == 0 then Fatal("header.GetSize() == 0")
    else Drain(Decode(b), b)
  }

  /** All arrivals from one sender, one after the other. */
  function ReceiveAll(buffer: Bytes, arrivals: seq<Bytes>): Result<(seq<Unit>, Bytes)>
    decreases |arrivals|
  {
    if arrivals == [] then Ok(([], buffer))
    else
      var (units, b) :- PacketReceived(buffer, arrivals[0]);
      var (more, last) :- ReceiveAll(b, arrivals[1..]);
      Ok((units + more, last))
  }

  // ---- Frames -------------------------------------------------------------------------------------

  /** A unit as the sender makes it: a header that tells the size of the whole, and the payload. */
  predicate IsFrame(f: Bytes) {
    |f| >= HEADER_SIZE && Decode(f).size == |f|
  }

  predicate AreFrames(fs: seq<Bytes>) {
    forall i | 0 <= i < |fs| :: IsFrame(fs[i])
  }

  predicate LongFrames(fs: seq<Bytes>) {
    forall i | 0 <= i < |fs| :: IsFrame(fs[i]) && |fs[i]| > HEADER_SIZE
  }

  function UnitOf(f: Bytes): Unit
    requires |f| >= HEADER_SIZE
  {
    Unit(Decode(f), f[HEADER_SIZE..])
  }

  function UnitsOf(fs: seq<Bytes>): (us: seq<Unit>)
    requires AreFrames(fs)
    ensures |us| == |fs|
    ensures forall i | 0 <= i < |fs| :: us[i] == UnitOf(fs[i])
  {
    seq(|fs|, i requires 0 <= i < |fs| => UnitOf(fs[i]))
  }

  lemma DecodePrefix(b: Bytes, f: Bytes)
    requires |b| >= HEADER_SIZE && |f| >= HEADER_SIZE && b[..HEADER_SIZE] == f[..HEADER_SIZE]
    ensures Decode(b) == Decode(f)
  {
    DecodeFront(b);
    DecodeFront(f);
  }

  /** The number of units one call reports when the buffer is the first `len` bytes of these frames. */
  function Emits(fs: seq<Bytes>, len: nat): (n: nat)
    ensures n <= |fs|
  {
    if fs == [] || len < |fs[0]| then 0
    else if len - |fs[0]| > HEADER_SIZE then 1 + Emits(fs[1..], len - |fs[0]|)
    else 1
  }

  lemma FrontFrame(f: Bytes, tail: Bytes, b: Bytes)
    requires IsFrame(f) && b <= f + tail && |b| >= HEADER_SIZE
    ensures Decode(b) == Decode(f)
    ensures |b| >= |f| ==> b[..|f|] == f && b[|f|..] <= tail
  {
    var whole := f + tail;
    assert b[..HEADER_SIZE] == whole[..HEADER_SIZE] == f[..HEADER_SIZE];
    DecodePrefix(b, f);
    if |b| >= |f| {
      assert b[..|f|] == whole[..|f|] == f;
      assert whole[|f|..] == tail;
    }
  }

  /** `b` starts with the first `n` frames, whose units are `units`, and `rest` is what comes after them. */
  predicate Cut(fs: seq<Bytes>, n: nat, b: Bytes, units: seq<Unit>, rest: Bytes)
    decreases n
  {
    if n == 0 then units == [] && rest == b && b <= Concat(fs)
    else
      && fs != [] && units != [] && IsFrame(fs[0])
      && fs[0] <= b && units[0] == UnitOf(fs[0])
      && Cut(fs[1..], n - 1, b[|fs[0]|..], units[1..], rest)
  }

  lemma ConcatFront(fs: seq<Bytes>, n: nat)
    requires 0 < n <= |fs|
    ensures Concat(fs[..n]) == fs[0] + Concat(fs[1..][..n - 1])
    ensures fs[n..] == fs[1..][n - 1..]
  {
    assert fs[..n][1..] == fs[1..][..n - 1];
  }

  lemma FrontBytes(f: Bytes, front: Bytes, b: Bytes, rest: Bytes)
    requires f <= b && b[|f|..] == front + rest
    ensures b == (f + front) + rest
  {
  }

  lemma {:induction false} CutBytes(fs: seq<Bytes>, n: nat, b: Bytes, units: seq<Unit>, rest: Bytes)
    requires Cut(fs, n, b, units, rest)
    ensures n <= |fs|
    ensures b == Concat(fs[..n]) + rest
    ensures rest <= Concat(fs[n..])
    decreases n
  {
    if n == 0 {
      assert fs[..0] == [] && fs[0..] == fs;
    } else {
      CutBytes(fs[1..], n - 1, b[|fs[0]|..], units[1..], rest);
      FrontBytes(fs[0], Concat(fs[1..][..n - 1]), b, rest);
      ConcatFront(fs, n);
    }
  }

  lemma {:induction false} CutUnits(fs: seq<Bytes>, n: nat, b: Bytes, units: seq<Unit>, rest: Bytes)
    requires Cut(fs, n, b, units, rest)
    ensures n == |units| <= |fs| && AreFrames(fs[..n])
    ensures forall i | 0 <= i < n :: units[i] == UnitOf(fs[i])
    decreases n
  {
    if n > 0 {
      CutUnits(fs[1..], n - 1, b[|fs[0]|..], units[1..], rest);
      forall i | 0 < i < n
        ensures IsFrame(fs[i]) && units[i] == UnitOf(fs[i])
      {
        assert units[1..][i - 1] == UnitOf(fs[1..][i - 1]);
      }
    }
  }

  /** The same, said of the whole sequences at once. */
  lemma CutMeans(fs: seq<Bytes>, n: nat, b: Bytes, units: seq<Unit>, rest: Bytes)
    requires Cut(fs, n, b, units, rest)
    ensures n <= |fs| && AreFrames(fs[..n]) && units == UnitsOf(fs[..n])
    ensures b == Concat(fs[..n]) + rest
    ensures rest <= Concat(fs[n..])
  {
    CutBytes(fs, n, b, units, rest);
    CutUnits(fs, n, b, units, rest);
  }

  lemma {:induction false} CutFurther(fs: seq<Bytes>, n: nat, b: Bytes, units: seq<Unit>, mid: Bytes,
                                      m: nat, more: seq<Unit>, rest: Bytes)
    requires n <= |fs| && Cut(fs, n, b, units, mid) && Cut(fs[n..], m, mid, more, rest)
    ensures Cut(fs, n + m, b, units + more, rest)
    decreases n
  {
    if n == 0 {
      assert fs[0..] == fs && [] + more == more;
    } else {
      assert fs[n..] == fs[1..][n - 1..];
      CutFurther(fs[1..], n - 1, b[|fs[0]|..], units[1..], mid, m, more, rest);
      assert (units + more)[1..] == units[1..] + more;
    }
  }

  lemma CutOneMore(fs: seq<Bytes>, n: nat, b: Bytes, units: seq<Unit>, rest: Bytes)
    requires fs != [] && IsFrame(fs[0]) && fs[0] <= b && Cut(fs[1..], n, b[|fs[0]|..], units, rest)
    ensures Cut(fs, n + 1, b, [UnitOf(fs[0])] + units, rest)
  {
    assert ([UnitOf(fs[0])] + units)[1..] == units;
  }

  /** The loop ends before it has a whole frame, or after the first one. */
  lemma DrainStops(fs: seq<Bytes>, b: Bytes) returns (units: seq<Unit>, rest: Bytes)
    requires fs != [] && IsFrame(fs[0]) && b <= Concat(fs) && HEADER_SIZE <= |b| <= |fs[0]| + HEADER_SIZE
    ensures Drain(Decode(b), b) == Ok((units, rest))
    ensures Cut(fs, Emits(fs, |b|), b, units, rest)
  {
    var f := fs[0];
    FrontFrame(f, Concat(fs[1..]), b);
    if |b| < |f| {
      units, rest := [], b;
    } else {
      units, rest := [UnitOf(f)], b[|f|..];
      assert [UnitOf(f)] + [] == [UnitOf(f)];
      CutOneMore(fs, 0, b, [], rest);
    }
  }

  /** The loop reports the first frame and goes on with the bytes after it. */
  lemma DrainUnfolds(f: Bytes, tail: Bytes, b: Bytes, more: seq<Unit>, rest: Bytes)
    requires IsFrame(f) && b <= f + tail && |b| > |f| + HEADER_SIZE
    requires Drain(Decode(b[|f|..]), b[|f|..]) == Ok((more, rest))
    ensures Drain(Decode(b), b) == Ok(([UnitOf(f)] + more, rest))
  {
    FrontFrame(f, tail, b);
  }

  lemma EmitsOneMore(fs: seq<Bytes>, len: nat)
    requires fs != [] && len > |fs[0]| + HEADER_SIZE
    ensures Emits(fs, len) == Emits(fs[1..], len - |fs[0]|) + 1
  {
  }

  /** What the rest of the buffer holds, seen from the whole of it. */
  lemma DrainGoesOn(fs: seq<Bytes>, b: Bytes, n: nat, more: seq<Unit>, rest: Bytes)
    requires fs != [] && IsFrame(fs[0]) && fs[0] <= b && Cut(fs[1..], n, b[|fs[0]|..], more, rest)
    requires |b| > |fs[0]| + HEADER_SIZE && n == Emits(fs[1..], |b| - |fs[0]|)
    ensures Cut(fs, Emits(fs, |b|), b, [UnitOf(fs[0])] + more, rest)
  {
    EmitsOneMore(fs, |b|);
    CutOneMore(fs, n, b, more, rest);
  }

  /** One call reports `Emits` units, the first frames of the stream, and keeps the bytes after them. */
  lemma {:induction false} DrainCuts(fs: seq<Bytes>, b: Bytes) returns (units: seq<Unit>, rest: Bytes)
    requires AreFrames(fs) && b <= Concat(fs) && |b| >= HEADER_SIZE
    ensures Drain(Decode(b), b) == Ok((units, rest))
    ensures Cut(fs, Emits(fs, |b|), b, units, rest)
    decreases |fs|
  {
    var f, tail := fs[0], fs[1..];
    if |b| <= |f| + HEADER_SIZE {
      units, rest := DrainStops(fs, b);
    } else {
      FrontFrame(f, Concat(tail), b);
      var more;
      more, rest := DrainCuts(tail, b[|f|..]);
      units := [UnitOf(f)] + more;
      DrainUnfolds(f, Concat(tail), b, more, rest);
      DrainGoesOn(fs, b, Emits(tail, |b| - |f|), more, rest);
    }
  }

  lemma DrainFails(f: Bytes, tail: Bytes, b: Bytes)
    requires IsFrame(f) && b == f + tail && |tail| > HEADER_SIZE && Drain(Decode(tail), tail).Fatal?
    ensures Drain(Decode(b), b).Fatal?
  {
    FrontFrame(f, tail, b);
    assert b[|f|..] == tail;
  }

  /** A header that announces less than its own size makes the sink abort, also behind long units. */
  lemma {:induction false} MalformedAborts(fs: seq<Bytes>, bad: Bytes, b: Bytes)
    requires LongFrames(fs) && |bad| > HEADER_SIZE && Decode(bad).size < HEADER_SIZE && b == Concat(fs) + bad
    ensures |b| > HEADER_SIZE && Drain(Decode(b), b).Fatal?
    decreases |fs|
  {
    if fs == [] {
      assert b == bad;
    } else {
      var tail := Concat(fs[1..]) + bad;
      assert b == fs[0] + tail;
      MalformedAborts(fs[1..], bad, tail);
      DrainFails(fs[0], tail, b);
    }
  }

  /** Whatever of it was in the buffer already. */
  lemma MalformedArrivalAborts(fs: seq<Bytes>, bad: Bytes, buffer: Bytes, p: Bytes)
    requires LongFrames(fs) && |bad| > HEADER_SIZE && Decode(bad).size < HEADER_SIZE
    requires buffer + p == Concat(fs) + bad
    ensures PacketReceived(buffer, p).Fatal?
  {
    MalformedAborts(fs, bad, buffer + p);
  }

  // ---- When a whole unit is left behind ---------------------------------------------------------------

  /** The last whole frame ends the buffer, is not the first, and is a bare header. */
  predicate EndsInBareHeader(fs: seq<Bytes>, len: nat) {
    var n := Whole(fs, len);
    n >= 2 && |fs[n - 1]| == HEADER_SIZE && |Concat(fs[..n])| == len
  }

  /** One call reports every whole unit in its buffer, unless the last of several is a bare header. */
  lemma {:induction false} EmitsAllIff(fs: seq<Bytes>, len: nat)
    requires AreFrames(fs)
    ensures Emits(fs, len) == Whole(fs, len) <==> !EndsInBareHeader(fs, len)
    ensures Emits(fs, len) <= Whole(fs, len)
    decreases |fs|
  {
    if fs != [] && len >= |fs[0]| {
      var f, tail, rest := fs[0], fs[1..], len - |fs[0]|;
      var n := Whole(tail, rest);
      assert fs[..n + 1][1..] == tail[..n];
      assert Concat(fs[..n + 1]) == f + Concat(tail[..n]);
      if rest > HEADER_SIZE {
        EmitsAllIff(tail, rest);
        if n == 1 {
          assert tail[..1] == [tail[0]];
          ConcatOne(tail[0]);
        }
      } else if n > 0 {
        assert |tail[0]| == HEADER_SIZE == rest;
        assert tail[..1] == [tail[0]];
        ConcatOne(tail[0]);
      }
    }
  }

  /** Two bare headers, of which one call reports only the first. */
  lemma BareHeaderLeftBehind() returns (fs: seq<Bytes>)
    ensures AreFrames(fs) && EndsInBareHeader(fs, |Concat(fs)|)
    ensures Emits(fs, |Concat(fs)|) == 1 && Whole(fs, |Concat(fs)|) == 2
  {
    var f := Encode(Header(20, 0, 0));
    HeaderRoundTrip(Header(20, 0, 0), []);
    assert f + [] == f;
    fs := [f, f];
    assert fs[1..] == [f] && fs[..2] == fs;
    ConcatOne(f);
  }

  /** Units longer than a header are never left behind. */
  lemma LongFramesEmitAll(fs: seq<Bytes>, len: nat)
    requires LongFrames(fs)
    ensures Emits(fs, len) == Whole(fs, len)
  {
    EmitsAllIff(fs, len);
  }

  // ---- Any segmentation ----------------------------------------------------------------------------------

  /** A call succeeds on a stream of frames exactly when the buffer and the arrival hold a header. */
  lemma ReceivesIffHeaderThere(fs: seq<Bytes>, buffer: Bytes, p: Bytes)
    requires AreFrames(fs) && buffer + p <= Concat(fs)
    ensures PacketReceived(buffer, p).Ok? <==> |buffer + p| >= HEADER_SIZE
    ensures |buffer + p| >= HEADER_SIZE ==>
              PacketReceived(buffer, p) == Drain(Decode(buffer + p), buffer + p)
  {
    var b := buffer + p;
    if |b| >= HEADER_SIZE {
      var units, rest := DrainCuts(fs, b);
      FrontFrame(fs[0], Concat(fs[1..]), b);
    }
  }

  lemma OneArrival(fs: seq<Bytes>, buffer: Bytes, p: Bytes, units: seq<Unit>, b1: Bytes)
    requires LongFrames(fs) && buffer + p <= Concat(fs) && PacketReceived(buffer, p) == Ok((units, b1))
    ensures Cut(fs, Whole(fs, |buffer + p|), buffer + p, units, b1)
  {
    ReceivesIffHeaderThere(fs, buffer, p);
    var found, rest := DrainCuts(fs, buffer + p);
    LongFramesEmitAll(fs, |buffer + p|);
  }

  lemma {:induction false} CutExtends(fs: seq<Bytes>, n: nat, b: Bytes, units: seq<Unit>, rest: Bytes, later: Bytes)
    requires Cut(fs, n, b, units, rest) && b + later <= Concat(fs)
    ensures Cut(fs, n, b + later, units, rest + later)
    decreases n
  {
    if n > 0 {
      var f := fs[0];
      assert (b + later)[|f|..] == b[|f|..] + later;
      assert (b + later)[|f|..] <= Concat(fs)[|f|..] == Concat(fs[1..]);
      CutExtends(fs[1..], n - 1, b[|f|..], units[1..], rest, later);
    }
  }

  lemma CountExtends(fs: seq<Bytes>, b: Bytes, rest: Bytes, later: Bytes)
    requires |rest| == |b| - |Concat(fs[..Whole(fs, |b|)])|
    ensures Whole(fs[Whole(fs, |b|)..], |rest|) == 0
    ensures Whole(fs, |b + later|) == Whole(fs, |b|) + Whole(fs[Whole(fs, |b|)..], |rest + later|)
  {
    WholeInTwo(fs, |b|, |rest|, |later|);
  }

  /** Where one arrival leaves the buffer, seen from everything that is still to come. */
  lemma ArrivalThen(fs: seq<Bytes>, buffer: Bytes, p: Bytes, later: Bytes, units: seq<Unit>, b1: Bytes, n: nat)
    requires LongFrames(fs) && buffer + p + later <= Concat(fs)
    requires PacketReceived(buffer, p) == Ok((units, b1)) && n == Whole(fs, |buffer + p|)
    ensures Cut(fs, n, buffer + p + later, units, b1 + later)
    ensures |b1| == |buffer + p| - |Concat(fs[..n])|
    ensures Whole(fs[n..], |b1|) == 0
    ensures Whole(fs, |buffer + p + later|) == n + Whole(fs[n..], |b1 + later|)
  {
    var b := buffer + p;
    assert b <= b + later;
    OneArrival(fs, buffer, p, units, b1);
    CutBytes(fs, n, b, units, b1);
    CutExtends(fs, n, b, units, b1, later);
    CountExtends(fs, b, b1, later);
  }

  lemma ArrivalLeaves(fs: seq<Bytes>, buffer: Bytes, p: Bytes, later: Bytes, units: seq<Unit>, b1: Bytes, n: nat)
    requires LongFrames(fs) && buffer + p + later <= Concat(fs)
    requires PacketReceived(buffer, p) == Ok((units, b1)) && n == Whole(fs, |buffer + p|)
    ensures LongFrames(fs[n..]) && Whole(fs[n..], |b1|) == 0 && b1 + later <= Concat(fs[n..])
  {
    ArrivalThen(fs, buffer, p, later, units, b1, n);
    CutBytes(fs, n, buffer + p + later, units, b1 + later);
  }

  lemma ArrivalLength(fs: seq<Bytes>, buffer: Bytes, p: Bytes, units: seq<Unit>, b1: Bytes, n: nat)
    requires LongFrames(fs) && buffer + p <= Concat(fs)
    requires PacketReceived(buffer, p) == Ok((units, b1)) && n == Whole(fs, |buffer + p|)
    ensures |b1| == |buffer| + |p| - |Concat(fs[..n])|
  {
    OneArrival(fs, buffer, p, units, b1);
    CutBytes(fs, n, buffer + p, units, b1);
  }

  lemma ArrivalThenMore(fs: seq<Bytes>, buffer: Bytes, p: Bytes, later: Bytes, now: seq<Unit>, b1: Bytes, n: nat,
                       m: nat, more: seq<Unit>, last: Bytes)
    requires LongFrames(fs) && buffer + p + later <= Concat(fs)
    requires PacketReceived(buffer, p) == Ok((now, b1)) && n == Whole(fs, |buffer + p|)
    requires m == Whole(fs[n..], |b1 + later|) && Cut(fs[n..], m, b1 + later, more, last)
    ensures Whole(fs, |buffer + p + later|) == n + m
    ensures Cut(fs, n + m, buffer + p + later, now + more, last)
  {
    ArrivalThen(fs, buffer, p, later, now, b1, n);
    CutFurther(fs, n, buffer + p + later, now, b1 + later, m, more, last);
  }

  lemma ArrivalThenRest(fs: seq<Bytes>, buffer: Bytes, p: Bytes, later: Bytes, now: seq<Unit>, b1: Bytes, n: nat,
                        more: seq<Unit>, last: Bytes)
    requires LongFrames(fs) && buffer + p + later <= Concat(fs)
    requires PacketReceived(buffer, p) == Ok((now, b1)) && n == Whole(fs, |buffer + p|)
    requires Cut(fs[n..], Whole(fs[n..], |b1 + later|), b1 + later, more, last)
    ensures Cut(fs, Whole(fs, |buffer + p + later|), buffer + p + later, now + more, last)
  {
    ArrivalThenMore(fs, buffer, p, later, now, b1, n, Whole(fs[n..], |b1 + later|), more, last);
  }

  /**
   However the stream is cut into arrivals, the units reported are the whole units among the bytes
   received, in order, and the buffer is the part of the next unit that has arrived.
   */
  lemma {:induction false} ReassemblesAll(fs: seq<Bytes>, buffer: Bytes, arrivals: seq<Bytes>)
    returns (units: seq<Unit>, last: Bytes)
    requires LongFrames(fs) && Whole(fs, |buffer|) == 0
    requires buffer + Concat(arrivals) <= Concat(fs)
    requires ReceiveAll(buffer, arrivals).Ok?
    ensures ReceiveAll(buffer, arrivals) == Ok((units, last))
    ensures Cut(fs, Whole(fs, |buffer + Concat(arrivals)|), buffer + Concat(arrivals), units, last)
    decreases |arrivals|
  {
    if arrivals == [] {
      assert buffer + [] == buffer;
      units, last := [], buffer;
    } else {
      var p, later := arrivals[0], Concat(arrivals[1..]);
      assert buffer + p + later == buffer + Concat(arrivals);
      var (now, b1) := PacketReceived(buffer, p).value;
      var n := Whole(fs, |buffer + p|);
      ArrivalLeaves(fs, buffer, p, later, now, b1, n);
      var more;
      more, last := ReassemblesAll(fs[n..], b1, arrivals[1..]);
      units := now + more;
      ArrivalThenRest(fs, buffer, p, later, now, b1, n, more, last);
    }
  }

  // ---- Any segmentation, with bare headers among the units -------------------------------------------------

  /** What is kept holds no whole unit, or is a bare header and nothing more. */
  predicate Kept(fs: seq<Bytes>, len: nat) {
    Whole(fs, len) == 0 || (fs != [] && |fs[0]| == HEADER_SIZE == len)
  }

  lemma {:induction false} EmitsLeaves(fs: seq<Bytes>, len: nat)
    requires AreFrames(fs)
    ensures |Concat(fs[..Emits(fs, len)])| <= len
    ensures Kept(fs[Emits(fs, len)..], len - |Concat(fs[..Emits(fs, len)])|)
    decreases |fs|
  {
    if fs == [] || len < |fs[0]| {
      assert fs[0..] == fs && fs[..0] == [];
    } else {
      var tail, rest := fs[1..], len - |fs[0]|;
      ConcatFront(fs, Emits(fs, len));
      if rest > HEADER_SIZE {
        EmitsLeaves(tail, rest);
      } else {
        assert tail[0..] == tail && tail[..0] == [];
      }
    }
  }

  lemma KeptAfter(fs: seq<Bytes>, b: Bytes, units: seq<Unit>, rest: Bytes, n: nat)
    requires AreFrames(fs) && n == Emits(fs, |b|) && Cut(fs, n, b, units, rest)
    ensures n <= |fs| && AreFrames(fs[n..]) && Kept(fs[n..], |rest|)
  {
    CutBytes(fs, n, b, units, rest);
    EmitsLeaves(fs, |b|);
  }

  /** One arrival; a bare header left behind by the one before is reported now. */
  lemma AnyArrival(fs: seq<Bytes>, buffer: Bytes, p: Bytes, later: Bytes, all: Bytes)
    returns (units: seq<Unit>, b1: Bytes, n: nat)
    requires AreFrames(fs) && all == buffer + p + later <= Concat(fs) && PacketReceived(buffer, p).Ok?
    ensures PacketReceived(buffer, p) == Ok((units, b1))
    ensures n <= |fs| && AreFrames(fs[n..]) && Kept(fs[n..], |b1|)
    ensures Cut(fs, n, all, units, b1 + later) && b1 + later <= Concat(fs[n..])
    ensures Kept(fs, |buffer|) && Whole(fs, |buffer|) > 0 ==> n > 0
  {
    assert buffer + p <= buffer + p + later;
    ReceivesIffHeaderThere(fs, buffer, p);
    units, b1 := DrainCuts(fs, buffer + p);
    n := Emits(fs, |buffer + p|);
    KeptAfter(fs, buffer + p, units, b1, n);
    CutExtends(fs, n, buffer + p, units, b1, later);
    CutBytes(fs, n, all, units, b1 + later);
  }

  lemma ReceiveAllOn(buffer: Bytes, arrivals: seq<Bytes>, now: seq<Unit>, b1: Bytes, more: seq<Unit>, last: Bytes)
    requires arrivals != [] && PacketReceived(buffer, arrivals[0]) == Ok((now, b1))
    requires ReceiveAll(b1, arrivals[1..]) == Ok((more, last))
    ensures ReceiveAll(buffer, arrivals) == Ok((now + more, last))
  {
  }

  /** The first `n` units of `b` have been reported, and what is kept is `last`. */
  predicate Reassembled(fs: seq<Bytes>, n: nat, b: Bytes, units: seq<Unit>, last: Bytes) {
    n <= |fs| && Cut(fs, n, b, units, last) && Kept(fs[n..], |last|)
  }

  lemma ReassembledOn(fs: seq<Bytes>, k: nat, b: Bytes, now: seq<Unit>, mid: Bytes,
                      m: nat, more: seq<Unit>, last: Bytes) returns (n: nat, units: seq<Unit>)
    requires k <= |fs| && Cut(fs, k, b, now, mid) && Reassembled(fs[k..], m, mid, more, last)
    ensures units == now + more && Reassembled(fs, n, b, units, last)
  {
    n, units := k + m, now + more;
    CutFurther(fs, k, b, now, mid, m, more, last);
    assert fs[k..][m..] == fs[n..];
  }

  lemma NothingArrives(fs: seq<Bytes>, buffer: Bytes, b: Bytes)
    requires Kept(fs, |buffer|) && b == buffer + [] <= Concat(fs)
    ensures Reassembled(fs, 0, b, [], buffer)
  {
    assert b == buffer && fs[0..] == fs;
  }

  /**
   For every segmentation of any units, bare headers included, those reported are the first `n`, in order;
   a whole unit is left behind only if it is a bare header that ends the bytes received.
   */
  lemma {:induction false} ReassemblesAny(fs: seq<Bytes>, buffer: Bytes, arrivals: seq<Bytes>, b: Bytes)
    returns (n: nat, units: seq<Unit>, last: Bytes)
    requires AreFrames(fs) && Kept(fs, |buffer|) && b == buffer + Concat(arrivals) <= Concat(fs)
    requires ReceiveAll(buffer, arrivals).Ok?
    ensures ReceiveAll(buffer, arrivals) == Ok((units, last))
    ensures Reassembled(fs, n, b, units, last)
    decreases |arrivals|
  {
    if arrivals == [] {
      NothingArrives(fs, buffer, b);
      n, units, last := 0, [], buffer;
    } else {
      var later := Concat(arrivals[1..]);
      assert b == buffer + arrivals[0] + later;
      var now, b1, k := AnyArrival(fs, buffer, arrivals[0], later, b);
      var m, more;
      m, more, last := ReassemblesAny(fs[k..], b1, arrivals[1..], b1 + later);
      n, units := ReassembledOn(fs, k, b, now, b1 + later, m, more, last);
      ReceiveAllOn(buffer, arrivals, now, b1, more, last);
    }
  }

  /** Every arrival leaves at least a header's worth of bytes to peek at. */
  predicate HeaderAlwaysThere(fs: seq<Bytes>, len: nat, arrivals: seq<Bytes>)
    decreases |arrivals|
  {
    arrivals == [] ||
    var now := len + |arrivals[0]|;
    var n := Whole(fs, now);
    && now >= HEADER_SIZE
    && |Concat(fs[..n])| <= now
    && HeaderAlwaysThere(fs[n..], now - |Concat(fs[..n])|, arrivals[1..])
  }

  lemma HeadersThereStep(fs: seq<Bytes>, len: nat, arrivals: seq<Bytes>, n: nat, left: nat)
    requires arrivals != [] && n == Whole(fs, len + |arrivals[0]|)
    requires len + |arrivals[0]| >= HEADER_SIZE && left == len + |arrivals[0]| - |Concat(fs[..n])|
    ensures HeaderAlwaysThere(fs, len, arrivals) <==> HeaderAlwaysThere(fs[n..], left, arrivals[1..])
  {
  }

  lemma ReceiveAllStep(buffer: Bytes, arrivals: seq<Bytes>, units: seq<Unit>, b1: Bytes)
    requires arrivals != [] && PacketReceived(buffer, arrivals[0]) == Ok((units, b1))
    ensures ReceiveAll(buffer, arrivals).Ok? <==> ReceiveAll(b1, arrivals[1..]).Ok?
  {
  }

  lemma ReceiveAllStops(fs: seq<Bytes>, buffer: Bytes, arrivals: seq<Bytes>)
    requires arrivals != [] && |buffer| + |arrivals[0]| < HEADER_SIZE
    ensures ReceiveAll(buffer, arrivals).Fatal? && !HeaderAlwaysThere(fs, |buffer|, arrivals)
  {
  }

  lemma FirstArrival(fs: seq<Bytes>, buffer: Bytes, p: Bytes, later: Bytes)
    returns (units: seq<Unit>, b1: Bytes, n: nat)
    requires LongFrames(fs) && buffer + p + later <= Concat(fs) && |buffer| + |p| >= HEADER_SIZE
    ensures PacketReceived(buffer, p) == Ok((units, b1)) && n == Whole(fs, |buffer| + |p|)
    ensures LongFrames(fs[n..]) && b1 + later <= Concat(fs[n..])
    ensures |b1| == |buffer| + |p| - |Concat(fs[..n])|
  {
    assert buffer + p <= buffer + p + later;
    ReceivesIffHeaderThere(fs, buffer, p);
    units, b1 := DrainCuts(fs, buffer + p);
    n := Whole(fs, |buffer + p|);
    ArrivalLeaves(fs, buffer, p, later, units, b1, n);
    ArrivalLength(fs, buffer, p, units, b1, n);
  }

  /** The sink aborts on a well-formed stream exactly when an arrival leaves less than a header. */
  lemma {:induction false} ReceivesAllIffHeadersThere(fs: seq<Bytes>, buffer: Bytes, arrivals: seq<Bytes>)
    requires LongFrames(fs) && buffer + Concat(arrivals) <= Concat(fs)
    ensures ReceiveAll(buffer, arrivals).Ok? <==> HeaderAlwaysThere(fs, |buffer|, arrivals)
    decreases |arrivals|
  {
    if arrivals == [] {
    } else if |buffer| + |arrivals[0]| < HEADER_SIZE {
      ReceiveAllStops(fs, buffer, arrivals);
    } else {
      var p, later := arrivals[0], Concat(arrivals[1..]);
      assert buffer + p + later == buffer + Concat(arrivals);
      var units, b1, n := FirstArrival(fs, buffer, p, later);
      ReceivesAllIffHeadersThere(fs[n..], b1, arrivals[1..]);
      HeadersThereStep(fs, |buffer|, arrivals, n, |b1|);
      ReceiveAllStep(buffer, arrivals, units, b1);
    }
  }
}
