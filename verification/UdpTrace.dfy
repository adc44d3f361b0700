/** UdpTraceClient: loading a trace of frames, and sending it frame by frame. */
module UdpTrace {
  import opened Words
  import opened Division

  datatype FrameType = B | Other

  datatype Line = Line(index: uint32, frameType: FrameType, time: uint32, size: uint32)

  datatype Entry = Entry(timeToSend: uint32, packetSize: uint32, frameType: FrameType)

  // ---- Loading ------------------------------------------------------------------------------------------

  /** The difference of two 32-bit unsigned times. */
  function Minus(a: uint32, b: uint32): uint32 {
    (a - b) % TWO_32
  }

  /** A B frame goes out with the frame before it; any other waits for its time. */
  function EntryFor(l: Line, prevTime: uint32): Entry {
    Entry(if l.frameType == B then 0 else Minus(l.time, prevTime), l.size, l.frameType)
  }

  function TimeAfter(l: Line, prevTime: uint32): uint32 {
    if l.frameType == B then prevTime else l.time
  }

  /** The entries of the lines, given the index and the time read last; a repeated index is skipped. */
  function Entries(lines: seq<Line>, oldIndex: uint32, prevTime: uint32): seq<Entry> {
    if lines == [] then []
    else if lines[0].index == oldIndex then Entries(lines[1..], oldIndex, prevTime)
    else [EntryFor(lines[0], prevTime)] + Entries(lines[1..], lines[0].index, TimeAfter(lines[0], prevTime))
  }

  /** The time of the last line that is kept and is not a B frame, or the time read before. */
  function LastTime(lines: seq<Line>, oldIndex: uint32, prevTime: uint32): uint32 {
    if lines == [] then prevTime
    else if lines[0].index == oldIndex then LastTime(lines[1..], oldIndex, prevTime)
    else LastTime(lines[1..], lines[0].index, TimeAfter(lines[0], prevTime))
  }

  function TotalTime(es: seq<Entry>): nat {
    if es == [] then 0 else es[0].timeToSend + TotalTime(es[1..])
  }

  lemma OneWait(l: Line, prevTime: uint32, later: nat)
    ensures (prevTime + EntryFor(l, prevTime).timeToSend + later) % TWO_32
         == (TimeAfter(l, prevTime) + later) % TWO_32
  {
  }

  /** The waiting times telescope: together they lead from the first time to the last, modulo 2^32. */
  lemma {:induction false} TimesTelescope(lines: seq<Line>, oldIndex: uint32, prevTime: uint32)
    ensures (prevTime + TotalTime(Entries(lines, oldIndex, prevTime))) % TWO_32 == LastTime(lines, oldIndex, prevTime)
  {
    if lines != [] {
      var l, rest := lines[0], lines[1..];
      if l.index == oldIndex {
        TimesTelescope(rest, oldIndex, prevTime);
      } else {
        var more := Entries(rest, l.index, TimeAfter(l, prevTime));
        TimesTelescope(rest, l.index, TimeAfter(l, prevTime));
        assert ([EntryFor(l, prevTime)] + more)[1..] == more;
        OneWait(l, prevTime, TotalTime(more));
      }
    }
  }

  /** Some entry has to be waited for. */
  predicate HasWait(es: seq<Entry>) {
    exists i :: 0 <= i < |es| && es[i].timeToSend != 0
  }

  lemma {:induction false} NoWaitNoTime(es: seq<Entry>)
    requires !HasWait(es)
    ensures TotalTime(es) == 0
  {
    if es != [] {
      assert es[0].timeToSend == 0;
      assert forall i | 0 <= i < |es[1..]| :: es[1..][i] == es[i + 1];
      NoWaitNoTime(es[1..]);
    }
  }

  /** The loader's assertion that the last time is not zero is enough for the sender's loop to end. */
  lemma AssertionGivesWait(lines: seq<Line>)
    requires LastTime(lines, 0, 0) != 0
    ensures HasWait(Entries(lines, 0, 0))
  {
    TimesTelescope(lines, 0, 0);
    if !HasWait(Entries(lines, 0, 0)) {
      NoWaitNoTime(Entries(lines, 0, 0));
    }
  }

  /** The times of the lines that are kept and are not B frames. */
  function Times(lines: seq<Line>, oldIndex: uint32): seq<uint32> {
    if lines == [] then []
    else if lines[0].index == oldIndex then Times(lines[1..], oldIndex)
    else (if lines[0].frameType == B then [] else [lines[0].time]) + Times(lines[1..], lines[0].index)
  }

  predicate AllAre(times: seq<uint32>, t: uint32) {
    forall i | 0 <= i < |times| :: times[i] == t
  }

  lemma AllAreCons(x: uint32, times: seq<uint32>, t: uint32)
    ensures AllAre([x] + times, t) <==> x == t && AllAre(times, t)
  {
    assert ([x] + times)[0] == x;
    assert ([x] + times)[1..] == times;
    forall i | 0 <= i < |times|
      ensures times[i] == ([x] + times)[i + 1]
    {
    }
  }

  lemma HasWaitCons(e: Entry, es: seq<Entry>)
    ensures HasWait([e] + es) <==> e.timeToSend != 0 || HasWait(es)
  {
    assert ([e] + es)[0] == e;
    forall i | 0 <= i < |es|
      ensures es[i] == ([e] + es)[i + 1]
    {
    }
  }

  /** Some entry has to be waited for exactly when some time differs from the one before the trace. */
  lemma {:induction false} HasWaitIff(lines: seq<Line>, oldIndex: uint32, prevTime: uint32)
    ensures HasWait(Entries(lines, oldIndex, prevTime)) <==> !AllAre(Times(lines, oldIndex), prevTime)
    ensures var ts := Times(lines, oldIndex);
            LastTime(lines, oldIndex, prevTime) == if ts == [] then prevTime else ts[|ts| - 1]
  {
    if lines != [] {
      var l, rest := lines[0], lines[1..];
      if l.index == oldIndex {
        HasWaitIff(rest, oldIndex, prevTime);
      } else {
        var next := TimeAfter(l, prevTime);
        HasWaitIff(rest, l.index, next);
        HasWaitCons(EntryFor(l, prevTime), Entries(rest, l.index, next));
        var ts := Times(rest, l.index);
        if l.frameType == B {
          assert [] + ts == ts;
        } else {
          AllAreCons(l.time, ts, prevTime);
        }
      }
    }
  }

  /** The assertion, meant for traces of B frames only, also rejects a trace whose last time reads 0. */
  lemma AssertionRejectsTraceWithWaits()
    ensures var lines := [Line(1, Other, 5, 100), Line(2, Other, 0, 100)];
            LastTime(lines, 0, 0) == 0 && HasWait(Entries(lines, 0, 0))
  {
    var lines := [Line(1, Other, 5, 100), Line(2, Other, 0, 100)];
    assert lines[1..] == [lines[1]] && lines[1..][1..] == [];
    assert Entries(lines, 0, 0)[0].timeToSend == 5;
  }

  /** The lines whose index differs from that of the line before, which is `before` for the first. */
  function Kept(lines: seq<Line>, before: uint32): seq<Line> {
    if lines == [] then []
    else (if lines[0].index != before then [lines[0]] else []) + Kept(lines[1..], lines[0].index)
  }

  /** The entry of a line, after waits of `waited` in all since the time `prevTime`. */
  predicate IsEntryOf(e: Entry, l: Line, prevTime: uint32, waited: nat) {
    && e.packetSize == l.size && e.frameType == l.frameType
    && (if l.frameType == B then e.timeToSend == 0 else (prevTime + waited + e.timeToSend) % TWO_32 == l.time)
  }

  lemma FirstEntry(l: Line, prevTime: uint32)
    ensures IsEntryOf(EntryFor(l, prevTime), l, prevTime, 0)
    ensures TimeAfter(l, prevTime) == (prevTime + EntryFor(l, prevTime).timeToSend) % TWO_32
  {
  }

  lemma LaterEntry(e: Entry, l: Line, prevTime: uint32, wait: nat, next: uint32, waited: nat)
    requires IsEntryOf(e, l, next, waited) && next == (prevTime + wait) % TWO_32
    ensures IsEntryOf(e, l, prevTime, wait + waited)
  {
  }

  /**
   One entry for each kept line, in order, with its size and type.  A B frame is not waited for, and the waits
   up to any other frame lead to its time, modulo 2^32.
   */
  lemma {:induction false} EntriesOfLines(lines: seq<Line>, before: uint32, prevTime: uint32)
    ensures |Entries(lines, before, prevTime)| == |Kept(lines, before)|
    ensures forall i | 0 <= i < |Kept(lines, before)| ::
              IsEntryOf(Entries(lines, before, prevTime)[i], Kept(lines, before)[i], prevTime,
                        TotalTime(Entries(lines, before, prevTime)[..i]))
  {
    if lines != [] {
      var l, rest := lines[0], lines[1..];
      if l.index == before {
        EntriesOfLines(rest, before, prevTime);
        assert [] + Kept(rest, before) == Kept(rest, before);
      } else {
        var e, next := EntryFor(l, prevTime), TimeAfter(l, prevTime);
        var more, kept := Entries(rest, l.index, next), Kept(rest, l.index);
        EntriesOfLines(rest, l.index, next);
        FirstEntry(l, prevTime);
        var es := [e] + more;
        assert es[..0] == [];
        forall i | 0 < i < |es|
          ensures IsEntryOf(es[i], kept[i - 1], prevTime, TotalTime(es[..i]))
        {
          LaterEntry(more[i - 1], kept[i - 1], prevTime, e.timeToSend, next, TotalTime(more[..i - 1]));
          assert es[..i][1..] == more[..i - 1];
        }
      }
    }
  }

  // ---- Sending ----------------------------------------------------------------------------------------------

  /** The entry `k` places on from entry `i`, going round. */
  function Ahead(n: nat, i: nat, k: nat): (j: nat)
    requires i < n
    ensures j < n
  {
    (i + k) % n
  }

  /** Going round reaches every entry within one turn. */
  lemma ReachesAll(n: nat, i: nat, j: nat) returns (k: nat)
    requires i < n && j < n
    ensures 1 <= k <= n && Ahead(n, i, k) == j
  {
    if j > i {
      k := j - i;
      DivModUnique(j, n, 0, j);
    } else {
      k := j - i + n;
      DivModUnique(j + n, n, 1, j);
    }
  }

  predicate WaitsAt(es: seq<Entry>, cur: nat, k: nat)
    requires cur < |es|
  {
    es[Ahead(|es|, cur, k)].timeToSend != 0
  }

  /** The sender's loop, which runs until the next entry has to be waited for, ends exactly when one has. */
  lemma SendEndsIff(es: seq<Entry>, cur: nat)
    requires cur < |es|
    ensures (exists k :: 1 <= k <= |es| && WaitsAt(es, cur, k)) <==> HasWait(es)
    ensures (exists k :: 1 <= k && WaitsAt(es, cur, k)) <==> HasWait(es)
  {
    if HasWait(es) {
      var i :| 0 <= i < |es| && es[i].timeToSend != 0;
      var k := ReachesAll(|es|, cur, i);
      assert WaitsAt(es, cur, k);
    }
  }

  /** The sizes asked for to send a frame: full packets and then the remainder, which may be empty. */
  function PacketSizes(size: nat, max: nat): seq<nat>
    requires max > 0
  {
    seq(size / max, _ => max) + [size % max]
  }

  function SumOf(xs: seq<nat>): nat {
    if xs == [] then 0 else SumOf(xs[..|xs| - 1]) + xs[|xs| - 1]
  }

  lemma {:induction false} SumOfCopies(n: nat, x: nat)
    ensures SumOf(seq(n, _ => x)) == n * x
  {
    if n > 0 {
      SumOfCopies(n - 1, x);
      assert seq(n, _ => x)[..n - 1] == seq(n - 1, _ => x);
      assert (n - 1) * x + x == n * x;
    }
  }

  /** The packets of a frame add up to the frame, and none is larger than the limit. */
  lemma PacketsMakeFrame(size: nat, max: nat)
    requires max > 0
    ensures SumOf(PacketSizes(size, max)) == size
    ensures forall i | 0 <= i < |PacketSizes(size, max)| :: PacketSizes(size, max)[i] <= max
  {
    var full := seq(size / max, _ => max);
    SumOfCopies(size / max, max);
    Quotient(size, max);
    assert (full + [size % max])[..|full|] == full;
  }

  /** They are full but for the last, which is smaller. */
  lemma PacketsAreFull(size: nat, max: nat)
    requires max > 0
    ensures var ps := PacketSizes(size, max);
            && ps != [] && ps[|ps| - 1] < max
            && forall i | 0 <= i < |ps| - 1 :: ps[i] == max
  {
  }

  /** The packet sizes of the `m` frames from entry `cur` on. */
  function Frames(es: seq<Entry>, cur: nat, m: nat, max: nat): seq<nat>
    requires cur < |es| && max > 0
  {
    if m == 0 then []
    else Frames(es, cur, m - 1, max) + PacketSizes(es[Ahead(|es|, cur, m - 1)].packetSize, max)
  }

  lemma {:induction false} SumOfJoin(xs: seq<nat>, ys: seq<nat>)
    ensures SumOf(xs + ys) == SumOf(xs) + SumOf(ys)
  {
    if ys == [] {
      assert xs + ys == xs;
    } else {
      SumOfJoin(xs, ys[..|ys| - 1]);
      assert (xs + ys)[..|xs + ys| - 1] == xs + ys[..|ys| - 1];
    }
  }

  /** The frame sizes of the `m` entries from `cur` on, going round. */
  function SizesAhead(es: seq<Entry>, cur: nat, m: nat): (r: seq<nat>)
    requires cur < |es|
    ensures |r| == m
  {
    seq(m, k requires 0 <= k < m => es[Ahead(|es|, cur, k)].packetSize)
  }

  /** What is asked for adds up to the frames. */
  lemma {:induction false} AskedAddsUp(es: seq<Entry>, cur: nat, m: nat, max: nat)
    requires cur < |es| && max > 0
    ensures SumOf(Frames(es, cur, m, max)) == SumOf(SizesAhead(es, cur, m))
  {
    if m > 0 {
      var size := es[Ahead(|es|, cur, m - 1)].packetSize;
      AskedAddsUp(es, cur, m - 1, max);
      SumOfJoin(Frames(es, cur, m - 1, max), PacketSizes(size, max));
      PacketsMakeFrame(size, max);
      assert SizesAhead(es, cur, m)[..m - 1] == SizesAhead(es, cur, m - 1);
    }
  }

  /** The packets of the frames are asked for frame by frame, in the order of the entries. */
  lemma {:induction false} AskedInOrder(es: seq<Entry>, cur: nat, k: nat, m: nat, max: nat)
    requires cur < |es| && max > 0 && k <= m
    ensures Frames(es, cur, k, max) <= Frames(es, cur, m, max)
    decreases m
  {
    if k < m {
      AskedInOrder(es, cur, k, m - 1, max);
    }
  }

  /** The sizes of the `m` kept lines from the `cur`-th on, going round. */
  function LineSizes(kept: seq<Line>, cur: nat, m: nat): (r: seq<nat>)
    requires cur < |kept|
    ensures |r| == m
  {
    seq(m, k requires 0 <= k < m => kept[Ahead(|kept|, cur, k)].size)
  }

  /** For a loaded trace, what a firing asks for adds up to the sizes of the lines it stands for. */
  lemma AskedIsWhatTheTraceSays(lines: seq<Line>, cur: nat, m: nat, max: nat)
    requires cur < |Entries(lines, 0, 0)| && max > 0
    ensures cur < |Kept(lines, 0)|
    ensures SumOf(Frames(Entries(lines, 0, 0), cur, m, max)) == SumOf(LineSizes(Kept(lines, 0), cur, m))
  {
    EntriesOfLines(lines, 0, 0);
    AskedAddsUp(Entries(lines, 0, 0), cur, m, max);
    var es, kept := Entries(lines, 0, 0), Kept(lines, 0);
    assert SizesAhead(es, cur, m) == LineSizes(kept, cur, m) by {
      forall k | 0 <= k < m
        ensures SizesAhead(es, cur, m)[k] == LineSizes(kept, cur, m)[k]
      {
        var j := Ahead(|es|, cur, k);
        assert IsEntryOf(es[j], kept[j], 0, TotalTime(es[..j]));
      }
    }
  }

  /** What a packet of this size asked for has on the wire: never less than its 12-byte header. */
  function WireSize(size: nat): nat {
    if size > 12 then size else 12
  }

  /** A packet is as large as asked for, unless its header alone is larger. */
  lemma WireSizeIs(size: nat)
    ensures size <= WireSize(size) && 12 <= WireSize(size)
    ensures WireSize(size) == size || (size < 12 && WireSize(size) == 12)
  {
  }

  datatype Sent = Sent(seqNum: uint32, size: nat)

  class UdpTraceClient {
    var entries: seq<Entry>
    var currentEntry: nat
    var maxPacketSize: uint16
    var traceLoop: bool
    var sent: uint32
    var willing: seq<bool>        // the socket's verdicts; after the last it takes everything
    var sendEvent: Option<uint32> // the delay of the Send that is pending
    ghost var asked: seq<nat>
    ghost var accepted: seq<Sent>

    /** Accepted packets are numbered without a gap. */
    ghost predicate Numbered()
      reads this
    {
      && sent == |accepted| % TWO_32
      && forall k | 0 <= k < |accepted| :: accepted[k].seqNum == k % TWO_32
    }

    constructor (maxPacketSize: uint16, traceLoop: bool)
      requires maxPacketSize > 0
      ensures entries == [] && currentEntry == 0 && Numbered() && asked == [] && accepted == []
      ensures this.maxPacketSize == maxPacketSize && this.traceLoop == traceLoop && sendEvent == None
    {
      entries, currentEntry, sent, willing, sendEvent := [], 0, 0, [], None;
      this.maxPacketSize, this.traceLoop := maxPacketSize, traceLoop;
      asked, accepted := [], [];
    }

    /** The entry of one line is appended. */
    method ReadLine(l: Line, prevTime: uint32) returns (time: uint32)
      modifies this`entries
      ensures entries == old(entries) + [EntryFor(l, prevTime)]
      ensures time == TimeAfter(l, prevTime)
    {
      time := prevTime;
      var timeToSend: uint32 := 0;
      if l.frameType != B {
        timeToSend := Minus(l.time, prevTime);
        time := l.time;
      }
      entries := entries + [Entry(timeToSend, l.size, l.frameType)];
    }

    /** The reading loop, which ends with the last time read. */
    method ReadLines(lines: seq<Line>) returns (prevTime: uint32)
      modifies this`entries
      ensures entries == old(entries) + Entries(lines, 0, 0)
      ensures prevTime == LastTime(lines, 0, 0)
    {
      prevTime := 0;
      var oldIndex: uint32 := 0;
      var rest := lines;
      while rest != []
        invariant entries + Entries(rest, oldIndex, prevTime) == old(entries) + Entries(lines, 0, 0)
        invariant LastTime(rest, oldIndex, prevTime) == LastTime(lines, 0, 0)
        decreases |rest|
      {
        if rest[0].index != oldIndex {
          Regroup(entries, rest, oldIndex, prevTime);
          oldIndex := rest[0].index;
          prevTime := ReadLine(rest[0], prevTime);
        }
        rest := rest[1..];
      }
      assert entries + [] == entries;
    }

    lemma Regroup(done: seq<Entry>, rest: seq<Line>, oldIndex: uint32, prevTime: uint32)
      requires rest != [] && rest[0].index != oldIndex
      ensures done + Entries(rest, oldIndex, prevTime)
           == done + [EntryFor(rest[0], prevTime)] + Entries(rest[1..], rest[0].index, TimeAfter(rest[0], prevTime))
    {
    }

    /**
     `file` is what the stream yields, line by line, or None if it cannot be opened.  In that case the
     built-in trace is loaded, and yet the assertion on the last time read fails.
     */
    method LoadTrace(file: Option<seq<Line>>, defaults: seq<Line>) returns (ok: bool)
      requires forall i | 0 <= i < |defaults| :: defaults[i].index == i + 1
      modifies this`entries, this`currentEntry
      ensures file.Some? ==> entries == Entries(file.value, 0, 0)
      ensures file.Some? ==> (ok <==> LastTime(file.value, 0, 0) != 0)
      ensures file.None? ==> entries == Entries(defaults, 0, 0) && !ok
      ensures ok ==> HasWait(entries) && currentEntry == 0
    {
      entries := [];
      var prevTime: uint32 := 0;
      if file.None? {
        LoadDefaultTrace(defaults);
        assert [] + entries == entries;
      } else {
        prevTime := ReadLines(file.value);
        assert [] + entries == entries;
      }
      if prevTime == 0 {
        return false;
      }
      if file.Some? {
        AssertionGivesWait(file.value);
      }
      currentEntry := 0;
      ok := true;
    }

    /** Appends the built-in trace, whose lines all count. */
    method LoadDefaultTrace(defaults: seq<Line>)
      requires forall i | 0 <= i < |defaults| :: defaults[i].index == i + 1
      modifies this`entries, this`currentEntry
      ensures entries == old(entries) + Entries(defaults, 0, 0)
      ensures currentEntry == 0
    {
      var prevTime: uint32 := 0;
      assert defaults[0..] == defaults;
      for i := 0 to |defaults|
        invariant i < TWO_32
        invariant entries + Entries(defaults[i..], i, prevTime) == old(entries) + Entries(defaults, 0, 0)
      {
        assert defaults[i..][0] == defaults[i] && defaults[i..][1..] == defaults[i + 1..];
        Regroup(entries, defaults[i..], i, prevTime);
        prevTime := ReadLine(defaults[i], prevTime);
      }
      assert entries + [] == entries;
      currentEntry := 0;
    }

    method SendPacket(size: nat)
      requires Numbered()
      modifies this
      ensures Numbered()
      ensures unchanged(`entries) && unchanged(`currentEntry) && unchanged(`maxPacketSize) && unchanged(`traceLoop)
      ensures unchanged(`sendEvent)
      ensures asked == old(asked) + [size]
      ensures accepted == if old(willing) == [] || old(willing)[0]
                          then old(accepted) + [Sent(old(sent), WireSize(size))] else old(accepted)
      ensures willing == if old(willing) == [] then [] else old(willing)[1..]
    {
      var payload := if size > 12 then size - 12 else 0;
      var takes := true;
      if willing != [] {
        takes, willing := willing[0], willing[1..];
      }
      asked := asked + [size];
      if takes {
        accepted := accepted + [Sent(sent, payload + 12)];
        sent := (sent + 1) % TWO_32;
      }
    }

    /** One frame: full packets, then the remainder. */
    method SendFrame(size: uint32)
      requires maxPacketSize > 0 && Numbered()
      modifies this
      ensures Numbered()
      ensures unchanged(`entries) && unchanged(`currentEntry) && unchanged(`maxPacketSize) && unchanged(`traceLoop)
      ensures unchanged(`sendEvent)
      ensures asked == old(asked) + PacketSizes(size, maxPacketSize)
    {
      var max: nat := maxPacketSize;
      assert asked + seq(0, _ => max) == asked;
      for i := 0 to size / max
        invariant Numbered()
        invariant unchanged(`entries) && unchanged(`currentEntry) && unchanged(`maxPacketSize) && unchanged(`traceLoop)
        invariant unchanged(`sendEvent)
        invariant asked == old(asked) + seq(i, _ => max)
      {
        SendPacket(max);
        assert seq(i + 1, _ => max) == seq(i, _ => max) + [max];
      }
      SendPacket(size % max);
    }

    /** One round of the loop, the `m`-th after entry `cur`: sends a frame and moves on, going round. */
    method SendCurrent(ghost cur: nat, ghost m: nat) returns (wrapped: bool)
      requires maxPacketSize > 0 && Numbered() && m < |entries| && cur < |entries|
      requires currentEntry == Ahead(|entries|, cur, m)
      modifies this
      ensures Numbered()
      ensures unchanged(`entries) && unchanged(`maxPacketSize) && unchanged(`traceLoop) && unchanged(`sendEvent)
      ensures asked == old(asked) + PacketSizes(entries[Ahead(|entries|, cur, m)].packetSize, maxPacketSize)
      ensures currentEntry == Ahead(|entries|, cur, m + 1)
      ensures wrapped <==> cur + m + 1 == |entries|
    {
      SendFrame(entries[currentEntry].packetSize);
      GoOn(|entries|, cur, m);
      currentEntry := currentEntry + 1;
      wrapped := currentEntry >= |entries|;
      if wrapped {
        currentEntry := 0;
      }
    }

    /**
     One firing: the frames from the current entry up to the next that has to be waited for, which then
     is the current one; another firing is scheduled unless the trace came round and does not loop.  `ok`
     is false when the event is still pending.
     */
    method Send() returns (ok: bool, ghost m: nat)
      requires HasWait(entries) && currentEntry < |entries| && maxPacketSize > 0 && Numbered()
      modifies this
      ensures Numbered()
      ensures unchanged(`entries) && unchanged(`maxPacketSize) && unchanged(`traceLoop)
      ensures ok == old(sendEvent).None?
      ensures !ok ==> unchanged(this)
      ensures ok ==> 1 <= m <= |entries| && WaitsAt(entries, old(currentEntry), m)
      ensures ok ==> forall k | 1 <= k < m :: !WaitsAt(entries, old(currentEntry), k)
      ensures ok ==> currentEntry == Ahead(|entries|, old(currentEntry), m)
      ensures ok ==> asked == old(asked) + Frames(entries, old(currentEntry), m, maxPacketSize)
      ensures ok ==> sendEvent == if old(currentEntry) + m < |entries| || traceLoop
                                  then Some(entries[currentEntry].timeToSend) else None
    {
      m, ok := 0, sendEvent.None?;
      if !ok {
        return;
      }
      ghost var cur, n := currentEntry, |entries|;
      var cycled := false;
      SendEndsIff(entries, cur);
      DivModUnique(cur, n, 0, cur);
      var more := true;
      while more
        invariant Numbered()
        invariant unchanged(`entries) && unchanged(`maxPacketSize) && unchanged(`traceLoop) && unchanged(`sendEvent)
        invariant 0 <= m <= n && (more <==> m == 0 || !WaitsAt(entries, cur, m))
        invariant m > 0 ==> forall k | 1 <= k < m :: !WaitsAt(entries, cur, k)
        invariant currentEntry == Ahead(n, cur, m)
        invariant cycled <==> cur + m >= n
        invariant asked == old(asked) + Frames(entries, cur, m, maxPacketSize)
        decreases n - m
      {
        var wrapped := SendCurrent(cur, m);
        cycled := cycled || wrapped;
        m := m + 1;
        more := entries[currentEntry].timeToSend == 0;
      }
      if !cycled || traceLoop {
        sendEvent := Some(entries[currentEntry].timeToSend);
      }
    }
  }

  /** One place on, with a turn at the end. */
  lemma GoOn(n: nat, i: nat, k: nat)
    requires i < n && k <= n
    ensures Ahead(n, i, k + 1) == if Ahead(n, i, k) + 1 >= n then 0 else Ahead(n, i, k) + 1
    ensures k < n ==> (Ahead(n, i, k) + 1 >= n <==> i + k + 1 == n)
  {
    var q, r := (i + k) / n, (i + k) % n;
    Quotient(i + k, n);
    if r + 1 >= n {
      assert i + k + 1 == (q + 1) * n;
      DivModUnique(i + k + 1, n, q + 1, 0);
    } else {
      DivModUnique(i + k + 1, n, q, r + 1);
    }
    if i + k < n {
      DivModUnique(i + k, n, 0, i + k);
    } else if k < n {
      DivModUnique(i + k, n, 1, i + k - n);
    }
  }
}
