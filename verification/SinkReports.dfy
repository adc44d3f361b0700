/** What PacketSink makes of packets from many senders: its reports and buffers, sender by sender. */
module SinkReports {
  import opened Words
  import opened Frames
  import Spec = PacketSinkSpec

  type Address(==) = nat

  datatype Report = Report(from: Address, unit: Spec.Unit)

  type Buffers = map<Address, Bytes>

  type Arrival = (Bytes, Address)

  function Reports(from: Address, units: seq<Spec.Unit>): (rs: seq<Report>)
    ensures |rs| == |units|
  {
    seq(|units|, i requires 0 <= i < |units| => Report(from, units[i]))
  }

  /** A sender heard from for the first time starts with an empty buffer. */
  function PendingIn(m: Buffers, from: Address): Bytes {
    if from in m then m[from] else []
  }

  lemma OneEntryChanged(m: Buffers, n: Buffers, from: Address)
    requires n - {from} == m - {from} && from in n
    ensures n == m[from := n[from]]
  {
    forall a | a != from
      ensures (a in n) == (a in m) && (a in n ==> n[a] == m[a])
    {
      assert (a in n - {from}) == (a in m - {from});
      if a in n {
        assert n[a] == (n - {from})[a] == (m - {from})[a];
      }
    }
  }

  /** The buffers and reports after packets from several senders; an empty packet ends the loop. */
  function HandleAll(m: Buffers, reported: seq<Report>, packets: seq<Arrival>): Result<(Buffers, seq<Report>)>
    decreases |packets|
  {
    if packets == [] || packets[0].0 == [] then Ok((m, reported))
    else
      var (p, from) := packets[0];
      var (units, b) :- Spec.PacketReceived(PendingIn(m, from), p);
      HandleAll(m[from := b], reported + Reports(from, units), packets[1..])
  }

  /** The bytes of the packets before the first empty one. */
  function BytesRead(packets: seq<Arrival>): nat {
    if packets == [] || packets[0].0 == [] then 0 else |packets[0].0| + BytesRead(packets[1..])
  }

  // ---- Up to the first empty packet -------------------------------------------------------------------------

  predicate NoneEmpty(packets: seq<Arrival>) {
    forall i | 0 <= i < |packets| :: packets[i].0 != []
  }

  function Contents(packets: seq<Arrival>): (bs: seq<Bytes>)
    ensures |bs| == |packets|
    ensures forall i | 0 <= i < |packets| :: bs[i] == packets[i].0
  {
    seq(|packets|, i requires 0 <= i < |packets| => packets[i].0)
  }

  /** An empty packet and all after it change nothing, and are not counted. */
  lemma {:induction false} StopsAtEmpty(m: Buffers, reported: seq<Report>, packets: seq<Arrival>, from: Address,
                                        more: seq<Arrival>)
    ensures HandleAll(m, reported, packets + [([], from)] + more) == HandleAll(m, reported, packets)
    ensures BytesRead(packets + [([], from)] + more) == BytesRead(packets)
    decreases |packets|
  {
    var all := packets + [([], from)] + more;
    if packets != [] && packets[0].0 != [] {
      assert all[0] == packets[0] && all[1..] == packets[1..] + [([], from)] + more;
      var (p, a) := packets[0];
      var r := Spec.PacketReceived(PendingIn(m, a), p);
      if r.Ok? {
        StopsAtEmpty(m[a := r.value.1], reported + Reports(a, r.value.0), packets[1..], from, more);
      } else {
        StopsAtEmpty(m, reported, packets[1..], from, more);
      }
    }
  }

  /** All bytes of the packets before it are. */
  lemma {:induction false} CountsAllBytes(packets: seq<Arrival>)
    requires NoneEmpty(packets)
    ensures BytesRead(packets) == |Concat(Contents(packets))|
  {
    if packets != [] {
      CountsAllBytes(packets[1..]);
      assert Contents(packets)[1..] == Contents(packets[1..]);
    }
  }

  // ---- Sender by sender --------------------------------------------------------------------------------------

  /** The packets from `a`, in the order of arrival. */
  function PacketsFrom(packets: seq<Arrival>, a: Address): seq<Bytes> {
    if packets == [] then []
    else (if packets[0].1 == a then [packets[0].0] else []) + PacketsFrom(packets[1..], a)
  }

  /** The units reported as coming from `a`, in order. */
  function UnitsFrom(reports: seq<Report>, a: Address): seq<Spec.Unit> {
    if reports == [] then []
    else (if reports[0].from == a then [reports[0].unit] else []) + UnitsFrom(reports[1..], a)
  }

  lemma {:induction false} UnitsFromJoin(rs: seq<Report>, qs: seq<Report>, a: Address)
    ensures UnitsFrom(rs + qs, a) == UnitsFrom(rs, a) + UnitsFrom(qs, a)
  {
    if rs == [] {
      assert rs + qs == qs;
    } else {
      assert (rs + qs)[1..] == rs[1..] + qs && (rs + qs)[0] == rs[0];
      UnitsFromJoin(rs[1..], qs, a);
      Regroup(if rs[0].from == a then [rs[0].unit] else [], UnitsFrom(rs[1..], a), UnitsFrom(qs, a));
    }
  }

  lemma Regroup<T>(x: seq<T>, y: seq<T>, z: seq<T>)
    ensures x + (y + z) == x + y + z
  {
  }

  lemma {:induction false} UnitsOfReports(from: Address, units: seq<Spec.Unit>, a: Address)
    ensures UnitsFrom(Reports(from, units), a) == if from == a then units else []
  {
    if units != [] {
      UnitsOfReports(from, units[1..], a);
      assert Reports(from, units)[1..] == Reports(from, units[1..]);
    }
  }

  lemma OneArrivalFrom(m: Buffers, reported: seq<Report>, p: Bytes, from: Address, units: seq<Spec.Unit>, b: Bytes,
                       a: Address)
    ensures PendingIn(m[from := b], a) == if a == from then b else PendingIn(m, a)
    ensures UnitsFrom(reported + Reports(from, units), a)
         == UnitsFrom(reported, a) + if a == from then units else []
  {
    UnitsFromJoin(reported, Reports(from, units), a);
    UnitsOfReports(from, units, a);
  }

  /** The first packet of several, for a sender it is not from and for the one it is from. */
  lemma PacketsFromStep(packets: seq<Arrival>, a: Address)
    requires packets != []
    ensures packets[0].1 != a ==> PacketsFrom(packets, a) == PacketsFrom(packets[1..], a)
    ensures packets[0].1 == a ==>
              && PacketsFrom(packets, a) != [] && PacketsFrom(packets, a)[0] == packets[0].0
              && PacketsFrom(packets, a)[1..] == PacketsFrom(packets[1..], a)
  {
  }

  lemma ReceiveAllStep(buffer: Bytes, arrivals: seq<Bytes>)
    requires arrivals != []
    ensures var r := Spec.PacketReceived(buffer, arrivals[0]);
            Spec.ReceiveAll(buffer, arrivals)
            == if r.Fatal? then Fatal(r.reason)
               else
                 var rest := Spec.ReceiveAll(r.value.1, arrivals[1..]);
                 if rest.Fatal? then Fatal(rest.reason) else Ok((r.value.0 + rest.value.0, rest.value.1))
  {
  }

  /** The arrivals of one sender lead from a buffer and the units `before` to `kept` and `after`. */
  predicate LeadsTo(buffer: Bytes, before: seq<Spec.Unit>, arrivals: seq<Bytes>, kept: Bytes, after: seq<Spec.Unit>) {
    var r := Spec.ReceiveAll(buffer, arrivals);
    r.Ok? && kept == r.value.1 && after == before + r.value.0
  }

  lemma LeadsToStep(buffer: Bytes, before: seq<Spec.Unit>, arrivals: seq<Bytes>, units: seq<Spec.Unit>, b: Bytes,
                    kept: Bytes, after: seq<Spec.Unit>)
    requires arrivals != [] && Spec.PacketReceived(buffer, arrivals[0]) == Ok((units, b))
    requires LeadsTo(b, before + units, arrivals[1..], kept, after)
    ensures LeadsTo(buffer, before, arrivals, kept, after)
  {
    ReceiveAllStep(buffer, arrivals);
    var rest := Spec.ReceiveAll(b, arrivals[1..]).value.0;
    assert before + units + rest == before + (units + rest);
  }

  /** What is kept and has been reported for `a` is what its packets alone would have led to. */
  predicate AsIfAlone(m: Buffers, reported: seq<Report>, packets: seq<Arrival>, a: Address,
                      m1: Buffers, reported1: seq<Report>)
  {
    LeadsTo(PendingIn(m, a), UnitsFrom(reported, a), PacketsFrom(packets, a),
            PendingIn(m1, a), UnitsFrom(reported1, a))
  }

  lemma AsIfAloneStep(m: Buffers, reported: seq<Report>, packets: seq<Arrival>, a: Address,
                      units: seq<Spec.Unit>, b: Bytes, m1: Buffers, reported1: seq<Report>)
    requires packets != [] && Spec.PacketReceived(PendingIn(m, packets[0].1), packets[0].0) == Ok((units, b))
    requires var from := packets[0].1;
             AsIfAlone(m[from := b], reported + Reports(from, units), packets[1..], a, m1, reported1)
    ensures AsIfAlone(m, reported, packets, a, m1, reported1)
  {
    var (p, from) := packets[0];
    OneArrivalFrom(m, reported, p, from, units, b, a);
    PacketsFromStep(packets, a);
    if from == a {
      LeadsToStep(PendingIn(m, a), UnitsFrom(reported, a), PacketsFrom(packets, a), units, b,
                  PendingIn(m1, a), UnitsFrom(reported1, a));
    } else {
      assert UnitsFrom(reported, a) + [] == UnitsFrom(reported, a);
    }
  }

  /**
   However the packets of many senders come mixed, each sender's units are reported under its address, in
   order, as if its packets had come alone, and so is what is kept of them.
   */
  lemma {:induction false} SendersDoNotMix(m: Buffers, reported: seq<Report>, packets: seq<Arrival>, a: Address)
    requires NoneEmpty(packets) && HandleAll(m, reported, packets).Ok?
    ensures var (m1, reported1) := HandleAll(m, reported, packets).value;
            AsIfAlone(m, reported, packets, a, m1, reported1)
    decreases |packets|
  {
    if packets == [] {
      assert UnitsFrom(reported, a) + [] == UnitsFrom(reported, a);
    } else {
      var (p, from) := packets[0];
      var (units, b) := Spec.PacketReceived(PendingIn(m, from), p).value;
      var (m1, reported1) := HandleAll(m, reported, packets).value;
      SendersDoNotMix(m[from := b], reported + Reports(from, units), packets[1..], a);
      AsIfAloneStep(m, reported, packets, a, units, b, m1, reported1);
    }
  }

  /** If the packets of every sender alone would be taken, so are they all, however they come mixed. */
  lemma {:induction false} AllTaken(m: Buffers, reported: seq<Report>, packets: seq<Arrival>)
    requires forall a :: Spec.ReceiveAll(PendingIn(m, a), PacketsFrom(packets, a)).Ok?
    ensures HandleAll(m, reported, packets).Ok?
    decreases |packets|
  {
    if packets != [] && packets[0].0 != [] {
      var (p, from) := packets[0];
      PacketsFromStep(packets, from);
      ReceiveAllStep(PendingIn(m, from), PacketsFrom(packets, from));
      var (units, b) := Spec.PacketReceived(PendingIn(m, from), p).value;
      forall a
        ensures Spec.ReceiveAll(PendingIn(m[from := b], a), PacketsFrom(packets[1..], a)).Ok?
      {
        PacketsFromStep(packets, a);
        assert Spec.ReceiveAll(PendingIn(m, a), PacketsFrom(packets, a)).Ok?;
      }
      AllTaken(m[from := b], reported + Reports(from, units), packets[1..]);
    }
  }

  /** The sink aborts exactly when it would on the packets of some sender alone. */
  lemma AbortsIffSomeSenderWould(m: Buffers, reported: seq<Report>, packets: seq<Arrival>)
    requires NoneEmpty(packets)
    ensures HandleAll(m, reported, packets).Fatal?
       <==> exists a :: Spec.ReceiveAll(PendingIn(m, a), PacketsFrom(packets, a)).Fatal?
  {
    if HandleAll(m, reported, packets).Ok? {
      forall a
        ensures Spec.ReceiveAll(PendingIn(m, a), PacketsFrom(packets, a)).Ok?
      {
        SendersDoNotMix(m, reported, packets, a);
      }
    } else if forall a :: Spec.ReceiveAll(PendingIn(m, a), PacketsFrom(packets, a)).Ok? {
      AllTaken(m, reported, packets);
    }
  }
}
