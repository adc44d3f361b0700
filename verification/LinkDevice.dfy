/** BridgedPointToPointNetDevice and BridgedP2PChannel as objects: two devices and the wires between them. */
module LinkDevice {
  import opened Words
  import opened LinkSpec

  class Clock {
    var now: Time
  }

  datatype WireState = Initializing | Idle

  datatype Wire = Wire(state: WireState, src: Option<Device>, dst: Option<Device>)

  class Channel {
    const clock: Clock
    const delay: Time
    const link: array<Wire>
    var nDevices: nat

    constructor (clock: Clock, delay: Time)
      ensures this.clock == clock && this.delay == delay
      ensures Attached([]) && fresh(link)
    {
      this.clock, this.delay, nDevices := clock, delay, 0;
      link := new Wire[2](_ => Wire(Initializing, None, None));
    }

    /** The devices attached so far, in order; the wires cross over once there are two. */
    ghost predicate Attached(ds: seq<Device>)
      reads this, link
    {
      && link.Length == 2 && nDevices == |ds| <= 2
      && (ds == [] ==> link[0] == link[1] == Wire(Initializing, None, None))
      && (|ds| == 1 ==>
            link[0] == Wire(Initializing, Some(ds[0]), None) && link[1] == Wire(Initializing, None, None))
      && (|ds| == 2 ==>
            link[0] == Wire(Idle, Some(ds[0]), Some(ds[1])) && link[1] == Wire(Idle, Some(ds[1]), Some(ds[0])))
    }

    /** A third device is refused. */
    method Attach(device: Device, ghost ds: seq<Device>) returns (ok: bool)
      requires Attached(ds)
      modifies this, link
      ensures ok <==> |ds| < 2
      ensures Attached(if ok then ds + [device] else ds)
    {
      if nDevices >= 2 {
        return false;
      }
      link[nDevices] := link[nDevices].(src := Some(device));
      nDevices := nDevices + 1;
      if nDevices == 2 {
        link[0] := link[0].(dst := link[1].src);
        link[1] := link[1].(dst := link[0].src);
        link[0] := link[0].(state := Idle);
        link[1] := link[1].(state := Idle);
      }
      ok := true;
    }

    /** The frame will be received at the other end of the sender's wire, and nowhere else. */
    method TransmitStart(p: Frame, src: Device, txTime: Time, ghost other: Device)
      requires src != other && (Attached([src, other]) || Attached([other, src]))
      modifies other`incoming
      ensures other.incoming == old(other.incoming) + [Flight(clock.now + txTime + delay, p)]
    {
      var wire := if Some(src) == link[0].src then 0 else 1;
      var dst := link[wire].dst.value;
      dst.incoming := dst.incoming + [Flight(clock.now + txTime + delay, p)];
    }
  }

  class Device {
    const clock: Clock
    const l: Link
    const channel: Channel
    var txMachineState: Mode
    var currentPkt: Option<Frame>
    var queue: seq<Frame>
    var completions: seq<Time>
    var incoming: seq<Flight>
    ghost var accepted: seq<Arrival>
    ghost var starts: seq<Time>
    ghost var received: seq<Flight>

    constructor (l: Link, channel: Channel)
      ensures this.l == l && this.channel == channel && clock == channel.clock
      ensures txMachineState == Ready && currentPkt == None && queue == [] && completions == [] && incoming == []
      ensures accepted == [] && starts == [] && received == []
    {
      this.l, this.channel, clock := l, channel, channel.clock;
      txMachineState, currentPkt, queue, completions, incoming := Ready, None, [], [], [];
      accepted, starts, received := [], [], [];
    }

    /** The two devices of the channel, with this one as the sender. */
    ghost predicate JoinedTo(peer: Device)
      reads channel, channel.link
    {
      && peer != this && channel.delay == l.delay && channel.clock == clock
      && (channel.Attached([this, peer]) || channel.Attached([peer, this]))
    }

    /** The transmitter seen together with what is on its way to the peer. */
    ghost function View(peer: Device): State
      reads this, peer, clock
    {
      State(txMachineState, currentPkt, queue, completions, peer.incoming, clock.now, accepted, starts, peer.received)
    }

    method TransmitStart(p: Frame, ghost peer: Device) returns (ok: bool)
      requires JoinedTo(peer)
      modifies this, peer`incoming
      ensures unchanged(this`incoming) && unchanged(this`received)
      ensures ok == LinkSpec.TransmitStart(l, old(View(peer)), p).Ok?
      ensures ok ==> View(peer) == LinkSpec.TransmitStart(l, old(View(peer)), p).value
    {
      if txMachineState != Ready {
        return false;
      }
      txMachineState := Busy;
      currentPkt := Some(p);
      var txTime := l.txTime(p.size);
      completions := completions + [clock.now + txTime + l.gap];
      starts := starts + [clock.now];
      channel.TransmitStart(p, this, txTime, peer);
      ok := true;
    }

    /** `ok` is false when an assertion fails, `accepted` when the queue is full. */
    method SendFrom(p: Frame, ghost peer: Device) returns (ok: bool, taken: bool)
      requires JoinedTo(peer)
      modifies this, peer`incoming
      ensures unchanged(this`incoming) && unchanged(this`received)
      ensures ok == LinkSpec.SendFrom(l, old(View(peer)), p).Ok?
      ensures ok ==> (View(peer), taken) == LinkSpec.SendFrom(l, old(View(peer)), p).value
    {
      if |queue| >= l.capacity {
        return true, false;
      }
      queue := queue + [p];
      accepted := accepted + [Arrival(clock.now, p)];
      ok, taken := true, true;
      if txMachineState == Ready {
        var head := queue[0];
        queue := queue[1..];
        ok := TransmitStart(head, peer);
      }
    }

    /** The completion event has just left the event list. */
    method TransmitComplete(ghost peer: Device) returns (ok: bool)
      requires JoinedTo(peer)
      modifies this, peer`incoming
      ensures unchanged(this`incoming) && unchanged(this`received)
      ensures ok == LinkSpec.TransmitComplete(l, old(View(peer))).Ok?
      ensures ok ==> View(peer) == LinkSpec.TransmitComplete(l, old(View(peer))).value
    {
      if txMachineState != Busy || currentPkt.None? {
        return false;
      }
      txMachineState := Ready;
      currentPkt := None;
      ok := true;
      if queue != [] {
        var p := queue[0];
        queue := queue[1..];
        ok := TransmitStart(p, peer);
      }
    }
  }
}
