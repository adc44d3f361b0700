/** OnOffApplication as an object: its event handlers update its timers and residual bits. */
module OnOff {
  import opened Words
  import Spec = OnOffSpec

  class OnOffApplication {
    const cfg: Spec.Config
    var now: real
    var residualBits: nat
    var lastStartTime: real
    var totBytes: nat
    var unsentPacket: bool
    var seqNum: uint32
    var sendEvent: Option<real>
    var startStopEvent: Option<(real, Spec.Turn)>
    var closed: bool
    ghost var fired: nat
    ghost var taken: nat
    ghost var discards: nat
    ghost var cuts: nat
    ghost var onTime: real

    constructor (cfg: Spec.Config)
      requires cfg.Valid()
      ensures this.cfg == cfg && View() == Spec.INITIAL
    {
      this.cfg := cfg;
      now, residualBits, lastStartTime, totBytes := 0.0, 0, 0.0, 0;
      unsentPacket, seqNum := false, 0;
      sendEvent, startStopEvent, closed := None, None, false;
      fired, taken, discards, cuts, onTime := 0, 0, 0, 0, 0.0;
    }

    ghost function View(): Spec.App
      reads this
    {
      Spec.App(now, residualBits, lastStartTime, totBytes, unsentPacket, seqNum, sendEvent, startStopEvent,
               fired, taken, discards, cuts, onTime, closed)
    }

    method CancelEvents()
      modifies this
      ensures View() == Spec.CancelEvents(cfg, old(View()))
    {
      if sendEvent.Some? {
        var delta := now - lastStartTime;
        var bits := (delta * cfg.rate as real).Floor;
        if bits >= 0 {
          residualBits := residualBits + bits;
        }
        cuts := cuts + 1;
      }
      sendEvent := None;
      startStopEvent := None;
      if unsentPacket {
        discards := discards + 1;
      }
      unsentPacket := false;
    }

    method StopApplication()
      modifies this
      ensures View() == Spec.StopApplication(cfg, old(View()))
    {
      CancelEvents();
      closed := true;
    }

    method ScheduleNextTx() returns (ok: bool)
      requires cfg.Valid()
      modifies this
      ensures ok == Spec.ScheduleNextTx(cfg, old(View())).Ok?
      ensures ok ==> View() == Spec.ScheduleNextTx(cfg, old(View())).value
    {
      ok := true;
      if cfg.maxBytes == 0 || totBytes < cfg.maxBytes {
        if residualBits > cfg.pktSize * 8 {
          return false;
        }
        var bits := cfg.pktSize * 8 - residualBits;
        sendEvent := Some(now + bits as real / cfg.rate as real);
      } else {
        StopApplication();
      }
    }

    /** The connection starts with an "off" period. */
    method ConnectionSucceeded(offInterval: real)
      modifies this
      ensures View() == Spec.ConnectionSucceeded(old(View()), offInterval)
    {
      startStopEvent := Some((now + offInterval, Spec.StartSending));
    }

    /** The start event has just fired. */
    method StartSending(onInterval: real) returns (ok: bool)
      requires cfg.Valid()
      modifies this
      ensures ok == Spec.StartSendingNow(cfg, old(View()), onInterval).Ok?
      ensures ok ==> View() == Spec.StartSendingNow(cfg, old(View()), onInterval).value
    {
      lastStartTime := now;
      ok := ScheduleNextTx();
      startStopEvent := Some((now + onInterval, Spec.StopSending));
    }

    /** The stop event has just fired. */
    method StopSending(offInterval: real)
      modifies this
      ensures View() == Spec.StopSendingNow(cfg, old(View()), offInterval)
    {
      CancelEvents();
      startStopEvent := Some((now + offInterval, Spec.StartSending));
    }

    /** One attempt with the cached packet or a new one. */
    method TryPacket(accepted: bool) returns (ok: bool)
      modifies this
      ensures ok == Spec.TryPacket(cfg, old(View()), accepted).Ok?
      ensures ok ==> View() == Spec.TryPacket(cfg, old(View()), accepted).value
    {
      if !unsentPacket && cfg.withHeader {
        seqNum := (seqNum + 1) % TWO_32;
        if cfg.pktSize < Spec.HEADER_SIZE {
          return false;
        }
      }
      if accepted {
        totBytes, taken := totBytes + cfg.pktSize, taken + 1;
        unsentPacket := false;
      } else {
        unsentPacket := true;
      }
      ok := true;
    }

    /** The send event has just fired. */
    method SendPacket(accepted: bool) returns (ok: bool)
      requires cfg.Valid()
      modifies this
      ensures ok == Spec.SendPacket(cfg, old(View()), accepted).Ok?
      ensures ok ==> View() == Spec.SendPacket(cfg, old(View()), accepted).value
    {
      if sendEvent.Some? {
        return false;
      }
      ok := TryPacket(accepted);
      if ok {
        residualBits, fired := 0, fired + 1;
        lastStartTime := now;
        ok := ScheduleNextTx();
      }
    }
  }
}
