/**
 What a pop of Cuda_PairList answers while adds overlap it: the value added at its index, as long as every
 slot is written and read in turn, which the program does not see to.
 */
module PairRingValues {
  import opened Words
  import opened SlotMask
  import opened PairRing

  /** The index has been claimed by an add that has not yet written its slot. */
  predicate Pending(s: Ring, j: nat) {
    exists i :: 0 <= i < |s.producers| && s.producers[i].Write? && s.producers[i].index == j
  }

  /** The number of indices whose slots the one consumer has read. */
  function Fetched(s: Ring): nat
    requires |s.consumers| == 1
  {
    if s.consumers[0].Fetch? then s.consumers[0].index else s.front
  }

  /** No slot is written before the element it held has been read, and none is read before it is written. */
  predicate InTurn(s: Ring, st: Step)
    requires |s.consumers| == 1 && Enabled(s, st)
  {
    match st
    case Begin(_, _) => true
    case Producing(i) => s.producers[i].Write? ==> s.producers[i].index < Fetched(s) + s.capacity
    case Popping(i) => s.consumers[i].Fetch? ==> !Pending(s, s.consumers[i].index)
  }

  /** Every index that is written and not yet read has its value in its slot. */
  predicate Settled(s: Ring)
    requires |s.consumers| == 1 && Shape(s)
  {
    && |s.values| == s.rear
    && (forall j | Fetched(s) <= j < s.rear && !Pending(s, j) ::
          j < Fetched(s) + s.capacity && s.slots[Slot(j, s.capacity)] == s.values[j])
    && (forall i | 0 <= i < |s.producers| && s.producers[i].Write? :: Fetched(s) <= s.producers[i].index)
  }

  predicate InvInTurn(s: Ring) {
    Inv(s) && |s.consumers| == 1 && IsPowerOfTwo(s.capacity) && Settled(s)
  }

  lemma SlotsApart(c: nat, i: nat, j: nat)
    requires IsPowerOfTwo(c) && i != j && i < j + c && j < i + c
    ensures Slot(i, c) != Slot(j, c)
  {
    DistinctIffPowerOfTwo(c);
  }

  /** An add that is still to write its slot after some other producer has moved on. */
  lemma PendingStays(s: Ring, t: Ring, i: nat, p: Producer, j: nat)
    requires i < |s.producers| && t.producers == s.producers[i := p]
    requires Pending(s, j) && !(s.producers[i].Write? && s.producers[i].index == j)
    ensures Pending(t, j)
  {
    var k :| 0 <= k < |s.producers| && s.producers[k].Write? && s.producers[k].index == j;
    assert t.producers[k] == s.producers[k];
  }

  lemma WriteSettles(s: Ring, i: nat)
    requires InvInTurn(s) && i < |s.producers| && s.producers[i].Write?
    requires s.producers[i].index < Fetched(s) + s.capacity
    ensures Settled(Produce(s, i))
  {
    var p, t := s.producers[i], Produce(s, i);
    assert ProducerOk(s, p);
    forall j: nat | Fetched(t) <= j < t.rear && !Pending(t, j)
      ensures j < Fetched(t) + t.capacity && t.slots[Slot(j, t.capacity)] == t.values[j]
    {
      if j != p.index {
        if Pending(s, j) {
          PendingStays(s, t, i, Idle, j);
        }
        SlotsApart(s.capacity, j, p.index);
      }
    }
  }

  /** A step of an add other than the write leaves the written slots alone. */
  lemma NoWriteSettles(s: Ring, i: nat, t: Ring, p: Producer)
    requires InvInTurn(s) && i < |s.producers| && !s.producers[i].Write?
    requires t == WithProducer(s.(rear := t.rear, claimed := t.claimed, values := t.values, added := t.added), i, p)
    requires if p.Write? then p.index == s.rear && t.rear == s.rear + 1 && t.values == s.values + [p.v]
             else t.rear == s.rear && t.values == s.values
    ensures Settled(t)
  {
    assert p.Write? ==> t.producers[i] == p && Pending(t, s.rear);
    forall j: nat | Fetched(t) <= j < t.rear && !Pending(t, j)
      ensures j < s.rear && !Pending(s, j)
    {
      if Pending(s, j) {
        PendingStays(s, t, i, p, j);
      }
    }
  }

  lemma ProduceSettles(s: Ring, i: nat)
    requires InvInTurn(s) && i < |s.producers| && s.producers[i] != Idle && InTurn(s, Producing(i))
    ensures Settled(Produce(s, i))
  {
    if s.producers[i].Write? {
      WriteSettles(s, i);
    } else {
      NoWriteSettles(s, i, Produce(s, i), Produce(s, i).producers[i]);
    }
  }

  lemma ConsumeSettles(s: Ring)
    requires InvInTurn(s) && InTurn(s, Popping(0))
    ensures Settled(Consume(s, 0))
  {
    var t := Consume(s, 0);
    assert ConsumerOk(s, s.consumers[0]);
    forall j: nat
      ensures Pending(t, j) == Pending(s, j)
    {
    }
    forall i | 0 <= i < |t.producers| && t.producers[i].Write?
      ensures Fetched(t) <= t.producers[i].index
    {
      assert Pending(s, s.producers[i].index);
    }
  }

  lemma InTurnKeeps(s: Ring, st: Step)
    requires InvInTurn(s) && Enabled(s, st) && InTurn(s, st)
    ensures InvInTurn(Next(s, st))
  {
    StepKeeps(s, st);
    StepKeepsCallers(s, st);
    match st
    case Begin(i, v) => NoWriteSettles(s, i, Next(s, st), ReadRear(v));
    case Producing(i) => ProduceSettles(s, i);
    case Popping(i) => ConsumeSettles(s);
  }

  /** A run with one consumer in which every slot is written and read in turn. */
  ghost predicate LeadsInTurn(s: Ring, steps: seq<Step>, t: Ring)
    decreases |steps|
  {
    Shape(s) &&
    if steps == [] then s == t
    else
      && |s.consumers| == 1 && Enabled(s, steps[0]) && InTurn(s, steps[0])
      && LeadsInTurn(Next(s, steps[0]), steps[1..], t)
  }

  lemma {:induction false} LeadsInTurnKeeps(s: Ring, steps: seq<Step>, t: Ring)
    requires InvInTurn(s) && LeadsInTurn(s, steps, t)
    ensures InvInTurn(t)
    decreases |steps|
  {
    if steps != [] {
      InTurnKeeps(s, steps[0]);
      LeadsInTurnKeeps(Next(s, steps[0]), steps[1..], t);
    }
  }

  /**
   With overlapping adds of many producers and one consumer, a pop answers the value added at its index, as
   long as every slot is written and read in turn and the capacity is a power of two.
   */
  lemma PopAnswersItsValue(s0: Ring, steps: seq<Step>, s: Ring)
    requires IsInitial(s0) && |s0.consumers| == 1 && IsPowerOfTwo(s0.capacity) && LeadsInTurn(s0, steps, s)
    requires |s.consumers| == 1 && s.consumers[0].Fetch? && InTurn(s, Popping(0))
    ensures Shape(s) && s.consumers[0].index < |s.values|
    ensures Next(s, Popping(0)).answer == Some(s.values[s.consumers[0].index])
  {
    LeadsInTurnKeeps(s0, steps, s);
    assert ConsumerOk(s, s.consumers[0]);
  }

  lemma StepOn(s0: Ring, steps: seq<Step>, s: Ring, st: Step) returns (more: seq<Step>, t: Ring)
    requires Leads(s0, steps, s) && Shape(s) && Enabled(s, st)
    ensures Leads(s0, more, t) && t == Next(s, st)
  {
    LeadsOn(s0, steps, s, st);
    more, t := steps + [st], Next(s, st);
  }

  /** An add has found room. */
  lemma AboutToClaim() returns (steps: seq<Step>, s: Ring)
    ensures Leads(Start(2, 1), steps, s) && s == Start(2, 1).(producers := [Claim(7, 0, 0), Idle])
  {
    steps, s := HalfwayAdd();
    steps, s := StepOn(Start(2, 1), steps, s, Producing(0));
    assert s.producers == [Check(7, 0, 0, 0), Idle];
    steps, s := StepOn(Start(2, 1), steps, s, Producing(0));
  }

  /** It has claimed the first index, and is about to write it. */
  lemma ClaimedNotWritten() returns (steps: seq<Step>, s: Ring)
    ensures Leads(Start(2, 1), steps, s)
    ensures s == Start(2, 1).(rear := 1, claimed := [0], values := [7], producers := [Write(7, 0), Idle])
  {
    steps, s := AboutToClaim();
    steps, s := StepOn(Start(2, 1), steps, s, Producing(0));
  }

  /** The pop has found it, and is about to claim it too. */
  lemma AboutToTake() returns (steps: seq<Step>, s: Ring)
    ensures Leads(Start(2, 1), steps, s)
    ensures s == Start(2, 1).(rear := 1, claimed := [0], values := [7], producers := [Write(7, 0), Idle],
                              consumers := [Take(1, 0)])
  {
    steps, s := ClaimedNotWritten();
    steps, s := StepOn(Start(2, 1), steps, s, Popping(0));
    assert s.consumers == [LookFront(1)];
    steps, s := StepOn(Start(2, 1), steps, s, Popping(0));
    assert s.consumers == [Decide(1, 0)];
    steps, s := StepOn(Start(2, 1), steps, s, Popping(0));
  }

  /** Nothing in the program keeps the turns: a pop can read the slot of its index before the add has written it. */
  lemma ReadBeforeWritten() returns (s: Ring)
    ensures Reachable(s, 1) && |s.consumers| == 1 && s.consumers[0] == Fetch(0) && Pending(s, 0) && Shape(s)
    ensures s.values == [7] && Next(s, Popping(0)).answer == Some(0)
  {
    var steps;
    steps, s := AboutToTake();
    steps, s := StepOn(Start(2, 1), steps, s, Popping(0));
    assert s.producers[0] == Write(7, 0) && s.slots == [0, 0];
    assert IsInitial(Start(2, 1));
  }
}
