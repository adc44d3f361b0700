/**
 The device branch of Cuda_PairList: Add and pop_front as interleaved steps of any number of producers
 and consumers, where each read, check, compare-and-swap and slot access is a step of its own.  The
 indices are unbounded here: fewer than 2^31 claims are made, so an `int` does not overflow.
 */
module PairRing {
  import opened Words
  import opened SlotMask

  /** Where a call of Add has got to.  `held` is what `*rear` was when `*front` was read. */
  datatype Producer =
    | Idle
    | ReadRear(v: int)
    | ReadFront(v: int, rear: nat)
    | Check(v: int, rear: nat, front: nat, held: nat)
    | Claim(v: int, rear: nat, front: nat)
    | Write(v: int, index: nat)

  /** Where a call of pop_front has got to; `rear` is read once, before the loop. */
  datatype Consumer =
    | Resting
    | LookFront(rear: nat)
    | Decide(rear: nat, front: nat)
    | Take(rear: nat, front: nat)
    | Fetch(index: nat)

  /**
   The ring, the callers, and as history the indices claimed by adds and by pops in order, the values of
   the adds that claimed them, and the answers given by the last finished add and pop.
   */
  datatype Ring = Ring(
    capacity: nat,
    front: nat,
    rear: nat,
    slots: seq<int>,
    producers: seq<Producer>,
    consumers: seq<Consumer>,
    claimed: seq<nat>,
    popped: seq<nat>,
    values: seq<int>,
    added: Option<bool>,
    answer: Option<int>)

  predicate Shape(s: Ring) {
    0 < s.capacity == |s.slots| && s.capacity < 0x8000_0000
  }

  predicate IsInitial(s: Ring) {
    && Shape(s)
    && s.front == 0 && s.rear == 0 && s.claimed == [] && s.popped == [] && s.values == []
    && (forall i | 0 <= i < |s.producers| :: s.producers[i] == Idle)
    && (forall i | 0 <= i < |s.consumers| :: s.consumers[i] == Resting)
  }

  datatype Step = Begin(i: nat, v: int) | Producing(i: nat) | Popping(i: nat)

  predicate Enabled(s: Ring, st: Step) {
    match st
    case Begin(i, _) => i < |s.producers| && s.producers[i] == Idle
    case Producing(i) => i < |s.producers| && s.producers[i] != Idle
    case Popping(i) => i < |s.consumers|
  }

  /** `(unsigned int)(rear_val - front_val) >= m_capacity` */
  predicate LooksFull(capacity: nat, rear: nat, front: nat) {
    ToUint32(rear - front) >= capacity
  }

  /** `(unsigned int)(rear_val - front_val) == 0` */
  predicate LooksEmpty(rear: nat, front: nat) {
    ToUint32(rear - front) == 0
  }

  function WithProducer(s: Ring, i: nat, p: Producer): Ring
    requires i < |s.producers|
  {
    s.(producers := s.producers[i := p])
  }

  function WithConsumer(s: Ring, i: nat, c: Consumer): Ring
    requires i < |s.consumers|
  {
    s.(consumers := s.consumers[i := c])
  }

  function Produce(s: Ring, i: nat): Ring
    requires Shape(s) && i < |s.producers|
  {
    match s.producers[i]
    case Idle => s
    case ReadRear(v) => WithProducer(s, i, ReadFront(v, s.rear))
    case ReadFront(v, rear) => WithProducer(s, i, Check(v, rear, s.front, s.rear))
    case Check(v, rear, front, _) =>
      if LooksFull(s.capacity, rear, front) then WithProducer(s.(added := Some(false)), i, Idle)
      else WithProducer(s, i, Claim(v, rear, front))
    case Claim(v, rear, front) =>
      if s.rear == rear then
        WithProducer(s.(rear := rear + 1, claimed := s.claimed + [rear], values := s.values + [v]), i, Write(v, rear))
      else WithProducer(s, i, ReadRear(v))
    case Write(v, index) =>
      WithProducer(s.(slots := s.slots[Slot(index, s.capacity) := v], added := Some(true)), i, Idle)
  }

  function Consume(s: Ring, i: nat): Ring
    requires Shape(s) && i < |s.consumers|
  {
    match s.consumers[i]
    case Resting => WithConsumer(s, i, LookFront(s.rear))
    case LookFront(rear) => WithConsumer(s, i, Decide(rear, s.front))
    case Decide(rear, front) =>
      if LooksEmpty(rear, front) then WithConsumer(s.(answer := None), i, Resting)
      else WithConsumer(s, i, Take(rear, front))
    case Take(rear, front) =>
      if s.front == front then
        WithConsumer(s.(front := front + 1, popped := s.popped + [front]), i, Fetch(front))
      else WithConsumer(s, i, LookFront(rear))
    case Fetch(index) => WithConsumer(s.(answer := Some(s.slots[Slot(index, s.capacity)])), i, Resting)
  }

  function Next(s: Ring, st: Step): (t: Ring)
    requires Shape(s) && Enabled(s, st)
    ensures Shape(t) && t.capacity == s.capacity
  {
    match st
    case Begin(i, v) => WithProducer(s, i, ReadRear(v))
    case Producing(i) => Produce(s, i)
    case Popping(i) => Consume(s, i)
  }

  // ---- Many producers and one consumer ---------------------------------------------------------------

  predicate ProducerOk(s: Ring, p: Producer) {
    match p
    case Idle => true
    case ReadRear(_) => true
    case ReadFront(_, rear) => rear <= s.rear
    case Check(_, rear, front, held) =>
      rear <= held <= s.rear && front <= s.front && front <= held <= front + s.capacity
    case Claim(_, rear, front) =>
      front <= s.front && rear <= front + s.capacity && !LooksFull(s.capacity, rear, front)
    case Write(v, index) => index < s.rear && index < |s.values| && s.values[index] == v
  }

  predicate ConsumerOk(s: Ring, c: Consumer) {
    match c
    case Resting => true
    case LookFront(rear) => s.front <= rear <= s.rear
    case Decide(rear, front) => front == s.front <= rear <= s.rear
    case Take(rear, front) => front == s.front < rear <= s.rear
    case Fetch(index) => index + 1 == s.front
  }

  /** The numbers 0, 1, ..., in order. */
  predicate Consecutive(xs: seq<nat>, n: nat) {
    |xs| == n && forall k | 0 <= k < n :: xs[k] == k
  }

  predicate WritersApart(ps: seq<Producer>) {
    forall i, j | 0 <= i < j < |ps| && ps[i].Write? && ps[j].Write? :: ps[i].index != ps[j].index
  }

  predicate Inv(s: Ring) {
    && Shape(s)
    && s.front <= s.rear <= s.front + s.capacity
    && (forall i | 0 <= i < |s.producers| :: ProducerOk(s, s.producers[i]))
    && (forall i | 0 <= i < |s.consumers| :: ConsumerOk(s, s.consumers[i]))
    && Consecutive(s.claimed, s.rear) && Consecutive(s.popped, s.front) && |s.values| == s.rear
    && WritersApart(s.producers)
  }

  lemma InitialInv(s: Ring)
    requires IsInitial(s)
    ensures Inv(s)
  {
  }

  lemma ClaimInBounds(s: Ring, i: nat)
    requires Inv(s) && i < |s.producers| && s.producers[i].Claim? && s.rear == s.producers[i].rear
    ensures s.rear + 1 <= s.front + s.capacity
  {
    var p := s.producers[i];
    assert ProducerOk(s, p);
    assert 0 <= p.rear - p.front <= s.capacity;
  }

  /** What a producer knows stays true while the indices and values only grow. */
  lemma ProducerStaysOk(s: Ring, t: Ring, p: Producer)
    requires ProducerOk(s, p) && t.capacity == s.capacity
    requires s.front <= t.front && s.rear <= t.rear && s.values <= t.values
    ensures ProducerOk(t, p)
  {
  }

  lemma ProduceKeepsProducers(s: Ring, i: nat)
    requires Inv(s) && i < |s.producers|
    ensures var t := Produce(s, i); forall j | 0 <= j < |t.producers| :: ProducerOk(t, t.producers[j])
  {
    var t := Produce(s, i);
    assert ProducerOk(s, s.producers[i]);
    assert ProducerOk(t, t.producers[i]);
    forall j | 0 <= j < |t.producers|
      ensures ProducerOk(t, t.producers[j])
    {
      if j != i {
        ProducerStaysOk(s, t, s.producers[j]);
      }
    }
  }

  /** A claim takes the index after all those already claimed, so no two producers write the same. */
  lemma ProduceKeepsWriters(s: Ring, i: nat)
    requires Inv(s) && i < |s.producers|
    ensures WritersApart(Produce(s, i).producers)
  {
    var t := Produce(s, i);
    forall j, k | 0 <= j < k < |t.producers| && t.producers[j].Write? && t.producers[k].Write?
      ensures t.producers[j].index != t.producers[k].index
    {
      assert ProducerOk(s, s.producers[j]) && ProducerOk(s, s.producers[k]);
    }
  }

  lemma ProduceKeeps(s: Ring, i: nat)
    requires Inv(s) && i < |s.producers|
    ensures Inv(Produce(s, i))
  {
    var p, t := s.producers[i], Produce(s, i);
    if p.Claim? && s.rear == p.rear {
      ClaimInBounds(s, i);
    }
    ProduceKeepsProducers(s, i);
    ProduceKeepsWriters(s, i);
    forall j | 0 <= j < |t.consumers|
      ensures ConsumerOk(t, t.consumers[j])
    {
      assert ConsumerOk(s, s.consumers[j]);
    }
  }

  lemma ConsumeKeeps(s: Ring)
    requires Inv(s) && |s.consumers| == 1
    ensures Inv(Consume(s, 0))
  {
    var c, t := s.consumers[0], Consume(s, 0);
    assert ConsumerOk(s, c);
    forall j | 0 <= j < |t.producers|
      ensures ProducerOk(t, t.producers[j])
    {
      ProducerStaysOk(s, t, s.producers[j]);
    }
  }

  lemma BeginKeeps(s: Ring, i: nat, v: int)
    requires Inv(s) && i < |s.producers|
    ensures Inv(WithProducer(s, i, ReadRear(v)))
  {
    var t := WithProducer(s, i, ReadRear(v));
    forall j | 0 <= j < |t.producers|
      ensures ProducerOk(t, t.producers[j])
    {
      assert ProducerOk(s, s.producers[j]);
    }
    forall j | 0 <= j < |t.consumers|
      ensures ConsumerOk(t, t.consumers[j])
    {
      assert ConsumerOk(s, s.consumers[j]);
    }
  }

  lemma StepKeeps(s: Ring, st: Step)
    requires Inv(s) && |s.consumers| <= 1 && Enabled(s, st)
    ensures Inv(Next(s, st))
  {
    match st
    case Begin(i, v) => BeginKeeps(s, i, v);
    case Producing(i) => ProduceKeeps(s, i);
    case Popping(i) => ConsumeKeeps(s);
  }

  lemma StepKeepsCallers(s: Ring, st: Step)
    requires Shape(s) && Enabled(s, st)
    ensures |Next(s, st).consumers| == |s.consumers|
  {
  }

  ghost predicate Leads(s: Ring, steps: seq<Step>, t: Ring)
    decreases |steps|
  {
    Shape(s) &&
    if steps == [] then s == t else Enabled(s, steps[0]) && Leads(Next(s, steps[0]), steps[1..], t)
  }

  /** Reachable with `n` consumers. */
  ghost predicate Reachable(s: Ring, n: nat) {
    exists s0, steps :: IsInitial(s0) && |s0.consumers| == n && Leads(s0, steps, s)
  }

  lemma {:induction false} LeadsKeepsInv(s: Ring, steps: seq<Step>, t: Ring)
    requires Inv(s) && |s.consumers| <= 1 && Leads(s, steps, t)
    ensures Inv(t) && |t.consumers| == |s.consumers|
    decreases |steps|
  {
    if steps != [] {
      StepKeeps(s, steps[0]);
      StepKeepsCallers(s, steps[0]);
      LeadsKeepsInv(Next(s, steps[0]), steps[1..], t);
    }
  }

  lemma ReachableInv(s: Ring, n: nat)
    requires Reachable(s, n) && n <= 1
    ensures Inv(s) && |s.consumers| == n
  {
    var s0, steps :| IsInitial(s0) && |s0.consumers| == n && Leads(s0, steps, s);
    InitialInv(s0);
    LeadsKeepsInv(s0, steps, s);
  }

  /**
   Under any interleaving of many producers and one consumer the ring never holds less than nothing or
   more than its capacity, successful adds and pops claim the indices 0, 1, 2, ... one by one, and no two
   producers ever own the same index.
   */
  lemma IndicesInBounds(s: Ring)
    requires Reachable(s, 1)
    ensures s.front <= s.rear <= s.front + s.capacity
    ensures Consecutive(s.claimed, s.rear) && Consecutive(s.popped, s.front)
    ensures WritersApart(s.producers)
  {
    ReachableInv(s, 1);
  }

  /**
   What a failed Add means.  `held` - `front` elements were in the ring when front was read.  The check
   fails when that was the capacity, and also when the consumer had by then passed the rear value read
   before: then Add reports a full ring that was not full.
   */
  lemma FullReportIff(s: Ring, i: nat)
    requires Reachable(s, 1) && i < |s.producers| && s.producers[i].Check? && s.rear < 0x8000_0000
    ensures var p := s.producers[i];
            && (LooksFull(s.capacity, p.rear, p.front) <==> p.rear == p.front + s.capacity || p.front > p.rear)
            && (p.rear == p.front + s.capacity ==> p.held == p.front + s.capacity)
  {
    ReachableInv(s, 1);
    assert ProducerOk(s, s.producers[i]);
  }

  /**
   What the outcome of pop_front's check means.  It ends the call with the answer None exactly when every
   index below the rear it had read has been popped; otherwise the oldest index not yet popped is below
   that rear, and the call goes on to claim it.
   */
  lemma EmptyReportIff(s: Ring)
    requires Reachable(s, 1) && |s.consumers| == 1 && s.consumers[0].Decide?
    ensures Shape(s)
    ensures var c, t := s.consumers[0], Next(s, Popping(0));
            && Consecutive(s.popped, s.front) && c.rear <= s.rear
            && (t.consumers[0] == Resting <==> Consecutive(s.popped, c.rear))
            && (t.consumers[0] == Resting ==> t.answer == None)
            && (t.consumers[0] != Resting ==> t.consumers[0] == Take(c.rear, |s.popped|) && |s.popped| < c.rear)
  {
    ReachableInv(s, 1);
    assert ConsumerOk(s, s.consumers[0]);
  }

  /**
   An add ends only when it has written its slot, and then reports success, or when its check finds the ring
   full, and then reports failure; an add whose claim fails reads both indices again.
   */
  lemma AddEnds(s: Ring, i: nat)
    requires Shape(s) && i < |s.producers| && s.producers[i] != Idle
    ensures var p, t := s.producers[i], Produce(s, i);
            && (t.producers[i] == Idle <==> p.Write? || (p.Check? && LooksFull(s.capacity, p.rear, p.front)))
            && (t.producers[i] == Idle ==> t.added == Some(p.Write?))
            && (p.Claim? && s.rear != p.rear ==> t == WithProducer(s, i, ReadRear(p.v)))
            && (p.Claim? && s.rear == p.rear ==> t.rear == s.rear + 1 && t.producers[i] == Write(p.v, s.rear))
  {
  }

  /**
   A pop ends only with the element of the index it has claimed, or when its check finds the ring empty; a pop
   whose claim fails reads front again, but not rear.
   */
  lemma PopEnds(s: Ring, i: nat)
    requires Shape(s) && i < |s.consumers| && s.consumers[i] != Resting
    ensures var c, t := s.consumers[i], Consume(s, i);
            && (t.consumers[i] == Resting <==> c.Fetch? || (c.Decide? && LooksEmpty(c.rear, c.front)))
            && (t.consumers[i] == Resting ==> (t.answer.Some? <==> c.Fetch?))
            && (c.Take? && s.front != c.front ==> t == WithConsumer(s, i, LookFront(c.rear)))
            && (c.Take? && s.front == c.front ==> t.front == s.front + 1 && t.consumers[i] == Fetch(s.front))
  {
  }

  // ---- Calls that do not overlap ------------------------------------------------------------------------

  function AddSteps(i: nat, v: int): seq<Step> {
    [Begin(i, v), Producing(i), Producing(i), Producing(i), Producing(i), Producing(i)]
  }

  function PopSteps(i: nat): seq<Step> {
    [Popping(i), Popping(i), Popping(i), Popping(i), Popping(i)]
  }

  /** The ring after an add that found room. */
  function Added(s: Ring, v: int): Ring
    requires Shape(s)
  {
    s.(rear := s.rear + 1, claimed := s.claimed + [s.rear], slots := s.slots[Slot(s.rear, s.capacity) := v],
       values := s.values + [v], added := Some(true))
  }

  /** The ring after a pop that found an element. */
  function Popped(s: Ring): Ring
    requires Shape(s)
  {
    s.(front := s.front + 1, popped := s.popped + [s.front], answer := Some(s.slots[Slot(s.front, s.capacity)]))
  }

  predicate InBounds(s: Ring) {
    Shape(s) && s.front <= s.rear <= s.front + s.capacity
  }

  lemma AddAlone(s: Ring, i: nat, v: int)
    requires InBounds(s) && i < |s.producers| && s.producers[i] == Idle && s.rear < s.front + s.capacity
    ensures Leads(s, AddSteps(i, v), Added(s, v))
  {
    var s1 := Next(s, Begin(i, v));
    var s2 := Produce(s1, i);
    var s3 := Produce(s2, i);
    var s4 := Produce(s3, i);
    assert s4.producers[i] == Claim(v, s.rear, s.front);
    var s5 := Produce(s4, i);
    var s6 := Produce(s5, i);
    assert s6.producers == s.producers;
    assert s6 == Added(s, v);
    FiveSteps(s1, Producing(i), s2, s3, s4, s5, s6);
    assert AddSteps(i, v)[1..] == FiveOf(Producing(i));
  }

  function FiveOf(st: Step): seq<Step> {
    [st, st, st, st, st]
  }

  lemma FiveSteps(s1: Ring, st: Step, s2: Ring, s3: Ring, s4: Ring, s5: Ring, s6: Ring)
    requires Shape(s1) && Enabled(s1, st) && s2 == Next(s1, st)
    requires Enabled(s2, st) && s3 == Next(s2, st)
    requires Enabled(s3, st) && s4 == Next(s3, st)
    requires Enabled(s4, st) && s5 == Next(s4, st)
    requires Enabled(s5, st) && s6 == Next(s5, st)
    ensures Leads(s1, FiveOf(st), s6)
  {
    assert [st][1..] == [] && [st, st][1..] == [st] && [st, st, st][1..] == [st, st];
    assert [st, st, st, st][1..] == [st, st, st] && FiveOf(st)[1..] == [st, st, st, st];
    assert Leads(s5, [st], s6);
    assert Leads(s4, [st, st], s6);
    assert Leads(s3, [st, st, st], s6);
    assert Leads(s2, [st, st, st, st], s6);
  }

  lemma PopAlone(s: Ring, i: nat)
    requires InBounds(s) && i < |s.consumers| && s.consumers[i] == Resting && s.front < s.rear
    ensures Leads(s, PopSteps(i), Popped(s))
  {
    var s2 := Consume(s, i);
    var s3 := Consume(s2, i);
    var s4 := Consume(s3, i);
    assert s4.consumers[i] == Take(s.rear, s.front);
    var s5 := Consume(s4, i);
    var s6 := Consume(s5, i);
    assert s6.consumers == s.consumers;
    assert s6 == Popped(s);
    FiveSteps(s, Popping(i), s2, s3, s4, s5, s6);
  }

  /** The elements in the ring, oldest first. */
  function Contents(s: Ring): (c: seq<int>)
    requires InBounds(s)
    ensures |c| == s.rear - s.front
  {
    seq(s.rear - s.front, k requires 0 <= k < s.rear - s.front => s.slots[Slot(s.front + k, s.capacity)])
  }

  predicate HasRoom(s: Ring) {
    InBounds(s) && s.rear < s.front + s.capacity
  }

  /** An add that finds room appends to the queue. */
  lemma AddIsEnqueue(s: Ring, v: int)
    requires HasRoom(s) && IsPowerOfTwo(s.capacity)
    ensures Contents(Added(s, v)) == Contents(s) + [v]
  {
    DistinctIffPowerOfTwo(s.capacity);
    var t := Added(s, v);
    forall k | 0 <= k < s.rear - s.front
      ensures Contents(t)[k] == Contents(s)[k]
    {
      var i: nat := s.front + k;
      assert i < s.rear < i + s.capacity;
      assert Slot(i, s.capacity) != Slot(s.rear, s.capacity);
    }
  }

  /** A pop gives the oldest element and removes it. */
  lemma PopIsDequeue(s: Ring)
    requires InBounds(s) && s.front < s.rear
    ensures Popped(s).answer == Some(Contents(s)[0])
    ensures Contents(Popped(s)) == Contents(s)[1..]
  {
  }

  lemma {:induction false} LeadsJoin(s: Ring, a: seq<Step>, t: Ring, b: seq<Step>, u: Ring)
    requires Leads(s, a, t) && Leads(t, b, u)
    ensures Leads(s, a + b, u)
    decreases |a|
  {
    if a == [] {
      assert a + b == b;
    } else {
      assert (a + b)[1..] == a[1..] + b;
      LeadsJoin(Next(s, a[0]), a[1..], t, b, u);
    }
  }

  lemma LeadsOne(s: Ring, st: Step)
    requires Shape(s) && Enabled(s, st)
    ensures Leads(s, [st], Next(s, st))
  {
    assert [st][1..] == [];
  }

  lemma LeadsOn(s: Ring, a: seq<Step>, t: Ring, st: Step)
    requires Leads(s, a, t) && Shape(t) && Enabled(t, st)
    ensures Leads(s, a + [st], Next(t, st))
  {
    LeadsOne(t, st);
    LeadsJoin(s, a, t, [st], Next(t, st));
  }

  // ---- The ring as a bounded queue ------------------------------------------------------------------------

  datatype Call = AddCall(i: nat, v: int) | PopCall(i: nat)

  /** The bounded queue, with the answers given last. */
  datatype Queue = Queue(items: seq<int>, capacity: nat, added: Option<bool>, answer: Option<int>)

  function Fifo(q: Queue, call: Call): Queue {
    match call
    case AddCall(_, v) =>
      if |q.items| < q.capacity then q.(items := q.items + [v], added := Some(true)) else q.(added := Some(false))
    case PopCall(_) =>
      if q.items == [] then q.(answer := None) else q.(items := q.items[1..], answer := Some(q.items[0]))
  }

  function FifoAll(q: Queue, calls: seq<Call>): Queue
    decreases |calls|
  {
    if calls == [] then q else FifoAll(Fifo(q, calls[0]), calls[1..])
  }

  function QueueOf(s: Ring): Queue
    requires InBounds(s)
  {
    Queue(Contents(s), s.capacity, s.added, s.answer)
  }

  /** No call is under way. */
  predicate Calm(s: Ring) {
    && InBounds(s)
    && (forall i | 0 <= i < |s.producers| :: s.producers[i] == Idle)
    && (forall i | 0 <= i < |s.consumers| :: s.consumers[i] == Resting)
  }

  predicate HasCaller(s: Ring, call: Call) {
    match call
    case AddCall(i, _) => i < |s.producers|
    case PopCall(i) => i < |s.consumers|
  }

  /** The steps of one call that nothing interrupts. */
  function CallSteps(s: Ring, call: Call): seq<Step> {
    match call
    case AddCall(i, v) => if s.rear < s.front + s.capacity then AddSteps(i, v) else FullSteps(i, v)
    case PopCall(i) => if s.front < s.rear then PopSteps(i) else EmptySteps(i)
  }

  function FullSteps(i: nat, v: int): seq<Step> {
    [Begin(i, v), Producing(i), Producing(i), Producing(i)]
  }

  function EmptySteps(i: nat): seq<Step> {
    [Popping(i), Popping(i), Popping(i)]
  }

  /** Where they lead. */
  function CallDone(s: Ring, call: Call): Ring
    requires Calm(s)
  {
    match call
    case AddCall(_, v) => if s.rear < s.front + s.capacity then Added(s, v) else s.(added := Some(false))
    case PopCall(_) => if s.front < s.rear then Popped(s) else s.(answer := None)
  }

  lemma ThreeSteps(s1: Ring, st: Step, s2: Ring, s3: Ring, s4: Ring)
    requires Shape(s1) && Enabled(s1, st) && s2 == Next(s1, st)
    requires Enabled(s2, st) && s3 == Next(s2, st)
    requires Enabled(s3, st) && s4 == Next(s3, st)
    ensures Leads(s1, [st, st, st], s4)
  {
    assert [st][1..] == [] && [st, st][1..] == [st] && [st, st, st][1..] == [st, st];
    assert Leads(s3, [st], s4);
    assert Leads(s2, [st, st], s4);
  }

  /** An add on a full ring is refused. */
  lemma AddFullAlone(s: Ring, i: nat, v: int)
    requires InBounds(s) && i < |s.producers| && s.producers[i] == Idle && s.rear == s.front + s.capacity
    ensures Leads(s, FullSteps(i, v), s.(added := Some(false)))
  {
    var s1 := Next(s, Begin(i, v));
    var s2 := Produce(s1, i);
    var s3 := Produce(s2, i);
    assert s3.producers[i] == Check(v, s.rear, s.front, s.rear);
    var s4 := Produce(s3, i);
    assert s4.producers == s.producers;
    assert s4 == s.(added := Some(false));
    ThreeSteps(s1, Producing(i), s2, s3, s4);
    assert FullSteps(i, v)[1..] == [Producing(i), Producing(i), Producing(i)];
  }

  /** A pop on an empty ring answers nothing. */
  lemma PopEmptyAlone(s: Ring, i: nat)
    requires InBounds(s) && i < |s.consumers| && s.consumers[i] == Resting && s.front == s.rear
    ensures Leads(s, EmptySteps(i), s.(answer := None))
  {
    var s2 := Consume(s, i);
    var s3 := Consume(s2, i);
    assert s3.consumers[i] == Decide(s.rear, s.front);
    var s4 := Consume(s3, i);
    assert s4.consumers == s.consumers;
    assert s4 == s.(answer := None);
    ThreeSteps(s, Popping(i), s2, s3, s4);
  }

  /** One call, on a ring with or without room, with or without elements. */
  lemma CallAlone(s: Ring, call: Call)
    requires Calm(s) && HasCaller(s, call)
    ensures Leads(s, CallSteps(s, call), CallDone(s, call)) && Calm(CallDone(s, call))
  {
    match call
    case AddCall(i, v) => if HasRoom(s) { AddAlone(s, i, v); } else { AddFullAlone(s, i, v); }
    case PopCall(i) => if s.front < s.rear { PopAlone(s, i); } else { PopEmptyAlone(s, i); }
  }

  lemma CallIsFifo(s: Ring, call: Call)
    requires Calm(s) && IsPowerOfTwo(s.capacity)
    ensures QueueOf(CallDone(s, call)) == Fifo(QueueOf(s), call)
  {
    match call
    case AddCall(_, v) => if HasRoom(s) { AddIsEnqueue(s, v); }
    case PopCall(_) => if s.front < s.rear { PopIsDequeue(s); }
  }

  predicate Callable(s: Ring, calls: seq<Call>) {
    Calm(s) && forall k | 0 <= k < |calls| :: HasCaller(s, calls[k])
  }

  function AllDone(s: Ring, calls: seq<Call>): (t: Ring)
    requires Callable(s, calls)
    ensures Calm(t) && t.capacity == s.capacity
    decreases |calls|
  {
    if calls == [] then s
    else
      CallAlone(s, calls[0]);
      AllDone(CallDone(s, calls[0]), calls[1..])
  }

  function AllSteps(s: Ring, calls: seq<Call>): seq<Step>
    requires Callable(s, calls)
    decreases |calls|
  {
    if calls == [] then []
    else
      CallAlone(s, calls[0]);
      CallSteps(s, calls[0]) + AllSteps(CallDone(s, calls[0]), calls[1..])
  }

  /** Calls one after the other are a run of the ring. */
  lemma {:induction false} AllStepsLead(s: Ring, calls: seq<Call>)
    requires Callable(s, calls)
    ensures Leads(s, AllSteps(s, calls), AllDone(s, calls))
    decreases |calls|
  {
    if calls != [] {
      var t := CallDone(s, calls[0]);
      CallAlone(s, calls[0]);
      AllStepsLead(t, calls[1..]);
      LeadsJoin(s, CallSteps(s, calls[0]), t, AllSteps(t, calls[1..]), AllDone(t, calls[1..]));
    }
  }

  /** Contents and answers are those of the queue. */
  predicate IsFifo(s: Ring, calls: seq<Call>)
    requires Callable(s, calls)
  {
    QueueOf(AllDone(s, calls)) == FifoAll(QueueOf(s), calls)
  }

  lemma {:induction false} RefinesFifo(s: Ring, calls: seq<Call>)
    requires Callable(s, calls) && IsPowerOfTwo(s.capacity)
    ensures IsFifo(s, calls)
    decreases |calls|
  {
    if calls != [] {
      CallAlone(s, calls[0]);
      CallIsFifo(s, calls[0]);
      RefinesFifo(CallDone(s, calls[0]), calls[1..]);
    }
  }

  function Zeroes(n: nat): seq<int> {
    seq(n, _ => 0)
  }

  /** Add 0 so many times, and then 1. */
  function ZeroCalls(n: nat): seq<Call> {
    seq(n, _ => AddCall(0, 0)) + [AddCall(0, 1)]
  }

  lemma ZeroCallsStep(n: nat)
    ensures n > 0 ==> ZeroCalls(n)[0] == AddCall(0, 0) && ZeroCalls(n)[1..] == ZeroCalls(n - 1)
    ensures n == 0 ==> ZeroCalls(n)[0] == AddCall(0, 1) && ZeroCalls(n)[1..] == []
  {
  }

  lemma {:induction false} FifoZeroes(q: Queue, n: nat)
    requires |q.items| + n < q.capacity
    ensures FifoAll(q, ZeroCalls(n)).items == q.items + Zeroes(n) + [1]
    decreases n
  {
    ZeroCallsStep(n);
    if n > 0 {
      FifoZeroes(Fifo(q, AddCall(0, 0)), n - 1);
      assert q.items + [0] + Zeroes(n - 1) == q.items + Zeroes(n);
    }
  }

  lemma {:induction false} AddZeroes(s: Ring, n: nat)
    requires Callable(s, ZeroCalls(n)) && s.front == 0 && s.rear + n < s.capacity && s.slots == Zeroes(s.capacity)
    ensures var t := AllDone(s, ZeroCalls(n));
            t.front == 0 && t.rear == s.rear + n + 1 && t.slots == s.slots[Slot(s.rear + n, s.capacity) := 1]
    decreases n
  {
    ZeroCallsStep(n);
    CallAlone(s, ZeroCalls(n)[0]);
    if n > 0 {
      var t := CallDone(s, AddCall(0, 0));
      assert t.slots == s.slots;
      AddZeroes(t, n - 1);
    }
  }

  /** For any other capacity some calls overwrite the oldest element. */
  lemma OverwritesOldest(capacity: nat) returns (s: Ring, calls: seq<Call>)
    requires 0 < capacity < 0x8000_0000 && !IsPowerOfTwo(capacity)
    ensures IsInitial(s) && s.capacity == capacity && Callable(s, calls) && !IsFifo(s, calls)
  {
    var j := MaskCollides(capacity);
    s := Ring(capacity, 0, 0, Zeroes(capacity), [Idle], [], [], [], [], None, None);
    calls := ZeroCalls(j);
    AddZeroes(s, j);
    FifoZeroes(QueueOf(s), j);
    var t := AllDone(s, calls);
    assert Slot(0, capacity) == 0 == Slot(j, capacity);
    assert QueueOf(t).items[0] == 1 && FifoAll(QueueOf(s), calls).items[0] == 0;
  }

  /**
   Over every run of calls that do not overlap, from an initial ring, the ring is a bounded queue exactly
   when its capacity is a power of two: it holds what the queue holds, refuses an add when the queue is
   full, and answers every pop as the queue does.
   */
  lemma QueueIffPowerOfTwo(capacity: nat)
    requires 0 < capacity < 0x8000_0000
    ensures (forall s, calls | IsInitial(s) && s.capacity == capacity && Callable(s, calls) :: IsFifo(s, calls))
       <==> IsPowerOfTwo(capacity)
  {
    if IsPowerOfTwo(capacity) {
      forall s, calls | IsInitial(s) && s.capacity == capacity && Callable(s, calls)
        ensures IsFifo(s, calls)
      {
        RefinesFifo(s, calls);
      }
    } else {
      var s, calls := OverwritesOldest(capacity);
    }
  }

  // ---- What goes wrong when calls overlap -----------------------------------------------------------------

  /** Two producers and a number of consumers. */
  function Start(capacity: nat, consumers: nat): Ring {
    Ring(capacity, 0, 0, seq(capacity, _ => 0), [Idle, Idle], seq(consumers, _ => Resting), [], [], [], None, None)
  }

  lemma AddOn(s0: Ring, steps: seq<Step>, s: Ring, i: nat, v: int) returns (more: seq<Step>, t: Ring)
    requires Leads(s0, steps, s) && InBounds(s)
    requires i < |s.producers| && s.producers[i] == Idle && s.rear < s.front + s.capacity
    ensures Leads(s0, more, t) && t == Added(s, v)
  {
    AddAlone(s, i, v);
    LeadsJoin(s0, steps, s, AddSteps(i, v), Added(s, v));
    more, t := steps + AddSteps(i, v), Added(s, v);
  }

  lemma PopOn(s0: Ring, steps: seq<Step>, s: Ring) returns (more: seq<Step>, t: Ring)
    requires Leads(s0, steps, s) && InBounds(s)
    requires |s.consumers| > 0 && s.consumers[0] == Resting && s.front < s.rear
    ensures Leads(s0, more, t) && t == Popped(s)
  {
    PopAlone(s, 0);
    LeadsJoin(s0, steps, s, PopSteps(0), Popped(s));
    more, t := steps + PopSteps(0), Popped(s);
  }

  /** The first producer has read rear and is about to read front. */
  lemma HalfwayAdd() returns (steps: seq<Step>, s: Ring)
    ensures Leads(Start(2, 1), steps, s)
    ensures s == Start(2, 1).(producers := [ReadFront(7, 0), Idle])
  {
    var s0 := Start(2, 1);
    var s1 := Next(s0, Begin(0, 7));
    LeadsOne(s0, Begin(0, 7));
    LeadsOn(s0, [Begin(0, 7)], s1, Producing(0));
    steps, s := [Begin(0, 7)] + [Producing(0)], Next(s1, Producing(0));
  }

  /** The other producer then adds, and the consumer pops. */
  lemma PassedBy() returns (steps: seq<Step>, s: Ring)
    ensures Leads(Start(2, 1), steps, s)
    ensures Shape(s) && s.capacity == 2 && s.front == 1 == s.rear && s.producers == [ReadFront(7, 0), Idle]
  {
    steps, s := HalfwayAdd();
    steps, s := AddOn(Start(2, 1), steps, s, 1, 8);
    steps, s := PopOn(Start(2, 1), steps, s);
  }

  /** An Add can report a full ring that is empty. */
  lemma FullReportOfEmptyRing() returns (s: Ring)
    ensures Reachable(s, 1) && |s.producers| == 2 && s.producers[0].Check?
    ensures LooksFull(s.capacity, s.producers[0].rear, s.producers[0].front)
    ensures s.front == s.rear && s.producers[0].held == s.producers[0].front
  {
    var steps, s1 := PassedBy();
    LeadsOn(Start(2, 1), steps, s1, Producing(0));
    s := Next(s1, Producing(0));
    assert s.producers[0] == Check(7, 0, 1, 1);
  }

  /** The consumers of a run of `n`, the second of which has got to `c`. */
  function Second(n: nat, c: Consumer): seq<Consumer>
    requires n >= 2
  {
    seq(n, i => if i == 1 then c else Resting)
  }

  /** The second consumer has read rear. */
  lemma HalfwayPop(capacity: nat, n: nat) returns (steps: seq<Step>, s: Ring)
    requires 0 < capacity < 0x8000_0000 && n >= 2
    ensures Leads(Start(capacity, n), steps, s) && s.capacity == capacity
    ensures InBounds(s) && s.front == 0 && s.rear == 1
    ensures s.producers == [Idle, Idle] && s.consumers == Second(n, LookFront(1))
  {
    var s0 := Start(capacity, n);
    AddAlone(s0, 0, 7);
    var s1 := Added(s0, 7);
    LeadsOn(s0, AddSteps(0, 7), s1, Popping(1));
    steps, s := AddSteps(0, 7) + [Popping(1)], Next(s1, Popping(1));
  }

  /** The first then pops twice, with an add in between. */
  lemma SlowConsumer(capacity: nat, n: nat) returns (steps: seq<Step>, s: Ring)
    requires 0 < capacity < 0x8000_0000 && n >= 2
    ensures Leads(Start(capacity, n), steps, s) && s.capacity == capacity
    ensures InBounds(s) && s.front == 2 == s.rear && s.consumers == Second(n, LookFront(1))
  {
    var s0 := Start(capacity, n);
    steps, s := HalfwayPop(capacity, n);
    steps, s := PopOn(s0, steps, s);
    steps, s := AddOn(s0, steps, s, 0, 8);
    steps, s := PopOn(s0, steps, s);
  }

  /** The second goes on with the rear it has read, and claims an index that no add has reached. */
  lemma Overshoots(capacity: nat, n: nat) returns (s: Ring)
    requires 0 < capacity < 0x8000_0000 && n >= 2
    ensures Reachable(s, n) && s.capacity == capacity && s.front == s.rear + 1
  {
    var s0 := Start(capacity, n);
    var steps, s1 := SlowConsumer(capacity, n);
    var s2 := Next(s1, Popping(1));
    LeadsOn(s0, steps, s1, Popping(1));
    var s3 := Next(s2, Popping(1));
    LeadsOn(s0, steps + [Popping(1)], s2, Popping(1));
    assert s3.consumers[1] == Take(1, 2);
    LeadsOn(s0, steps + [Popping(1)] + [Popping(1)], s3, Popping(1));
    s := Next(s3, Popping(1));
  }

  /**
   The bounds hold in every run of a ring of any capacity exactly when it has at most one consumer:
   pop_front reads rear once, before its retry loop, so a slow second one can pass the rear that has been
   reached.
   */
  lemma BoundsIffOneConsumer(capacity: nat, n: nat)
    requires 0 < capacity < 0x8000_0000
    ensures (forall s | Reachable(s, n) && s.capacity == capacity :: s.front <= s.rear <= s.front + s.capacity)
       <==> n <= 1
  {
    if n <= 1 {
      forall s | Reachable(s, n) && s.capacity == capacity
        ensures s.front <= s.rear <= s.front + s.capacity
      {
        ReachableInv(s, n);
      }
    } else {
      var s := Overshoots(capacity, n);
    }
  }
}
