/** The lock-free ring between one producer and one consumer. First the two
    operations as they run alone, then the same two split into their single
    loads and stores and interleaved in every possible way. */
module Ring {
  import opened Bytes

  const RING_SIZE: nat := 128

  /** Index `n` of an endless tape, in the ring. */
  function At(n: nat): (r: nat)
    ensures r < RING_SIZE
  {
    n % RING_SIZE
  }

  class Buffer {
    var buf: array<byte>
    var head: nat
    var tail: nat

    /** All values ever accepted and all values ever handed out. */
    ghost var accepted: seq<byte>
    ghost var popped: seq<byte>

    ghost predicate Valid()
      reads this, buf
    {
      && buf.Length == RING_SIZE
      && Holds(buf[..], head, tail, accepted, popped)
    }

    /** What waits in the ring, oldest first. */
    ghost function Contents(): seq<byte>
      reads this, buf
      requires Valid()
    {
      accepted[|popped|..]
    }

    constructor ()
      ensures Valid() && fresh(buf) && accepted == popped == []
    {
      buf := new byte[RING_SIZE](_ => 0);
      head, tail := 0, 0;
      accepted, popped := [], [];
    }

    /** Appends a value; a full ring refuses it and loses nothing. */
    method Push(v: byte) returns (r: int)
      requires Valid()
      modifies this`head, this`accepted, buf
      ensures Valid()
      ensures r == if |old(Contents())| == RING_SIZE - 1 then 0 else 1
      ensures Contents() == if r == 1 then old(Contents()) + [v] else old(Contents())
    {
      var next := (head + 1) % RING_SIZE;
      FullWhen(|accepted|, |popped|);
      if next == tail {
        return 0;
      }
      OneSlotApart(|accepted|, |popped|);
      buf[head] := v;
      head := next;
      accepted := accepted + [v];
      return 1;
    }

    /** Takes the oldest value; -1 from an empty ring. */
    method Pop() returns (r: int)
      requires Valid()
      modifies this`tail, this`popped
      ensures Valid()
      ensures r == if old(Contents()) == [] then -1 else old(Contents())[0] as int
      ensures Contents() == if r == -1 then old(Contents()) else old(Contents())[1..]
    {
      r := -1;
      var next := (tail + 1) % RING_SIZE;
      EmptyWhen(|accepted|, |popped|);
      if head != tail {
        r := buf[tail];
        tail := next;
        popped := popped + [r];
      }
    }

    method Empty() returns (empty: bool)
      requires Valid()
      ensures empty <==> Contents() == []
    {
      EmptyWhen(|accepted|, |popped|);
      empty := true;
      if head != tail {
        empty := false;
      }
    }
  }

  /** What has been popped is a prefix of what has been accepted, the rest lies in
      the ring, and there are at most 127 of them. */
  ghost predicate Holds(buf: seq<byte>, head: nat, tail: nat, accepted: seq<byte>, popped: seq<byte>) {
    && |buf| == RING_SIZE
    && |popped| <= |accepted| <= |popped| + RING_SIZE - 1
    && popped == accepted[..|popped|]
    && head == At(|accepted|) && tail == At(|popped|)
    && forall k {:trigger accepted[k]} :: |popped| <= k < |accepted| ==> buf[At(k)] == accepted[k]
  }

  /** Less than a round apart only equal counts share a slot; a whole round apart they do. */
  lemma SameSlot(a: nat, p: nat)
    requires p <= a <= p + RING_SIZE
    ensures At(a) == At(p) <==> a == p || a == p + RING_SIZE
  {
    assert a - p == RING_SIZE * (a / RING_SIZE - p / RING_SIZE) + At(a) - At(p);
  }

  lemma NextSlot(a: nat)
    ensures (At(a) + 1) % RING_SIZE == At(a + 1)
  {
    if At(a) + 1 == RING_SIZE {
      assert a + 1 == RING_SIZE * (a / RING_SIZE + 1);
    } else {
      assert a + 1 == RING_SIZE * (a / RING_SIZE) + (At(a) + 1);
    }
  }

  /** The head would run into the tail exactly when 127 values wait. */
  lemma FullWhen(a: nat, p: nat)
    requires p <= a <= p + RING_SIZE - 1
    ensures (At(a) + 1) % RING_SIZE == At(a + 1)
    ensures At(a + 1) == At(p) <==> a == p + RING_SIZE - 1
  {
    hide At;
    NextSlot(a);
    SameSlot(a + 1, p);
  }

  lemma EmptyWhen(a: nat, p: nat)
    requires p <= a <= p + RING_SIZE - 1
    ensures (At(p) + 1) % RING_SIZE == At(p + 1)
    ensures At(a) == At(p) <==> a == p
  {
    hide At;
    NextSlot(p);
    SameSlot(a, p);
  }

  /** The slot the producer writes is none of the slots in use. */
  lemma OneSlotApart(a: nat, p: nat)
    requires p <= a < p + RING_SIZE - 1
    ensures forall k {:trigger At(k)} :: p <= k < a ==> At(k) != At(a)
  {
    hide At;
    forall k | p <= k < a
      ensures At(k) != At(a)
    {
      SameSlot(a, k);
    }
  }

  // ---- single loads and stores, interleaved --------------------------------------

  /** Where the producer stands in a push of `v`: called; has computed the next
      index; has seen room; has loaded the index to write; has stored the value. */
  datatype Producer =
    | Idle
    | Called(v: byte)
    | Next(v: byte, next: nat)
    | Room(v: byte, next: nat)
    | Index(v: byte, next: nat, at: nat)
    | Stored(v: byte, next: nat)

  /** Where the consumer stands in a pop: called; has computed the next index; has
      loaded the head; has seen a difference; has loaded the index to read; has
      loaded the value. */
  datatype Consumer =
    | Resting
    | Asked
    | After(next: nat)
    | Seen(next: nat, head: nat)
    | Differs(next: nat)
    | Reads(next: nat, at: nat)
    | Got(next: nat, v: byte)

  datatype State = State(buf: seq<byte>, head: nat, tail: nat, prod: Producer, cons: Consumer,
                         accepted: seq<byte>, popped: seq<byte>)

  datatype Step = Produce | Consume | StartPush(v: byte) | StartPop

  /** What a step reports to its caller, if anything. */
  datatype Reply = Silent | Pushed(v: byte) | Full | Popped(v: byte) | Nothing

  function Start(): State {
    State(seq(RING_SIZE, _ => 0), 0, 0, Idle, Resting, [], [])
  }

  predicate CanStep(s: State, step: Step) {
    match step
    case StartPush(_) => s.prod.Idle?
    case StartPop => s.cons.Resting?
    case Produce => !s.prod.Idle? && |s.buf| == RING_SIZE && (s.prod.Index? ==> s.prod.at < RING_SIZE)
    case Consume => !s.cons.Resting? && |s.buf| == RING_SIZE && (s.cons.Reads? ==> s.cons.at < RING_SIZE)
  }

  /** One load or store of one side. The head is written by the producer only, the
      tail by the consumer only. */
  function Do(s: State, step: Step): (State, Reply)
    requires CanStep(s, step)
  {
    match step
    case StartPush(v) => (s.(prod := Called(v)), Silent)
    case StartPop => (s.(cons := Asked), Silent)
    case Produce => (
      match s.prod
      case Called(v) => (s.(prod := Next(v, (s.head + 1) % RING_SIZE)), Silent)
      case Next(v, next) => if next == s.tail then (s.(prod := Idle), Full) else (s.(prod := Room(v, next)), Silent)
      case Room(v, next) => (s.(prod := Index(v, next, s.head)), Silent)
      case Index(v, next, at) => (s.(buf := s.buf[at := v], prod := Stored(v, next)), Silent)
      case Stored(v, next) => (s.(head := next, prod := Idle, accepted := s.accepted + [v]), Pushed(v)))
    case Consume => (
      match s.cons
      case Asked => (s.(cons := After((s.tail + 1) % RING_SIZE)), Silent)
      case After(next) => (s.(cons := Seen(next, s.head)), Silent)
      case Seen(next, head) =>
        if head == s.tail then (s.(cons := Resting), Nothing) else (s.(cons := Differs(next)), Silent)
      case Differs(next) => (s.(cons := Reads(next, s.tail)), Silent)
      case Reads(next, at) => (s.(cons := Got(next, s.buf[at])), Silent)
      case Got(next, v) => (s.(tail := next, cons := Resting, popped := s.popped + [v]), Popped(v)))
  }

  ghost predicate ProducerKnows(s: State) {
    match s.prod
    case Idle => true
    case Called(_) => true
    case Next(_, next) => next == At(|s.accepted| + 1)
    case Room(_, next) => next == At(|s.accepted| + 1) && |s.accepted| < |s.popped| + RING_SIZE - 1
    case Index(_, next, at) =>
      next == At(|s.accepted| + 1) && |s.accepted| < |s.popped| + RING_SIZE - 1 && at == s.head
    case Stored(v, next) =>
      next == At(|s.accepted| + 1) && |s.accepted| < |s.popped| + RING_SIZE - 1
      && |s.buf| == RING_SIZE && s.buf[At(|s.accepted|)] == v
  }

  ghost predicate ConsumerKnows(s: State) {
    match s.cons
    case Resting => true
    case Asked => true
    case After(next) => next == At(|s.popped| + 1)
    case Seen(next, head) => next == At(|s.popped| + 1) && (head != s.tail ==> |s.popped| < |s.accepted|)
    case Differs(next) => next == At(|s.popped| + 1) && |s.popped| < |s.accepted|
    case Reads(next, at) => next == At(|s.popped| + 1) && |s.popped| < |s.accepted| && at == s.tail
    case Got(next, v) => next == At(|s.popped| + 1) && |s.popped| < |s.accepted| && v == s.accepted[|s.popped|]
  }

  ghost predicate Inv(s: State) {
    Holds(s.buf, s.head, s.tail, s.accepted, s.popped) && ProducerKnows(s) && ConsumerKnows(s)
  }

  lemma ProducerKeepsInv(s: State)
    requires Inv(s) && CanStep(s, Produce)
    ensures Inv(Do(s, Produce).0)
  {
    hide At;
    FullWhen(|s.accepted|, |s.popped|);
    if s.prod.Index? || s.prod.Stored? {
      OneSlotApart(|s.accepted|, |s.popped|);
    }
  }

  lemma ConsumerKeepsInv(s: State)
    requires Inv(s) && CanStep(s, Consume)
    ensures Inv(Do(s, Consume).0)
  {
    hide At;
    EmptyWhen(|s.accepted|, |s.popped|);
  }

  /** Every step keeps the ring whole, wherever the other side stands. */
  lemma StepKeepsInv(s: State, step: Step)
    requires Inv(s) && CanStep(s, step)
    ensures Inv(Do(s, step).0)
  {
    match step
    case Produce => ProducerKeepsInv(s);
    case Consume => ConsumerKeepsInv(s);
    case StartPush(_) =>
    case StartPop =>
  }

  /** Nobody waits for the other: from every state a side inside an operation can
      take its next step. */
  lemma NeverStuck(s: State)
    requires Inv(s)
    ensures s.prod.Idle? || CanStep(s, Produce)
    ensures s.cons.Resting? || CanStep(s, Consume)
  {
  }

  /** The answers are true when they are given or were at a load inside the call: a
      push is refused only with 127 values waiting, an accepted value goes to the
      end, a popped one is the oldest. */
  lemma RepliesAreTrue(s: State, step: Step)
    requires Inv(s) && CanStep(s, step)
    ensures var (s', reply) := Do(s, step);
      match reply
      case Silent => s'.accepted == s.accepted && s'.popped == s.popped
      case Full => |s.accepted| == |s.popped| + RING_SIZE - 1 && s'.accepted == s.accepted
      case Pushed(v) => s'.accepted == s.accepted + [v] && s'.popped == s.popped
      case Popped(v) => |s.popped| < |s.accepted| && v == s.accepted[|s.popped|] && s'.accepted == s.accepted
      case Nothing => s'.accepted == s.accepted && s'.popped == s.popped
  {
    FullWhen(|s.accepted|, |s.popped|);
  }

  /** A pop that finds nothing loaded a head equal to its tail: at that load the
      ring was empty. */
  lemma NothingMeansEmpty(s: State)
    requires Inv(s) && s.cons.After?
    ensures var s' := Do(s, Consume).0; s'.cons.Seen? && (s'.cons.head == s.tail <==> s.accepted == s.popped)
  {
    EmptyWhen(|s.accepted|, |s.popped|);
  }

  ghost predicate Run(ss: seq<State>, steps: seq<Step>) {
    && |ss| == |steps| + 1
    && ss[0] == Start()
    && forall k :: 0 <= k < |steps| ==> CanStep(ss[k], steps[k]) && ss[k + 1] == Do(ss[k], steps[k]).0
  }

  /** On every interleaving: what came out is a prefix of what went in, what is
      missing lies in the ring in order, and at most 127 values do. */
  lemma {:induction false} RingIsFifo(ss: seq<State>, steps: seq<Step>)
    requires Run(ss, steps)
    ensures var s := ss[|steps|];
      && Inv(s)
      && s.popped <= s.accepted
      && |s.accepted| - |s.popped| <= RING_SIZE - 1
      && forall k :: |s.popped| <= k < |s.accepted| ==> s.buf[At(k)] == s.accepted[k]
  {
    if steps != [] {
      var n := |steps| - 1;
      RingIsFifo(ss[..|steps|], steps[..n]);
      StepKeepsInv(ss[n], steps[n]);
    }
  }

  // ---- the steps of an undisturbed operation ---------------------------------------

  /** The producer's next `n` steps, or as many as its push takes. */
  function ProduceOnly(s: State, n: nat): State
    decreases n
  {
    if n == 0 || s.prod.Idle? || !CanStep(s, Produce) then s else ProduceOnly(Do(s, Produce).0, n - 1)
  }

  function ConsumeOnly(s: State, n: nat): State
    decreases n
  {
    if n == 0 || s.cons.Resting? || !CanStep(s, Consume) then s else ConsumeOnly(Do(s, Consume).0, n - 1)
  }

  /** Run alone, the steps of a push amount to the push of the class above. */
  lemma PushAlone(s: State, v: byte)
    requires Inv(s) && s.prod.Idle?
    ensures var s' := ProduceOnly(s.(prod := Called(v)), 5);
      if |s.accepted| - |s.popped| == RING_SIZE - 1 then s' == s
      else s' == s.(buf := s.buf[s.head := v], head := (s.head + 1) % RING_SIZE, accepted := s.accepted + [v])
  {
    hide At, ProducerKnows, ConsumerKnows;
    FullWhen(|s.accepted|, |s.popped|);
    var next := (s.head + 1) % RING_SIZE;
    if next == s.tail {
      assert ProduceOnly(s.(prod := Next(v, next)), 4) == s;
    } else {
      var done := s.(buf := s.buf[s.head := v], head := next, accepted := s.accepted + [v]);
      var stored := s.(buf := s.buf[s.head := v], prod := Stored(v, next));
      assert Do(stored, Produce).0 == done && ProduceOnly(stored, 1) == done;
      assert ProduceOnly(s.(prod := Index(v, next, s.head)), 2) == ProduceOnly(stored, 1);
      assert ProduceOnly(s.(prod := Room(v, next)), 3) == ProduceOnly(s.(prod := Index(v, next, s.head)), 2);
      assert ProduceOnly(s.(prod := Next(v, next)), 4) == ProduceOnly(s.(prod := Room(v, next)), 3);
    }
  }

  /** And those of a pop to the pop. */
  lemma PopAlone(s: State)
    requires Inv(s) && s.cons.Resting?
    ensures var s' := ConsumeOnly(s.(cons := Asked), 6);
      if s.accepted == s.popped then s' == s
      else s' == s.(tail := (s.tail + 1) % RING_SIZE, popped := s.popped + [s.accepted[|s.popped|]])
  {
    hide At, ProducerKnows, ConsumerKnows;
    EmptyWhen(|s.accepted|, |s.popped|);
    var next := (s.tail + 1) % RING_SIZE;
    var seen := s.(cons := Seen(next, s.head));
    assert ConsumeOnly(s.(cons := Asked), 6) == ConsumeOnly(s.(cons := After(next)), 5) == ConsumeOnly(seen, 4);
    if s.head == s.tail {
      assert Do(seen, Consume).0 == s && ConsumeOnly(seen, 4) == ConsumeOnly(s, 3) == s;
    } else {
      var v := s.buf[s.tail];
      assert v == s.accepted[|s.popped|];
      var got := s.(cons := Got(next, v));
      assert Do(got, Consume).0 == s.(tail := next, popped := s.popped + [v]);
      assert ConsumeOnly(got, 1) == Do(got, Consume).0;
      assert ConsumeOnly(s.(cons := Reads(next, s.tail)), 2) == ConsumeOnly(got, 1);
      assert ConsumeOnly(s.(cons := Differs(next)), 3) == ConsumeOnly(s.(cons := Reads(next, s.tail)), 2);
      assert ConsumeOnly(seen, 4) == ConsumeOnly(s.(cons := Differs(next)), 3);
    }
  }
}
