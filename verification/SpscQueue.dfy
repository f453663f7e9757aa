/**
  The single-producer single-consumer queue of utils/spsc.hpp as a transition system: one atomic
  load or store, or one access to the buffer, per step, interleaved in every way under sequential
  consistency. head and tail are 64-bit words that wrap around; pushed and popped record what the
  operations have completed, and their lengths are the positions without the wrap.
*/
module SpscQueue {
  import opened Int64
  import opened RingIndex

  datatype Producer<T> =
    | Idle
    | LoadTail(item: T, h: int)
    | Write(item: T, h: int)
    | StoreHead(item: T, h: int)

  datatype Consumer<T> =
    | Waiting
    | LoadHead(t: int)
    | Read(t: int)
    | StoreTail(t: int, item: T)

  datatype State<T> = State(
    head: int,
    tail: int,
    buffer: seq<T>,
    producer: Producer<T>,
    consumer: Consumer<T>,
    pushed: seq<T>,
    popped: seq<T>)

  // the buffer's size is a power of two that fits a word
  ghost predicate Init<T>(s: State<T>) {
    && PowerOfTwo(|s.buffer|) && |s.buffer| <= TWO_TO_64
    && s.head == s.tail == 0 && s.producer == Idle && s.consumer == Waiting
    && s.pushed == [] && s.popped == []
  }

  datatype Step<T> = BeginPush(item: T) | BeginPop | ProducerStep | ConsumerStep

  ghost predicate NextStep<T>(s: State<T>, s': State<T>, step: Step<T>)
    requires s.buffer != []
  {
    var c := |s.buffer|;
    match step
    case BeginPush(item) => s.producer == Idle && s' == s.(producer := LoadTail(item, s.head))
    case BeginPop => s.consumer == Waiting && s' == s.(consumer := LoadHead(s.tail))
    case ProducerStep => (
      match s.producer
      case Idle => false
      case LoadTail(item, h) =>
        s' == s.(producer := if (h - s.tail) % TWO_TO_64 == c - 1 then Idle else Write(item, h))
      case Write(item, h) => s' == s.(buffer := s.buffer[And(h, c - 1) := item], producer := StoreHead(item, h))
      case StoreHead(item, h) => s' == s.(head := (h + 1) % TWO_TO_64, producer := Idle, pushed := s.pushed + [item]))
    case ConsumerStep => (
      match s.consumer
      case Waiting => false
      case LoadHead(t) => s' == s.(consumer := if t == s.head then Waiting else Read(t))
      case Read(t) => s' == s.(consumer := StoreTail(t, s.buffer[And(t, c - 1)]))
      case StoreTail(t, item) =>
        s' == s.(tail := (t + 1) % TWO_TO_64, consumer := Waiting, popped := s.popped + [item]))
  }

  ghost predicate Next<T(!new)>(s: State<T>, s': State<T>) {
    s.buffer != [] && exists step :: NextStep(s, s', step)
  }

  // ---------------------------------------------------------------- invariant

  ghost predicate Inv<T>(s: State<T>) {
    var (c, h, t) := (|s.buffer|, |s.pushed|, |s.popped|);
    && PowerOfTwo(c) && c <= TWO_TO_64
    && s.head == h % TWO_TO_64 && s.tail == t % TWO_TO_64
    && s.popped <= s.pushed && h - t <= c - 1
    && (forall i {:trigger s.pushed[i]} :: t <= i < h ==> s.buffer[i % c] == s.pushed[i])
    && (match s.producer
        case Idle => true
        case LoadTail(_, p) => p == s.head
        case Write(_, p) => p == s.head && h - t < c - 1
        case StoreHead(item, p) => p == s.head && h - t < c - 1 && s.buffer[h % c] == item)
    && (match s.consumer
        case Waiting => true
        case LoadHead(p) => p == s.tail
        case Read(p) => p == s.tail && t < h
        case StoreTail(p, item) => p == s.tail && t < h && item == s.pushed[t])
  }

  // ---------------------------------------------------------------- steps

  lemma ProducerKeeps<T>(s: State<T>, s': State<T>)
    requires Inv(s) && NextStep(s, s', ProducerStep)
    ensures Inv(s')
  {
    var (c, h, t) := (|s.buffer|, |s.pushed|, |s.popped|);
    match s.producer
    case LoadTail(item, p) =>
      WrapKeepsDistance(h, t);
    case Write(item, p) =>
      MaskedSlot(h, c);
      forall i | t <= i < h
        ensures s'.buffer[i % c] == s.pushed[i]
      {
        DifferentCells(i, h, c);
      }
    case StoreHead(item, p) =>
      WrapNext(h);
      assert s.popped <= s'.pushed;
    case Idle =>
  }

  lemma ConsumerKeeps<T>(s: State<T>, s': State<T>)
    requires Inv(s) && NextStep(s, s', ConsumerStep)
    ensures Inv(s')
  {
    var (c, h, t) := (|s.buffer|, |s.pushed|, |s.popped|);
    match s.consumer
    case LoadHead(p) =>
      WrapKeepsDistance(h, t);
    case Read(p) =>
      MaskedSlot(t, c);
      assert s.buffer[t % c] == s.pushed[t];
    case StoreTail(p, item) =>
      WrapNext(t);
      assert s.popped == s.pushed[..t];
      assert s'.popped == s.pushed[..t + 1];
    case Waiting =>
  }

  lemma InvNext<T(!new)>(s: State<T>, s': State<T>)
    requires Inv(s) && Next(s, s')
    ensures Inv(s')
  {
    var step :| NextStep(s, s', step);
    match step
    case ProducerStep => ProducerKeeps(s, s');
    case ConsumerStep => ConsumerKeeps(s, s');
    case _ =>
  }

  lemma InitOk<T>(s: State<T>)
    requires Init(s)
    ensures Inv(s)
  {
  }

  ghost predicate IsRun<T(!new)>(run: seq<State<T>>) {
    && run != [] && Init(run[0])
    && forall i :: 0 <= i < |run| - 1 ==> Next(run[i], run[i + 1])
  }

  lemma {:induction false} InvHolds<T(!new)>(run: seq<State<T>>, i: nat)
    requires IsRun(run) && i < |run|
    ensures Inv(run[i]) && |run[i].buffer| == |run[0].buffer|
  {
    if i == 0 {
      InitOk(run[0]);
    } else {
      InvHolds(run, i - 1);
      assert Next(run[i - 1], run[i - 1 + 1]);
      InvNext(run[i - 1], run[i]);
    }
  }

  // In every state of every run, however often the words have wrapped: what was popped is a
  // prefix of what was pushed, and at most Capacity - 1 items are held.
  lemma FirstInFirstOut<T(!new)>(run: seq<State<T>>, i: nat)
    requires IsRun(run) && i < |run|
    ensures run[i].popped <= run[i].pushed
    ensures |run[i].pushed| - |run[i].popped| <= |run[0].buffer| - 1
    ensures run[i].head == |run[i].pushed| % TWO_TO_64 && run[i].tail == |run[i].popped| % TWO_TO_64
  {
    InvHolds(run, i);
  }

  // push is refused exactly when the queue holds Capacity - 1 items, pop exactly when it is empty.
  lemma RefusedExactlyAtTheEnds<T>(s: State<T>, s': State<T>)
    requires Inv(s)
    ensures s.producer.LoadTail? && NextStep(s, s', ProducerStep) ==>
      (s'.producer == Idle <==> |s.pushed| - |s.popped| == |s.buffer| - 1)
    ensures s.consumer.LoadHead? && NextStep(s, s', ConsumerStep) ==> (s'.consumer == Waiting <==> s.pushed == s.popped)
  {
    WrapKeepsDistance(|s.pushed|, |s.popped|);
  }

  // ---------------------------------------------------------------- calls

  // The producer begins a push of x in state i and is back in state j.
  ghost predicate PushCall<T>(run: seq<State<T>>, i: nat, j: nat, x: T) {
    && i + 1 < j < |run| && run[i].producer == Idle && run[j].producer == Idle
    && (forall k :: i < k < j ==> run[k].producer != Idle)
    && run[i + 1].producer.LoadTail? && run[i + 1].producer.item == x
  }

  ghost predicate PopCall<T>(run: seq<State<T>>, i: nat, j: nat) {
    && i + 1 < j < |run| && run[i].consumer == Waiting && run[j].consumer == Waiting
    && forall k :: i < k < j ==> run[k].consumer != Waiting
  }

  // what holds while a push of x is under way that found these items pushed
  ghost predicate Pushing<T>(s: State<T>, x: T, before: seq<T>) {
    s.producer != Idle && s.producer.item == x && s.pushed == before
  }

  lemma PushStep<T>(s: State<T>, s': State<T>, step: Step<T>, x: T, before: seq<T>)
    requires Inv(s) && NextStep(s, s', step) && Pushing(s, x, before)
    ensures s'.producer != Idle ==> Pushing(s', x, before)
    ensures s'.producer == Idle ==>
      if s.producer.LoadTail? then s'.pushed == before && |s.pushed| - |s.popped| == |s.buffer| - 1
      else s'.pushed == before + [x]
  {
    if s.producer.LoadTail? { WrapKeepsDistance(|s.pushed|, |s.popped|); }
    hide And;
  }

  lemma {:induction false} PushUnderway<T(!new)>(run: seq<State<T>>, i: nat, k: nat, x: T)
    requires IsRun(run) && i < k < |run| && run[i].producer == Idle
    requires run[i + 1].producer.LoadTail? && run[i + 1].producer.item == x
    requires forall m :: i < m <= k ==> run[m].producer != Idle
    ensures Pushing(run[k], x, run[i].pushed)
  {
    InvHolds(run, k - 1);
    hide Inv;
    assert Next(run[k - 1], run[k - 1 + 1]);
    var step :| NextStep(run[k - 1], run[k], step);
    if k > i + 1 {
      PushUnderway(run, i, k - 1, x);
      hide NextStep;
      PushStep(run[k - 1], run[k], step, x, run[i].pushed);
    }
  }

  // A push appends its item with its last step; or it was refused by a full queue, and changes
  // nothing.
  lemma PushDelivers<T(!new)>(run: seq<State<T>>, i: nat, j: nat, x: T)
    requires IsRun(run) && PushCall(run, i, j, x)
    ensures || run[j].pushed == run[i].pushed + [x]
            || (run[j].pushed == run[i].pushed && |run[i].pushed| - |run[j - 1].popped| == |run[j - 1].buffer| - 1)
  {
    PushUnderway(run, i, j - 1, x);
    InvHolds(run, j - 1);
    hide Inv, NextStep;
    assert Next(run[j - 1], run[j - 1 + 1]);
    var step :| NextStep(run[j - 1], run[j], step);
    PushStep(run[j - 1], run[j], step, x, run[i].pushed);
  }

  ghost predicate Popping<T>(s: State<T>, before: seq<T>) {
    s.consumer != Waiting && s.popped == before && (!s.consumer.LoadHead? ==> |before| < |s.pushed|)
  }

  lemma PopStep<T>(s: State<T>, s': State<T>, step: Step<T>, before: seq<T>)
    requires Inv(s) && NextStep(s, s', step) && Popping(s, before)
    ensures s'.consumer != Waiting ==> Popping(s', before)
    ensures s'.consumer == Waiting ==>
      if s.consumer.LoadHead? then s'.popped == before && s.pushed == before
      else |before| < |s.pushed| && s'.popped == before + [s.pushed[|before|]]
  {
    if s.consumer.LoadHead? { WrapKeepsDistance(|s.pushed|, |s.popped|); }
    hide And;
  }

  lemma {:induction false} PopUnderway<T(!new)>(run: seq<State<T>>, i: nat, k: nat)
    requires IsRun(run) && i < k < |run| && run[i].consumer == Waiting
    requires forall m :: i < m <= k ==> run[m].consumer != Waiting
    ensures Popping(run[k], run[i].popped)
  {
    InvHolds(run, k - 1);
    hide Inv;
    assert Next(run[k - 1], run[k - 1 + 1]);
    var step :| NextStep(run[k - 1], run[k], step);
    if k > i + 1 {
      PopUnderway(run, i, k - 1);
      hide NextStep;
      PopStep(run[k - 1], run[k], step, run[i].popped);
    }
  }

  // A pop takes the oldest item that has not been popped; or it has found the queue empty, and
  // changes nothing.
  lemma PopDelivers<T(!new)>(run: seq<State<T>>, i: nat, j: nat)
    requires IsRun(run) && PopCall(run, i, j)
    ensures var (n, pushed) := (|run[i].popped|, run[j - 1].pushed);
      || (n < |pushed| && run[j].popped == run[i].popped + [pushed[n]])
      || (run[j].popped == run[i].popped == pushed)
  {
    PopUnderway(run, i, j - 1);
    InvHolds(run, j - 1);
    hide Inv, NextStep;
    assert Next(run[j - 1], run[j - 1 + 1]);
    var step :| NextStep(run[j - 1], run[j], step);
    PopStep(run[j - 1], run[j], step, run[i].popped);
  }

  function ProducerSteps<T>(p: Producer<T>): nat {
    match p case Idle => 0 case LoadTail(_, _) => 3 case Write(_, _) => 2 case StoreHead(_, _) => 1
  }

  function ConsumerSteps<T>(c: Consumer<T>): nat {
    match c case Waiting => 0 case LoadHead(_) => 3 case Read(_) => 2 case StoreTail(_, _) => 1
  }

  // Nobody waits for the other: a call can always go on, and takes at most three steps of its own.
  lemma CallsEnd<T(!new)>(s: State<T>)
    requires Inv(s)
    ensures s.producer != Idle ==> exists s' :: NextStep(s, s', ProducerStep)
    ensures s.consumer != Waiting ==> exists s' :: NextStep(s, s', ConsumerStep)
    ensures forall s' {:trigger NextStep(s, s', ProducerStep)} :: NextStep(s, s', ProducerStep) ==>
      ProducerSteps(s'.producer) < ProducerSteps(s.producer) && s'.consumer == s.consumer
    ensures forall s' {:trigger NextStep(s, s', ConsumerStep)} :: NextStep(s, s', ConsumerStep) ==>
      ConsumerSteps(s'.consumer) < ConsumerSteps(s.consumer) && s'.producer == s.producer
  {
    hide And;
    var c := |s.buffer|;
    match s.producer {
      case Idle =>
      case LoadTail(item, h) =>
        assert NextStep(s, s.(producer := if (h - s.tail) % TWO_TO_64 == c - 1 then Idle else Write(item, h)),
          ProducerStep);
      case Write(item, h) =>
        assert NextStep(s, s.(buffer := s.buffer[And(h, c - 1) := item], producer := StoreHead(item, h)), ProducerStep);
      case StoreHead(item, h) =>
        assert NextStep(s, s.(head := (h + 1) % TWO_TO_64, producer := Idle, pushed := s.pushed + [item]),
          ProducerStep);
    }
    match s.consumer {
      case Waiting =>
      case LoadHead(t) => assert NextStep(s, s.(consumer := if t == s.head then Waiting else Read(t)), ConsumerStep);
      case Read(t) => assert NextStep(s, s.(consumer := StoreTail(t, s.buffer[And(t, c - 1)])), ConsumerStep);
      case StoreTail(t, item) =>
        assert NextStep(s, s.(tail := (t + 1) % TWO_TO_64, consumer := Waiting, popped := s.popped + [item]),
          ConsumerStep);
    }
  }
}
