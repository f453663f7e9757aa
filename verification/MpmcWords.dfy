/**
  The queue of MpmcQueue as the machine runs it: positions and sequences are 64-bit words that wrap,
  slots are found with the mask, and the sign of a difference decides. Its steps are those of the
  queue with unbounded positions, seen through the words, until some thread is late by about 2^63
  tickets.
*/
module MpmcWords {
  import opened Int64
  import opened RingIndex
  import opened MpmcQueue
  import opened MpmcCalls

  datatype Machine<T> = Machine(enqueuePos: nat, dequeuePos: nat, slots: seq<Slot<T>>, threads: map<nat, Thread<T>>) {
    predicate Wellformed() { slots != [] }

    // slots_[pos & MASK]
    function At(pos: nat): Slot<T>
      requires Wellformed()
    {
      slots[And(pos, |slots| - 1)]
    }

    function Set(pos: nat, slot: Slot<T>): Machine<T>
      requires Wellformed()
    {
      this.(slots := slots[And(pos, |slots| - 1) := slot])
    }

    function Move(id: nat, thread: Thread<T>): Machine<T> {
      this.(threads := threads[id := thread])
    }
  }

  function Word(n: nat): nat {
    n % TWO_TO_64
  }

  // intptr_t(seqno) - intptr_t(pos)
  function Diff(seqno: nat, pos: nat): int {
    Wrap(Wrap(seqno) - Wrap(pos))
  }

  ghost predicate MachineInit<T>(m: Machine<T>) {
    && m.Wellformed() && m.enqueuePos == m.dequeuePos == 0
    && (forall i :: 0 <= i < |m.slots| ==> m.slots[i].sequence == Word(i))
    && (forall id :: id in m.threads ==> m.threads[id] == Idle)
  }

  ghost predicate MachineEnqueue<T>(m: Machine<T>, m': Machine<T>, id: nat, step: Step<T>)
    requires m.Wellformed() && id in m.threads
  {
    match m.threads[id]
    case EnqueueLoad(item, pos) =>
      && step.Continue?
      && var diff := Diff(m.At(pos).sequence, pos);
         m' == m.Move(id, if diff == 0 then EnqueueSwap(item, pos) else if diff < 0 then Idle else EnqueueReload(item))
    case EnqueueReload(item) => step.Continue? && m' == m.Move(id, EnqueueLoad(item, m.enqueuePos))
    case EnqueueSwap(item, pos) =>
      if step.SwapFails? then m' == m.Move(id, EnqueueLoad(item, m.enqueuePos)) else
        && step.Continue? && m.enqueuePos == pos
        && m' == m.Move(id, EnqueueWrite(item, pos)).(enqueuePos := Word(pos + 1))
    case EnqueueWrite(item, pos) =>
      step.Continue? && m' == m.Set(pos, m.At(pos).(data := item)).Move(id, EnqueuePublish(pos))
    case EnqueuePublish(pos) =>
      step.Continue? && m' == m.Set(pos, m.At(pos).(sequence := Word(pos + 1))).Move(id, Idle)
    case _ => false
  }

  ghost predicate MachineDequeue<T>(m: Machine<T>, m': Machine<T>, id: nat, step: Step<T>)
    requires m.Wellformed() && id in m.threads
  {
    match m.threads[id]
    case DequeueLoad(pos) =>
      && step.Continue?
      && var diff := Diff(m.At(pos).sequence, Word(pos + 1));
         m' == m.Move(id, if diff == 0 then DequeueSwap(pos) else if diff < 0 then Idle else DequeueReload)
    case DequeueReload => step.Continue? && m' == m.Move(id, DequeueLoad(m.dequeuePos))
    case DequeueSwap(pos) =>
      if step.SwapFails? then m' == m.Move(id, DequeueLoad(m.dequeuePos)) else
        && step.Continue? && m.dequeuePos == pos
        && m' == m.Move(id, DequeueRead(pos)).(dequeuePos := Word(pos + 1))
    case DequeueRead(pos) => step.Continue? && m' == m.Move(id, DequeueRelease(pos, m.At(pos).data))
    case DequeueRelease(pos, _) =>
      step.Continue? && m' == m.Set(pos, m.At(pos).(sequence := Word(pos + |m.slots|))).Move(id, Idle)
    case _ => false
  }

  ghost predicate MachineStep<T>(m: Machine<T>, m': Machine<T>, id: nat, step: Step<T>)
    requires m.Wellformed()
  {
    && id in m.threads
    && match step
       case BeginEnqueue(item) => m.threads[id] == Idle && m' == m.Move(id, EnqueueLoad(item, m.enqueuePos))
       case BeginDequeue => m.threads[id] == Idle && m' == m.Move(id, DequeueLoad(m.dequeuePos))
       case _ => MachineEnqueue(m, m', id, step) || MachineDequeue(m, m', id, step)
  }

  ghost predicate MachineNext<T(!new)>(m: Machine<T>, m': Machine<T>) {
    m.Wellformed() && exists id, step :: MachineStep(m, m', id, step)
  }

  ghost predicate IsMachineRun<T(!new)>(run: seq<Machine<T>>) {
    && run != [] && MachineInit(run[0])
    && forall i :: 0 <= i < |run| - 1 ==> MachineNext(run[i], run[i + 1])
  }

  // ---------------------------------------------------------------- a state seen through the words

  function ThreadImage<T>(t: Thread<T>): Thread<T> {
    match t
    case Idle => Idle
    case EnqueueLoad(item, pos) => EnqueueLoad(item, Word(pos))
    case EnqueueReload(item) => EnqueueReload(item)
    case EnqueueSwap(item, pos) => EnqueueSwap(item, Word(pos))
    case EnqueueWrite(item, pos) => EnqueueWrite(item, Word(pos))
    case EnqueuePublish(pos) => EnqueuePublish(Word(pos))
    case DequeueLoad(pos) => DequeueLoad(Word(pos))
    case DequeueReload => DequeueReload
    case DequeueSwap(pos) => DequeueSwap(Word(pos))
    case DequeueRead(pos) => DequeueRead(Word(pos))
    case DequeueRelease(pos, item) => DequeueRelease(Word(pos), item)
  }

  function SlotImage<T>(slot: Slot<T>): Slot<T> {
    slot.(sequence := Word(slot.sequence))
  }

  function Image<T>(s: State<T>): Machine<T> {
    Machine(Word(s.enqueuePos), Word(s.dequeuePos),
      seq(|s.slots|, i requires 0 <= i < |s.slots| => SlotImage(s.slots[i])),
            map id | id in s.threads :: ThreadImage(s.threads[id]))
  }

  lemma ImageFacts<T>(s: State<T>, id: nat)
    requires Inv(s) && id in s.threads
    ensures s.Wellformed() && ThreadOk(s, s.threads[id])
    ensures var m := Image(s);
      && m.Wellformed() && |m.slots| == s.Capacity() && id in m.threads && m.threads[id] == ThreadImage(s.threads[id])
      && m.enqueuePos == Word(s.enqueuePos) && m.dequeuePos == Word(s.dequeuePos)
  {
    hide Word, ThreadImage;
  }

  lemma ImageOfClaim<T>(s: State<T>, e: nat, d: nat, items: seq<T>)
    ensures Image(s.(enqueuePos := e, dequeuePos := d, items := items)) == Image(s).(enqueuePos := Word(e),
      dequeuePos := Word(d))
  {
    hide Word, ThreadImage;
  }

  lemma ImageOfReceive<T>(s: State<T>, received: map<nat, T>)
    ensures Image(s.(received := received)) == Image(s)
  {
    hide Word, ThreadImage;
  }

  lemma ImageOfMove<T>(s: State<T>, id: nat, t: Thread<T>)
    ensures Image(s.Move(id, t)) == Image(s).Move(id, ThreadImage(t))
  {
  }

  predicate Fits(c: nat) {
    PowerOfTwo(c) && c <= TWO_TO_64
  }

  lemma ImageOfSlot<T>(s: State<T>, pos: nat)
    requires s.Wellformed() && Fits(s.Capacity())
    ensures Image(s).Wellformed() && Image(s).At(Word(pos)) == SlotImage(s.At(pos))
  {
    MaskedSlot(pos, s.Capacity());
  }

  lemma ImageOfSet<T>(s: State<T>, pos: nat, slot: Slot<T>)
    requires s.Wellformed() && Fits(s.Capacity())
    ensures Image(s).Wellformed() && Image(s.Set(pos, slot)) == Image(s).Set(Word(pos), SlotImage(slot))
  {
    MaskedSlot(pos, s.Capacity());
  }

  // a thread writes to its slot and goes on
  lemma SetSimulated<T>(s: State<T>, id: nat, pos: nat, slot: Slot<T>, t: Thread<T>) returns (s': State<T>)
    requires s.Wellformed() && Fits(s.Capacity())
    ensures s' == s.Set(pos, slot).Move(id, t) && Image(s).Wellformed()
      && Image(s).At(Word(pos)) == SlotImage(s.At(pos))
    ensures Image(s') == Image(s).Set(Word(pos), SlotImage(slot)).Move(id, ThreadImage(t))
  {
    hide Word, ThreadImage, SlotImage, Image;
    ImageOfSlot(s, pos);
    ImageOfSet(s, pos, slot);
    ImageOfMove(s.Set(pos, slot), id, t);
    s' := s.Set(pos, slot).Move(id, t);
  }

  // ---------------------------------------------------------------- words decide as positions do

  lemma WordPlus(n: nat, d: nat)
    ensures Word(Word(n) + d) == Word(n + d)
  {
    Rounds(n % TWO_TO_64 + d, n / TWO_TO_64);
  }

  lemma DiffIs(seqno: nat, pos: nat)
    requires -0x8000_0000_0000_0000 <= seqno - pos < 0x8000_0000_0000_0000
    ensures Diff(Word(seqno), Word(pos)) == seqno - pos
  {
    WrapOfWord(seqno);
    WrapOfWord(pos);
    var (a, b) := (WordsOff(seqno), WordsOff(pos));
    assert Wrap(Word(seqno)) - Wrap(Word(pos)) == (seqno - pos) + (b - a) * TWO_TO_64;
    Rounds(seqno - pos - INT64_MIN, b - a);
  }

  // how many times 2^64 the signed word is off
  function WordsOff(n: nat): int {
    n / TWO_TO_64 + if Word(n) > INT64_MAX then 1 else 0
  }

  lemma WrapOfWord(n: nat)
    ensures Wrap(Word(n)) == n - WordsOff(n) * TWO_TO_64
  {
    if Word(n) > INT64_MAX { WrapIsBelow(Word(n)); }
  }

  // A sequence is close to the position of the next ticket.
  lemma SequenceNear<T>(s: State<T>, pos: nat)
    requires Inv(s)
    ensures s.enqueuePos - s.Capacity() <= s.At(pos).sequence <= s.dequeuePos + s.Capacity()
  {
    var i := pos % s.Capacity();
    assert SlotOk(s, i);
  }

  // The thread holds a position that is too many tickets old.
  ghost predicate IsLate<T>(s: State<T>, t: Thread<T>) {
    match t
    case EnqueueLoad(_, pos) => s.enqueuePos - pos + s.Capacity() >= 0x8000_0000_0000_0000
    case EnqueueSwap(_, pos) => s.enqueuePos - pos + s.Capacity() >= 0x8000_0000_0000_0000
    case DequeueLoad(pos) => s.dequeuePos - pos + s.Capacity() >= 0x8000_0000_0000_0000
    case DequeueSwap(pos) => s.dequeuePos - pos + s.Capacity() >= 0x8000_0000_0000_0000
    case _ => false
  }

  ghost predicate SomeLate<T>(s: State<T>) {
    exists id {:trigger s.threads[id]} :: id in s.threads && IsLate(s, s.threads[id])
  }

  lemma EnqueueInWords<T>(s: State<T>, pos: nat)
    requires Inv(s) && pos <= s.enqueuePos && s.enqueuePos - pos + s.Capacity() < 0x8000_0000_0000_0000
    ensures Diff(Word(s.At(pos).sequence), Word(pos)) == s.At(pos).sequence - pos
    ensures Word(s.enqueuePos) == Word(pos) <==> s.enqueuePos == pos
  {
    SequenceNear(s, pos);
    DiffIs(s.At(pos).sequence, pos);
    WrapKeepsDistance(s.enqueuePos, pos);
  }

  lemma DequeueInWords<T>(s: State<T>, pos: nat)
    requires Inv(s) && pos <= s.dequeuePos && s.dequeuePos - pos + s.Capacity() < 0x8000_0000_0000_0000
    ensures Diff(Word(s.At(pos).sequence), Word(Word(pos) + 1)) == s.At(pos).sequence - (pos + 1)
    ensures Word(s.dequeuePos) == Word(pos) <==> s.dequeuePos == pos
  {
    SequenceNear(s, pos);
    DiffIs(s.At(pos).sequence, pos + 1);
    WordPlus(pos, 1);
    WrapKeepsDistance(s.dequeuePos, pos);
  }

  // ---------------------------------------------------------------- steps

  lemma EnqueueLoads<T>(s: State<T>, m': Machine<T>, id: nat, step: Step<T>) returns (s': State<T>)
    requires Inv(s) && Fits(s.Capacity()) && id in s.threads && !IsLate(s, s.threads[id]) && s.threads[id].EnqueueLoad?
    requires MachineEnqueue(Image(s), m', id, step)
    ensures EnqueueNext(s, s', id, step) && m' == Image(s')
  {
    hide Word, Diff, And, Inv, Fits, Image;
    ImageFacts(s, id);
    var (item, pos) := (s.threads[id].item, s.threads[id].pos);
    EnqueueInWords(s, pos);
    ImageOfSlot(s, pos);
    var seqno := s.At(pos).sequence;
    var t := if seqno == pos then EnqueueSwap(item, pos) else if seqno < pos then Idle else EnqueueReload(item);
    ImageOfMove(s, id, t);
    s' := s.Move(id, t);
  }

  lemma EnqueueSwaps<T>(s: State<T>, m': Machine<T>, id: nat, step: Step<T>) returns (s': State<T>)
    requires Inv(s) && Fits(s.Capacity()) && id in s.threads && !IsLate(s, s.threads[id]) && s.threads[id].EnqueueSwap?
    requires MachineEnqueue(Image(s), m', id, step)
    ensures EnqueueNext(s, s', id, step) && m' == Image(s')
  {
    hide Word, Diff, And, Inv, Fits, Image;
    ImageFacts(s, id);
    var (item, pos) := (s.threads[id].item, s.threads[id].pos);
    if step.SwapFails? {
      ImageOfMove(s, id, EnqueueLoad(item, s.enqueuePos));
      s' := s.Move(id, EnqueueLoad(item, s.enqueuePos));
    } else {
      EnqueueInWords(s, pos);
      WordPlus(pos, 1);
      ImageOfMove(s, id, EnqueueWrite(item, pos));
      s' := s.Move(id, EnqueueWrite(item, pos)).(enqueuePos := pos + 1, items := s.items + [item]);
      ImageOfClaim(s.Move(id, EnqueueWrite(item, pos)), pos + 1, s.dequeuePos, s'.items);
    }
  }

  lemma EnqueueSimulated<T>(s: State<T>, m': Machine<T>, id: nat, step: Step<T>) returns (s': State<T>)
    requires Inv(s) && Fits(s.Capacity()) && id in s.threads && !IsLate(s, s.threads[id])
    requires MachineEnqueue(Image(s), m', id, step)
    ensures EnqueueNext(s, s', id, step) && m' == Image(s')
  {
    hide Word, Diff, And, Inv, Fits, Image;
    ImageFacts(s, id);
    match s.threads[id]
    case EnqueueLoad(item, pos) =>
      s' := EnqueueLoads(s, m', id, step);
    case EnqueueReload(item) =>
      ImageOfMove(s, id, EnqueueLoad(item, s.enqueuePos));
      s' := s.Move(id, EnqueueLoad(item, s.enqueuePos));
    case EnqueueSwap(item, pos) =>
      s' := EnqueueSwaps(s, m', id, step);
    case EnqueueWrite(item, pos) =>
      s' := SetSimulated(s, id, pos, s.At(pos).(data := item), EnqueuePublish(pos));
    case EnqueuePublish(pos) =>
      WordPlus(pos, 1);
      s' := SetSimulated(s, id, pos, s.At(pos).(sequence := pos + 1), Idle);
  }

  lemma DequeueLoads<T>(s: State<T>, m': Machine<T>, id: nat, step: Step<T>) returns (s': State<T>)
    requires Inv(s) && Fits(s.Capacity()) && id in s.threads && !IsLate(s, s.threads[id]) && s.threads[id].DequeueLoad?
    requires MachineDequeue(Image(s), m', id, step)
    ensures DequeueNext(s, s', id, step) && m' == Image(s')
  {
    hide Word, Diff, And, Inv, Fits, Image;
    ImageFacts(s, id);
    var pos := s.threads[id].pos;
    DequeueInWords(s, pos);
    WordPlus(pos, 1);
    ImageOfSlot(s, pos);
    var seqno := s.At(pos).sequence;
    var t := if seqno == pos + 1 then DequeueSwap(pos) else if seqno < pos + 1 then Idle else DequeueReload;
    ImageOfMove(s, id, t);
    s' := s.Move(id, t);
  }

  lemma DequeueSwaps<T>(s: State<T>, m': Machine<T>, id: nat, step: Step<T>) returns (s': State<T>)
    requires Inv(s) && Fits(s.Capacity()) && id in s.threads && !IsLate(s, s.threads[id]) && s.threads[id].DequeueSwap?
    requires MachineDequeue(Image(s), m', id, step)
    ensures DequeueNext(s, s', id, step) && m' == Image(s')
  {
    hide Word, Diff, And, Inv, Fits, Image;
    ImageFacts(s, id);
    var pos := s.threads[id].pos;
    if step.SwapFails? {
      ImageOfMove(s, id, DequeueLoad(s.dequeuePos));
      s' := s.Move(id, DequeueLoad(s.dequeuePos));
    } else {
      DequeueInWords(s, pos);
      WordPlus(pos, 1);
      ImageOfMove(s, id, DequeueRead(pos));
      s' := s.Move(id, DequeueRead(pos)).(dequeuePos := pos + 1);
      ImageOfClaim(s.Move(id, DequeueRead(pos)), s.enqueuePos, pos + 1, s.items);
    }
  }

  lemma DequeueSimulated<T>(s: State<T>, m': Machine<T>, id: nat, step: Step<T>) returns (s': State<T>)
    requires Inv(s) && Fits(s.Capacity()) && id in s.threads && !IsLate(s, s.threads[id])
    requires MachineDequeue(Image(s), m', id, step)
    ensures DequeueNext(s, s', id, step) && m' == Image(s')
  {
    hide Word, Diff, And, Inv, Fits, Image;
    ImageFacts(s, id);
    match s.threads[id]
    case DequeueLoad(pos) =>
      s' := DequeueLoads(s, m', id, step);
    case DequeueReload =>
      ImageOfMove(s, id, DequeueLoad(s.dequeuePos));
      s' := s.Move(id, DequeueLoad(s.dequeuePos));
    case DequeueSwap(pos) =>
      s' := DequeueSwaps(s, m', id, step);
    case DequeueRead(pos) =>
      ImageOfSlot(s, pos);
      ImageOfMove(s, id, DequeueRelease(pos, s.At(pos).data));
      s' := s.Move(id, DequeueRelease(pos, s.At(pos).data)).(received := s.received[pos := s.At(pos).data]);
      ImageOfReceive(s.Move(id, DequeueRelease(pos, s.At(pos).data)), s'.received);
    case DequeueRelease(pos, _) =>
      WordPlus(pos, s.Capacity());
      s' := SetSimulated(s, id, pos, s.At(pos).(sequence := pos + s.Capacity()), Idle);
  }

  // Every step of the machine from the image of a state in which nobody is late is a step of the
  // queue with unbounded positions.
  lemma StepSimulated<T(!new)>(s: State<T>, m': Machine<T>) returns (s': State<T>)
    requires Inv(s) && Fits(s.Capacity()) && !SomeLate(s) && MachineNext(Image(s), m')
    ensures Next(s, s') && m' == Image(s')
  {
    hide Inv, Fits, MachineEnqueue, MachineDequeue, EnqueueNext, DequeueNext, IsLate;
    var id, step :| MachineStep(Image(s), m', id, step);
    assert id in s.threads;
    ImageFacts(s, id);
    assert !IsLate(s, s.threads[id]);
    match step
    case BeginEnqueue(item) =>
      s' := s.Move(id, EnqueueLoad(item, s.enqueuePos));
      assert NextStep(s, s', id, step);
    case BeginDequeue =>
      s' := s.Move(id, DequeueLoad(s.dequeuePos));
      assert NextStep(s, s', id, step);
    case _ =>
      if MachineEnqueue(Image(s), m', id, step) {
        s' := EnqueueSimulated(s, m', id, step);
      } else {
        s' := DequeueSimulated(s, m', id, step);
      }
      assert NextStep(s, s', id, step);
  }

  // ---------------------------------------------------------------- runs

  // The states of the run with unbounded positions, as far as nobody is late.
  ghost predicate Follows<T>(run: seq<State<T>>, machine: seq<Machine<T>>) {
    && 0 < |run| <= |machine|
    && (forall i :: 0 <= i < |run| ==> machine[i] == Image(run[i]))
    && (forall i :: 0 <= i < |run| - 1 ==> !SomeLate(run[i]))
    && (|run| == |machine| || SomeLate(run[|run| - 1]))
  }

  lemma StartSimulated<T>(m: Machine<T>) returns (s: State<T>)
    requires MachineInit(m) && |m.slots| <= TWO_TO_64
    ensures Init(s) && m == Image(s) && s.Capacity() == |m.slots|
  {
    s := State(0, 0, m.slots, m.threads, [], map[]);
    forall i | 0 <= i < |m.slots| ensures Word(i) == i {}
    assert forall id :: id in m.threads ==> m.threads[id] == Idle;
  }

  lemma RunExtended<T(!new)>(run: seq<State<T>>, machine: seq<Machine<T>>, n: nat, s: State<T>)
    requires |run| == n == |machine| - 1 && IsRun(run) && Follows(run, machine[..n]) && !SomeLate(run[n - 1])
    requires Next(run[n - 1], s) && machine[n] == Image(s)
    ensures IsRun(run + [s]) && Follows(run + [s], machine)
  {
    hide Image, Next, SomeLate, Init;
    var run' := run + [s];
    forall i | 0 <= i < n
      ensures Next(run'[i], run'[i + 1])
    {
      if i < n - 1 { assert Next(run[i], run[i + 1]); }
    }
  }

  // Every run of the machine is, seen through the words, a run with unbounded positions, to its
  // end or to the first state in which some thread is late.
  lemma {:induction false} MachineRefines<T(!new)>(machine: seq<Machine<T>>) returns (run: seq<State<T>>)
    requires IsMachineRun(machine) && Fits(|machine[0].slots|) && |machine[0].slots| >= 2
    ensures IsRun(run) && Follows(run, machine) && run[0].Capacity() == |machine[0].slots|
    decreases |machine|
  {
    hide Image, MachineNext, Next, SomeLate, MachineInit, Init, IsRun, PowerOfTwo;
    var n := |machine| - 1;
    if n == 0 {
      run := FirstSimulated(machine[0]);
      assert machine == [machine[0]];
    } else {
      run := MachineRefines(machine[..n]);
      if |run| == n && !SomeLate(run[n - 1]) {
        InvHolds(run, n - 1);
        SameCapacity(run, n - 1);
        assert MachineNext(machine[n - 1], machine[n - 1 + 1]);
        var s := StepSimulated(run[n - 1], machine[n]);
        RunExtended(run, machine, n, s);
        run := run + [s];
      }
    }
  }

  lemma FirstSimulated<T(!new)>(m: Machine<T>) returns (run: seq<State<T>>)
    requires MachineInit(m) && |m.slots| <= TWO_TO_64
    ensures IsRun(run) && Follows(run, [m]) && run[0].Capacity() == |m.slots|
  {
    var s := StartSimulated(m);
    run := [s];
  }

  // ---------------------------------------------------------------- the other way round

  lemma EnqueueLoadImage<T>(s: State<T>, s': State<T>, id: nat, step: Step<T>)
    requires Inv(s) && Fits(s.Capacity()) && id in s.threads && !IsLate(s, s.threads[id]) && s.threads[id].EnqueueLoad?
    requires EnqueueNext(s, s', id, step)
    ensures Image(s).Wellformed() && id in Image(s).threads && MachineEnqueue(Image(s), Image(s'), id, step)
  {
    hide Word, Diff, And, Inv, Fits, Image;
    ImageFacts(s, id);
    var pos := s.threads[id].pos;
    EnqueueInWords(s, pos);
    ImageOfSlot(s, pos);
    ImageOfMove(s, id, s'.threads[id]);
    assert s' == s.Move(id, s'.threads[id]);
  }

  lemma DequeueLoadImage<T>(s: State<T>, s': State<T>, id: nat, step: Step<T>)
    requires Inv(s) && Fits(s.Capacity()) && id in s.threads && !IsLate(s, s.threads[id]) && s.threads[id].DequeueLoad?
    requires DequeueNext(s, s', id, step)
    ensures Image(s).Wellformed() && id in Image(s).threads && MachineDequeue(Image(s), Image(s'), id, step)
  {
    hide Word, Diff, And, Inv, Fits, Image;
    ImageFacts(s, id);
    var pos := s.threads[id].pos;
    DequeueInWords(s, pos);
    WordPlus(pos, 1);
    ImageOfSlot(s, pos);
    ImageOfMove(s, id, s'.threads[id]);
    assert s' == s.Move(id, s'.threads[id]);
  }

  lemma EnqueueImage<T>(s: State<T>, s': State<T>, id: nat, step: Step<T>)
    requires Inv(s) && Fits(s.Capacity()) && id in s.threads && !IsLate(s, s.threads[id])
    requires EnqueueNext(s, s', id, step)
    ensures Image(s).Wellformed() && id in Image(s).threads && MachineEnqueue(Image(s), Image(s'), id, step)
  {
    hide Word, Diff, And, Inv, Fits, Image;
    ImageFacts(s, id);
    match s.threads[id]
    case EnqueueLoad(_, _) => EnqueueLoadImage(s, s', id, step);
    case EnqueueReload(item) => ImageOfMove(s, id, EnqueueLoad(item, s.enqueuePos));
    case EnqueueSwap(item, pos) =>
      if step.SwapFails? {
        ImageOfMove(s, id, EnqueueLoad(item, s.enqueuePos));
      } else {
        WordPlus(pos, 1);
        ImageOfMove(s, id, EnqueueWrite(item, pos));
        ImageOfClaim(s.Move(id, EnqueueWrite(item, pos)), pos + 1, s.dequeuePos, s'.items);
      }
    case EnqueueWrite(item, pos) =>
      var t := SetSimulated(s, id, pos, s.At(pos).(data := item), EnqueuePublish(pos));
    case EnqueuePublish(pos) =>
      WordPlus(pos, 1);
      var t := SetSimulated(s, id, pos, s.At(pos).(sequence := pos + 1), Idle);
  }

  lemma DequeueImage<T>(s: State<T>, s': State<T>, id: nat, step: Step<T>)
    requires Inv(s) && Fits(s.Capacity()) && id in s.threads && !IsLate(s, s.threads[id])
    requires DequeueNext(s, s', id, step)
    ensures Image(s).Wellformed() && id in Image(s).threads && MachineDequeue(Image(s), Image(s'), id, step)
  {
    hide Word, Diff, And, Inv, Fits, Image;
    ImageFacts(s, id);
    match s.threads[id]
    case DequeueLoad(_) => DequeueLoadImage(s, s', id, step);
    case DequeueReload => ImageOfMove(s, id, DequeueLoad(s.dequeuePos));
    case DequeueSwap(pos) =>
      if step.SwapFails? {
        ImageOfMove(s, id, DequeueLoad(s.dequeuePos));
      } else {
        WordPlus(pos, 1);
        ImageOfMove(s, id, DequeueRead(pos));
        ImageOfClaim(s.Move(id, DequeueRead(pos)), s.enqueuePos, pos + 1, s.items);
      }
    case DequeueRead(pos) =>
      ImageOfSlot(s, pos);
      ImageOfMove(s, id, DequeueRelease(pos, s.At(pos).data));
      ImageOfReceive(s.Move(id, DequeueRelease(pos, s.At(pos).data)), s'.received);
    case DequeueRelease(pos, _) =>
      WordPlus(pos, s.Capacity());
      var t := SetSimulated(s, id, pos, s.At(pos).(sequence := pos + s.Capacity()), Idle);
  }

  // Every step of the queue with unbounded positions, from a state in which nobody is late, is a
  // step of the machine.
  lemma StepImage<T(!new)>(s: State<T>, s': State<T>)
    requires Inv(s) && Fits(s.Capacity()) && !SomeLate(s) && Next(s, s')
    ensures MachineNext(Image(s), Image(s'))
  {
    hide Inv, Fits, MachineEnqueue, MachineDequeue, EnqueueNext, DequeueNext, IsLate;
    var id, step :| NextStep(s, s', id, step);
    ImageFacts(s, id);
    assert !IsLate(s, s.threads[id]);
    match step
    case BeginEnqueue(item) =>
      ImageOfMove(s, id, EnqueueLoad(item, s.enqueuePos));
      assert MachineStep(Image(s), Image(s'), id, step);
    case BeginDequeue =>
      ImageOfMove(s, id, DequeueLoad(s.dequeuePos));
      assert MachineStep(Image(s), Image(s'), id, step);
    case _ =>
      if EnqueueNext(s, s', id, step) { EnqueueImage(s, s', id, step); } else { DequeueImage(s, s', id, step); }
      assert MachineStep(Image(s), Image(s'), id, step);
  }

  ghost function Images<T>(run: seq<State<T>>): seq<Machine<T>> {
    seq(|run|, i requires 0 <= i < |run| => Image(run[i]))
  }

  // A run with unbounded positions in which nobody is late before its end is, seen through the
  // words, a run of the machine.
  lemma RunImage<T(!new)>(run: seq<State<T>>)
    requires IsRun(run) && run[0].Capacity() >= 2 && Fits(run[0].Capacity())
    requires forall i :: 0 <= i < |run| - 1 ==> !SomeLate(run[i])
    ensures IsMachineRun(Images(run))
  {
    assert MachineInit(Image(run[0])) by { InitImage(run[0]); }
    hide Image, MachineNext, MachineInit, Next, SomeLate, Fits, Inv, Init;
    forall i | 0 <= i < |run| - 1
      ensures MachineNext(Images(run)[i], Images(run)[i + 1])
    {
      InvHolds(run, i);
      SameCapacity(run, i);
      assert Next(run[i], run[i + 1]);
      StepImage(run[i], run[i + 1]);
    }
  }

  lemma InitImage<T>(s: State<T>)
    requires Init(s)
    ensures MachineInit(Image(s))
  {
  }

  // As long as nobody is late, the machine lets no two threads use the data of one slot.
  lemma MachineOneInSlot<T(!new)>(machine: seq<Machine<T>>, run: seq<State<T>>, n: nat, a: nat, b: nat)
    requires IsRun(run) && Follows(run, machine) && run[0].Capacity() >= 2 && Fits(run[0].Capacity()) && n < |run|
    requires a in machine[n].threads && b in machine[n].threads && a != b
    requires InSlot(machine[n].threads[a]) && InSlot(machine[n].threads[b])
    ensures var m := machine[n];
      m.Wellformed() && And(m.threads[a].pos, |m.slots| - 1) != And(m.threads[b].pos, |m.slots| - 1)
  {
    var s := run[n];
    InvHolds(run, n);
    SameCapacity(run, n);
    hide Inv, And, Word, IsRun;
    OneInSlot(s, a, b);
    MaskedSlot(s.threads[a].pos, s.Capacity());
    MaskedSlot(s.threads[b].pos, s.Capacity());
  }

  // Thread id begins a call in state i of the machine and is back in state j.
  ghost predicate MachineCall<T>(machine: seq<Machine<T>>, id: nat, i: nat, j: nat) {
    && i + 1 < j < |machine| && (forall k :: i <= k <= j ==> id in machine[k].threads)
    && machine[i].threads[id] == Idle && machine[j].threads[id] == Idle
    && forall k :: i < k < j ==> machine[k].threads[id] != Idle
  }

  lemma SameCall<T>(machine: seq<Machine<T>>, run: seq<State<T>>, id: nat, i: nat, j: nat)
    requires Follows(run, machine) && j < |run| && MachineCall(machine, id, i, j)
    ensures Call(run, id, i, j) && forall k :: i <= k <= j ==> machine[k].threads[id] == ThreadImage(run[k].threads[id])
  {
    forall k | i <= k <= j
      ensures id in run[k].threads && machine[k].threads[id] == ThreadImage(run[k].threads[id])
    {
      assert machine[k] == Image(run[k]);
    }
  }

  // As long as nobody is late, the calls on the machine deliver what those on the queue do: dequeue
  // returns an item enqueued, or has found the queue empty.
  lemma MachineDequeueDelivers<T(!new)>(machine: seq<Machine<T>>, run: seq<State<T>>, id: nat, i: nat, j: nat)
    requires GoodRun(run) && Follows(run, machine) && j < |run|
    requires MachineCall(machine, id, i, j) && machine[i + 1].threads[id].DequeueLoad?
    ensures match machine[j - 1].threads[id]
            case DequeueRelease(w, item) =>
              exists p :: 0 <= p < |run[j].items| && w == Word(p) && item == run[j].items[p]
            case DequeueLoad(_) => Empty(run[j - 1])
            case _ => false
  {
    hide Word, IsRun, Follows, Empty;
    SameCall(machine, run, id, i, j);
    DequeueDelivers(run, id, i, j);
  }

  // ... and enqueue puts its item into the queue, or has found it full.
  lemma MachineEnqueueDelivers<T(!new)>(machine: seq<Machine<T>>, run: seq<State<T>>, id: nat, i: nat, j: nat, x: T)
    requires GoodRun(run) && Follows(run, machine) && j < |run|
    requires MachineCall(machine, id, i, j)
    requires machine[i + 1].threads[id].EnqueueLoad? && machine[i + 1].threads[id].item == x
    ensures Enqueued(run[j], x, run[i].enqueuePos) || (machine[j - 1].threads[id].EnqueueLoad? && Full(run[j - 1]))
  {
    hide Word, IsRun, Follows, Full, Enqueued;
    SameCall(machine, run, id, i, j);
    EnqueueDelivers(run, id, i, j, x);
  }

  // Being late is what it takes: a thread 2^64 tickets late passes its compare-and-swap.
  lemma LateThread(pos: nat)
    ensures Word(pos + TWO_TO_64) == Word(pos)
  {
    RoundLater(pos, TWO_TO_64);
  }
}
