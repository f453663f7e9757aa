/**
  The bounded queue of utils/mpmc.hpp as a transition system: any number of threads enqueue and
  dequeue, each step is one atomic load, store or compare-and-swap or one access to a slot's data,
  steps interleave in every way under sequential consistency. Positions are unbounded here and a
  slot is a position modulo the capacity; MpmcWords has the 64-bit words of the source.
*/
module MpmcQueue {
  import opened RingIndex

  datatype Slot<T> = Slot(sequence: nat, data: T)

  // Where a thread is, with its local variables; it stands before the step described.
  datatype Thread<T> =
    | Idle
    | EnqueueLoad(item: T, pos: nat)       // loads the slot's sequence
    | EnqueueReload(item: T)               // loads enqueue_pos again
    | EnqueueSwap(item: T, pos: nat)       // compare-and-swap of enqueue_pos
    | EnqueueWrite(item: T, pos: nat)      // writes the data of its slot
    | EnqueuePublish(pos: nat)             // stores sequence pos + 1
    | DequeueLoad(pos: nat)
    | DequeueReload
    | DequeueSwap(pos: nat)
    | DequeueRead(pos: nat)
    | DequeueRelease(pos: nat, item: T)    // stores sequence pos + Capacity, returns item

  datatype State<T> = State(
    enqueuePos: nat,
    dequeuePos: nat,
    slots: seq<Slot<T>>,
    threads: map<nat, Thread<T>>,
    items: seq<T>,            // the item of every ticket claimed by an enqueuer, by ticket
    received: map<nat, T>)    // what the dequeuer of a ticket has read
  {
    predicate Wellformed() { slots != [] }

    function Capacity(): nat { |slots| }

    function At(pos: nat): Slot<T>
      requires Wellformed()
    {
      slots[pos % |slots|]
    }

    function Set(pos: nat, slot: Slot<T>): State<T>
      requires Wellformed()
    {
      this.(slots := slots[pos % |slots| := slot])
    }

    function Move(id: nat, thread: Thread<T>): State<T> {
      this.(threads := threads[id := thread])
    }
  }

  ghost predicate Init<T>(s: State<T>) {
    && s.Wellformed() && s.enqueuePos == s.dequeuePos == 0
    && (forall i :: 0 <= i < |s.slots| ==> s.slots[i].sequence == i)
    && (forall id :: id in s.threads ==> s.threads[id] == Idle)
    && s.items == [] && s.received == map[]
  }

  // A weak compare-and-swap may fail although the value is the expected one.
  datatype Step<T> = BeginEnqueue(item: T) | BeginDequeue | Continue | SwapFails

  ghost predicate EnqueueNext<T>(s: State<T>, s': State<T>, id: nat, step: Step<T>)
    requires s.Wellformed() && id in s.threads
  {
    match s.threads[id]
    case EnqueueLoad(item, pos) =>
      && step.Continue?
      && var seqno := s.At(pos).sequence;
         s' == s.Move(id, if seqno == pos then EnqueueSwap(item, pos) else if seqno < pos then Idle
           else EnqueueReload(item))
    case EnqueueReload(item) => step.Continue? && s' == s.Move(id, EnqueueLoad(item, s.enqueuePos))
    case EnqueueSwap(item, pos) =>
      if step.SwapFails? then s' == s.Move(id, EnqueueLoad(item, s.enqueuePos)) else
        && step.Continue? && s.enqueuePos == pos
        && s' == s.Move(id, EnqueueWrite(item, pos)).(enqueuePos := pos + 1, items := s.items + [item])
    case EnqueueWrite(item, pos) =>
      step.Continue? && s' == s.Set(pos, s.At(pos).(data := item)).Move(id, EnqueuePublish(pos))
    case EnqueuePublish(pos) =>
      step.Continue? && s' == s.Set(pos, s.At(pos).(sequence := pos + 1)).Move(id, Idle)
    case _ => false
  }

  ghost predicate DequeueNext<T>(s: State<T>, s': State<T>, id: nat, step: Step<T>)
    requires s.Wellformed() && id in s.threads
  {
    match s.threads[id]
    case DequeueLoad(pos) =>
      && step.Continue?
      && var seqno := s.At(pos).sequence;
         s' == s.Move(id, if seqno == pos + 1 then DequeueSwap(pos) else if seqno < pos + 1 then Idle
           else DequeueReload)
    case DequeueReload => step.Continue? && s' == s.Move(id, DequeueLoad(s.dequeuePos))
    case DequeueSwap(pos) =>
      if step.SwapFails? then s' == s.Move(id, DequeueLoad(s.dequeuePos)) else
        && step.Continue? && s.dequeuePos == pos
        && s' == s.Move(id, DequeueRead(pos)).(dequeuePos := pos + 1)
    case DequeueRead(pos) =>
      && step.Continue?
      && s' == s.Move(id, DequeueRelease(pos, s.At(pos).data)).(received := s.received[pos := s.At(pos).data])
    case DequeueRelease(pos, _) =>
      step.Continue? && s' == s.Set(pos, s.At(pos).(sequence := pos + s.Capacity())).Move(id, Idle)
    case _ => false
  }

  ghost predicate NextStep<T>(s: State<T>, s': State<T>, id: nat, step: Step<T>)
    requires s.Wellformed()
  {
    && id in s.threads
    && match step
       case BeginEnqueue(item) => s.threads[id] == Idle && s' == s.Move(id, EnqueueLoad(item, s.enqueuePos))
       case BeginDequeue => s.threads[id] == Idle && s' == s.Move(id, DequeueLoad(s.dequeuePos))
       case _ => EnqueueNext(s, s', id, step) || DequeueNext(s, s', id, step)
  }

  ghost predicate Next<T(!new)>(s: State<T>, s': State<T>) {
    s.Wellformed() && exists id, step :: NextStep(s, s', id, step)
  }

  // ---------------------------------------------------------------- invariant

  // Slot i waits for the enqueuer or the dequeuer of one ticket, all earlier tickets of the slot
  // being done with. Its sequence is the ticket while it is empty and one more when it is full.
  ghost predicate SlotOk<T>(s: State<T>, i: nat)
    requires s.Wellformed() && i < |s.slots|
  {
    var (c, q) := (s.Capacity(), s.slots[i].sequence);
    if q % c == i then
      s.dequeuePos <= q && s.enqueuePos <= q + c && q < s.dequeuePos + c
    else
      && q > 0 && (q - 1) % c == i
      && q - 1 < s.enqueuePos <= q - 1 + c && q - 1 < s.dequeuePos + c
      && q - 1 < |s.items| && s.slots[i].data == s.items[q - 1]
  }

  ghost predicate ThreadOk<T>(s: State<T>, thread: Thread<T>)
    requires s.Wellformed()
  {
    match thread
    case Idle => true
    case EnqueueLoad(_, pos) => pos <= s.enqueuePos
    case EnqueueReload(_) => true
    case EnqueueSwap(_, pos) => pos <= s.enqueuePos && (s.enqueuePos == pos ==> s.At(pos).sequence == pos)
    case EnqueueWrite(item, pos) => pos < |s.items| && s.At(pos).sequence == pos && s.items[pos] == item
    case EnqueuePublish(pos) => pos < |s.items| && s.At(pos) == Slot(pos, s.items[pos])
    case DequeueLoad(pos) => pos <= s.dequeuePos
    case DequeueReload => true
    case DequeueSwap(pos) => pos <= s.dequeuePos && (s.dequeuePos == pos ==> s.At(pos).sequence == pos + 1)
    case DequeueRead(pos) => pos < s.dequeuePos && s.At(pos).sequence == pos + 1
    case DequeueRelease(pos, item) =>
      pos < s.dequeuePos && pos < |s.items| && s.At(pos).sequence == pos + 1 && item == s.items[pos]
  }

  // the thread has claimed ticket p for its enqueue
  predicate Fills<T>(thread: Thread<T>, p: nat) {
    (thread.EnqueueWrite? || thread.EnqueuePublish?) && thread.pos == p
  }

  // ... for its dequeue
  predicate Drains<T>(thread: Thread<T>, p: nat) {
    (thread.DequeueRead? || thread.DequeueRelease?) && thread.pos == p
  }

  // No ticket has two enqueuers or two dequeuers.
  ghost predicate Exclusive<T>(s: State<T>) {
    forall a, b, p {:trigger Fills(s.threads[a], p), Fills(s.threads[b], p)}
      {:trigger Drains(s.threads[a], p), Drains(s.threads[b], p)} ::
      a in s.threads && b in s.threads && a != b ==>
        && !(Fills(s.threads[a], p) && Fills(s.threads[b], p))
        && !(Drains(s.threads[a], p) && Drains(s.threads[b], p))
  }

  // Every ticket claimed by a dequeuer has been read, or is about to be.
  ghost predicate Awaited<T>(s: State<T>, p: nat) {
    p in s.received || exists id {:trigger s.threads[id]} :: id in s.threads && s.threads[id] == DequeueRead(p)
  }

  ghost predicate Inv<T>(s: State<T>) {
    && s.Capacity() >= 2
    && |s.items| == s.enqueuePos && s.dequeuePos <= s.enqueuePos
    && (forall i {:trigger SlotOk(s, i)} :: 0 <= i < |s.slots| ==> SlotOk(s, i))
    && (forall id {:trigger ThreadOk(s, s.threads[id])} :: id in s.threads ==> ThreadOk(s, s.threads[id]))
    && Exclusive(s)
    && (forall p {:trigger s.received[p]} :: p in s.received ==> p < s.dequeuePos && s.received[p] == s.items[p])
    && (forall p: nat {:trigger Awaited(s, p)} :: p < s.dequeuePos ==> Awaited(s, p))
  }

  // ---------------------------------------------------------------- arithmetic of positions

  lemma NextSlot(p: nat, c: nat)
    requires c >= 2
    ensures (p + 1) % c != p % c && (p + c) % c == p % c
  {
    DifferentCells(p, p + 1, c);
    RoundLater(p, c);
  }

  // ---------------------------------------------------------------- what one thread's move leaves alone

  // A thread keeps its claim, or makes one nobody else has.
  lemma ExclusiveMove<T>(s: State<T>, s': State<T>, id: nat)
    requires Exclusive(s) && id in s.threads && id in s'.threads && s'.threads == s.threads[id := s'.threads[id]]
    requires forall p {:trigger Fills(s'.threads[id], p)} :: Fills(s'.threads[id], p) ==>
      Fills(s.threads[id], p) || forall a {:trigger s.threads[a]} :: a in s.threads ==> !Fills(s.threads[a], p)
    requires forall p {:trigger Drains(s'.threads[id], p)} :: Drains(s'.threads[id], p) ==>
      Drains(s.threads[id], p) || forall a {:trigger s.threads[a]} :: a in s.threads ==> !Drains(s.threads[a], p)
    ensures Exclusive(s')
  {
    forall a, b, p | a in s'.threads && b in s'.threads && a != b
      ensures !(Fills(s'.threads[a], p) && Fills(s'.threads[b], p))
      ensures !(Drains(s'.threads[a], p) && Drains(s'.threads[b], p))
    {
      var (x, y) := (s.threads[a], s.threads[b]);
      assert !(Fills(x, p) && Fills(y, p)) && !(Drains(x, p) && Drains(y, p));
      assert Fills(x, p) || !Fills(x, p);
    }
  }

  lemma AwaitedKept<T>(s: State<T>, s': State<T>, id: nat, p: nat)
    requires Awaited(s, p) && id in s.threads && s.threads[id] != DequeueRead(p)
    requires id in s'.threads && s'.threads == s.threads[id := s'.threads[id]]
    requires s.received.Keys <= s'.received.Keys
    ensures Awaited(s', p)
  {
    if p !in s.received {
      var a :| a in s.threads && s.threads[a] == DequeueRead(p);
      assert a in s'.threads && s'.threads[a] == DequeueRead(p);
    }
  }

  // A step that moves one thread and makes no claim.
  lemma QuietStep<T>(s: State<T>, s': State<T>, id: nat, t: Thread<T>)
    requires Inv(s) && id in s.threads && s' == s.Move(id, t) && ThreadOk(s, t)
    requires !(t.EnqueueWrite? || t.EnqueuePublish? || t.DequeueRead? || t.DequeueRelease?)
    requires !s.threads[id].DequeueRead?
    ensures Inv(s')
  {
    forall i | 0 <= i < |s'.slots| ensures SlotOk(s', i) { assert SlotOk(s, i); }
    forall a | a in s'.threads
      ensures ThreadOk(s', s'.threads[a])
    {
      assert a != id ==> ThreadOk(s, s.threads[a]);
    }
    ExclusiveMove(s, s', id);
    forall p: nat | p < s'.dequeuePos ensures Awaited(s', p) { AwaitedKept(s, s', id, p); }
  }

  // ---------------------------------------------------------------- claiming a ticket

  // The next ticket's slot is empty, so its enqueuer may write; every other slot still has room.
  lemma ClaimSlot<T>(s: State<T>, s': State<T>, id: nat, i: nat)
    requires Inv(s) && id in s.threads && s.threads[id].EnqueueSwap? && s.threads[id].pos == s.enqueuePos
    requires s' == s.Move(id, EnqueueWrite(s.threads[id].item, s.enqueuePos)).(
                     enqueuePos := s.enqueuePos + 1, items := s.items + [s.threads[id].item])
    requires i < |s.slots|
    ensures SlotOk(s', i)
  {
    var (c, pos, q) := (s.Capacity(), s.enqueuePos, s.slots[i].sequence);
    assert SlotOk(s, i) && ThreadOk(s, s.threads[id]);
    var ticket := if q % c == i then q else q - 1;
    if pos == ticket + c {
      NextSlot(ticket, c);
    }
  }

  lemma EnqueueClaims<T>(s: State<T>, s': State<T>, id: nat)
    requires Inv(s) && id in s.threads && s.threads[id].EnqueueSwap? && s.threads[id].pos == s.enqueuePos
    requires s' == s.Move(id, EnqueueWrite(s.threads[id].item, s.enqueuePos)).(
                     enqueuePos := s.enqueuePos + 1, items := s.items + [s.threads[id].item])
    ensures Inv(s')
  {
    forall i | 0 <= i < |s'.slots| ensures SlotOk(s', i) { ClaimSlot(s, s', id, i); }
    assert ThreadOk(s, s.threads[id]);
    forall a | a in s'.threads
      ensures ThreadOk(s', s'.threads[a])
    {
      assert a != id ==> ThreadOk(s, s.threads[a]);
    }
    forall a, p | a in s.threads && Fills(s.threads[a], p)
      ensures p != s.enqueuePos
    {
      assert ThreadOk(s, s.threads[a]);
    }
    ExclusiveMove(s, s', id);
    forall p: nat | p < s'.dequeuePos ensures Awaited(s', p) { AwaitedKept(s, s', id, p); }
  }

  lemma DequeueClaims<T>(s: State<T>, s': State<T>, id: nat)
    requires Inv(s) && id in s.threads && s.threads[id].DequeueSwap? && s.threads[id].pos == s.dequeuePos
    requires s' == s.Move(id, DequeueRead(s.dequeuePos)).(dequeuePos := s.dequeuePos + 1)
    ensures Inv(s')
  {
    var (c, pos) := (s.Capacity(), s.dequeuePos);
    assert ThreadOk(s, s.threads[id]) && SlotOk(s, pos % c);
    NextSlot(pos, c);
    forall i | 0 <= i < |s'.slots|
      ensures SlotOk(s', i)
    {
      assert SlotOk(s, i);
    }
    forall a | a in s'.threads
      ensures ThreadOk(s', s'.threads[a])
    {
      assert a != id ==> ThreadOk(s, s.threads[a]);
    }
    forall a, p | a in s.threads && Drains(s.threads[a], p)
      ensures p != s.dequeuePos
    {
      assert ThreadOk(s, s.threads[a]);
    }
    ExclusiveMove(s, s', id);
    forall p: nat | p < s'.dequeuePos
      ensures Awaited(s', p)
    {
      if p == pos { assert s'.threads[id] == DequeueRead(p); } else { AwaitedKept(s, s', id, p); }
    }
  }

  // ---------------------------------------------------------------- writing to a claimed slot

  // A slot that thread id has claimed changes; it was in use for ticket pos. No other thread
  // relies on it.
  lemma OtherThread<T>(s: State<T>, s': State<T>, id: nat, a: nat, pos: nat)
    requires Inv(s) && id in s.threads && a in s.threads && a != id
    requires Fills(s.threads[id], pos) || Drains(s.threads[id], pos)
    requires |s'.slots| == |s.slots| && s'.slots == s.slots[pos % |s.slots| := s'.slots[pos % |s.slots|]]
    requires s'.enqueuePos == s.enqueuePos && s'.dequeuePos == s.dequeuePos && s'.items == s.items
    ensures ThreadOk(s', s.threads[a])
  {
    var (c, t) := (s.Capacity(), s.threads[a]);
    assert ThreadOk(s, s.threads[id]) && ThreadOk(s, t);
    assert !(Fills(s.threads[id], pos) && Fills(t, pos)) && !(Drains(s.threads[id], pos) && Drains(t, pos));
    NextSlot(pos, c);
    if !t.Idle? && !t.EnqueueReload? && !t.DequeueReload? && t.pos % c == pos % c {
      NextSlot(t.pos, c);
    }
  }

  lemma EnqueueWrites<T>(s: State<T>, s': State<T>, id: nat)
    requires Inv(s) && id in s.threads && s.threads[id].EnqueueWrite?
    requires var t := s.threads[id]; s' == s.Set(t.pos, s.At(t.pos).(data := t.item)).Move(id, EnqueuePublish(t.pos))
    ensures Inv(s')
  {
    var pos := s.threads[id].pos;
    assert ThreadOk(s, s.threads[id]) && Fills(s.threads[id], pos);
    forall i | 0 <= i < |s'.slots| ensures SlotOk(s', i) { assert SlotOk(s, i); }
    forall a | a in s'.threads
      ensures ThreadOk(s', s'.threads[a])
    {
      if a != id { OtherThread(s, s', id, a, pos); }
    }
    ExclusiveMove(s, s', id);
    forall p: nat | p < s'.dequeuePos ensures Awaited(s', p) { AwaitedKept(s, s', id, p); }
  }

  lemma EnqueuePublishes<T>(s: State<T>, s': State<T>, id: nat)
    requires Inv(s) && id in s.threads && s.threads[id].EnqueuePublish?
    requires var pos := s.threads[id].pos; s' == s.Set(pos, s.At(pos).(sequence := pos + 1)).Move(id, Idle)
    ensures Inv(s')
  {
    var pos := s.threads[id].pos;
    assert ThreadOk(s, s.threads[id]) && Fills(s.threads[id], pos);
    NextSlot(pos, s.Capacity());
    forall i | 0 <= i < |s'.slots| ensures SlotOk(s', i) { assert SlotOk(s, i); }
    forall a | a in s'.threads
      ensures ThreadOk(s', s'.threads[a])
    {
      if a != id { OtherThread(s, s', id, a, pos); }
    }
    ExclusiveMove(s, s', id);
    forall p: nat | p < s'.dequeuePos ensures Awaited(s', p) { AwaitedKept(s, s', id, p); }
  }

  // what is read is the item of the ticket, and slots and threads stay well
  lemma ReadKeeps<T>(s: State<T>, s': State<T>, id: nat)
    requires Inv(s) && id in s.threads && s.threads[id].DequeueRead?
    requires var (pos, x) := (s.threads[id].pos, s.At(s.threads[id].pos).data);
      s' == s.Move(id, DequeueRelease(pos, x)).(received := s.received[pos := x])
    ensures var pos := s.threads[id].pos; pos < s.dequeuePos && s.At(pos).data == s.items[pos]
    ensures forall i {:trigger SlotOk(s', i)} :: 0 <= i < |s'.slots| ==> SlotOk(s', i)
    ensures forall a {:trigger ThreadOk(s', s'.threads[a])} :: a in s'.threads ==> ThreadOk(s', s'.threads[a])
  {
    var pos := s.threads[id].pos;
    assert ThreadOk(s, s.threads[id]) && SlotOk(s, pos % s.Capacity());
    NextSlot(pos, s.Capacity());
    hide Exclusive, Awaited;
    forall i | 0 <= i < |s'.slots| ensures SlotOk(s', i) { assert SlotOk(s, i); }
    forall a | a in s'.threads
      ensures ThreadOk(s', s'.threads[a])
    {
      assert a != id ==> ThreadOk(s, s.threads[a]);
    }
  }

  lemma DequeueReads<T>(s: State<T>, s': State<T>, id: nat)
    requires Inv(s) && id in s.threads && s.threads[id].DequeueRead?
    requires var (pos, x) := (s.threads[id].pos, s.At(s.threads[id].pos).data);
      s' == s.Move(id, DequeueRelease(pos, x)).(received := s.received[pos := x])
    ensures Inv(s')
  {
    hide SlotOk, ThreadOk;
    var pos := s.threads[id].pos;
    ReadKeeps(s, s', id);
    assert Drains(s.threads[id], pos);
    ExclusiveMove(s, s', id);
    forall p: nat | p < s'.dequeuePos
      ensures Awaited(s', p)
    {
      if p != pos { AwaitedKept(s, s', id, p); }
    }
  }

  lemma DequeueReleases<T>(s: State<T>, s': State<T>, id: nat)
    requires Inv(s) && id in s.threads && s.threads[id].DequeueRelease?
    requires var pos := s.threads[id].pos; s' == s.Set(pos, s.At(pos).(sequence := pos + s.Capacity())).Move(id, Idle)
    ensures Inv(s')
  {
    var pos := s.threads[id].pos;
    assert ThreadOk(s, s.threads[id]) && SlotOk(s, pos % s.Capacity()) && Drains(s.threads[id], pos);
    NextSlot(pos, s.Capacity());
    forall i | 0 <= i < |s'.slots| ensures SlotOk(s', i) { assert SlotOk(s, i); }
    forall a | a in s'.threads
      ensures ThreadOk(s', s'.threads[a])
    {
      if a != id { OtherThread(s, s', id, a, pos); }
    }
    ExclusiveMove(s, s', id);
    forall p: nat | p < s'.dequeuePos ensures Awaited(s', p) { AwaitedKept(s, s', id, p); }
  }

  // ---------------------------------------------------------------- every step and every run

  lemma InvNext<T(!new)>(s: State<T>, s': State<T>)
    requires Inv(s) && Next(s, s')
    ensures Inv(s')
  {
    hide Inv, SlotOk, ThreadOk, Exclusive;
    var id, step :| NextStep(s, s', id, step);
    StepKeeps(s, s', id, step);
  }

  lemma StepKeeps<T>(s: State<T>, s': State<T>, id: nat, step: Step<T>)
    requires Inv(s) && NextStep(s, s', id, step)
    ensures Inv(s')
  {
    hide Inv, SlotOk, ThreadOk, Exclusive;
    match s.threads[id]
    case EnqueueSwap(item, pos) =>
      if step.Continue? { EnqueueClaims(s, s', id); } else { LoadStep(s, s', id, step); }
    case EnqueueWrite(_, _) => EnqueueWrites(s, s', id);
    case EnqueuePublish(_) => EnqueuePublishes(s, s', id);
    case DequeueSwap(pos) =>
      if step.Continue? { DequeueClaims(s, s', id); } else { LoadStep(s, s', id, step); }
    case DequeueRead(_) => DequeueReads(s, s', id);
    case DequeueRelease(_, _) => DequeueReleases(s, s', id);
    case _ => LoadStep(s, s', id, step);
  }

  lemma LoadStep<T>(s: State<T>, s': State<T>, id: nat, step: Step<T>)
    requires Inv(s) && NextStep(s, s', id, step)
    requires match s.threads[id]
             case EnqueueSwap(_, _) => !step.Continue?
             case DequeueSwap(_) => !step.Continue?
             case _ => true
    requires !s.threads[id].EnqueueWrite? && !s.threads[id].EnqueuePublish?
    requires !s.threads[id].DequeueRead? && !s.threads[id].DequeueRelease?
    ensures Inv(s')
  {
    assert ThreadOk(s, s.threads[id]);
    QuietStep(s, s', id, s'.threads[id]);
  }

  lemma InitOk<T>(s: State<T>)
    requires Init(s) && s.Capacity() >= 2
    ensures Inv(s)
  {
    forall i | 0 <= i < |s.slots| ensures SlotOk(s, i) { Quotient(i, 0, i, |s.slots|); }
  }

  ghost predicate IsRun<T(!new)>(run: seq<State<T>>) {
    && run != [] && Init(run[0])
    && forall i :: 0 <= i < |run| - 1 ==> Next(run[i], run[i + 1])
  }

  lemma {:induction false} InvHolds<T(!new)>(run: seq<State<T>>, i: nat)
    requires IsRun(run) && i < |run| && run[0].Capacity() >= 2
    ensures Inv(run[i])
  {
    if i == 0 {
      InitOk(run[0]);
    } else {
      InvHolds(run, i - 1);
      assert Next(run[i - 1], run[i - 1 + 1]);
      InvNext(run[i - 1], run[i]);
    }
  }

  // Never more than a capacity of tickets between the two positions.
  lemma WithinCapacity<T>(s: State<T>)
    requires Inv(s)
    ensures s.enqueuePos - s.dequeuePos <= s.Capacity()
  {
    var (c, d) := (s.Capacity(), s.dequeuePos);
    var i := d % c;
    assert SlotOk(s, i);
    var q := s.slots[i].sequence;
    var ticket := if q % c == i then q else q - 1;
    if d < ticket { SameCell(d, ticket, c); }
  }

  // In every state of every run: each ticket has at most one enqueuer and one dequeuer at work,
  // the dequeuer of a ticket gets the item enqueued under it, every ticket claimed by a dequeuer
  // is read, and the positions stay within a capacity of each other.
  lemma TicketsMatch<T(!new)>(run: seq<State<T>>, n: nat)
    requires IsRun(run) && n < |run| && run[0].Capacity() >= 2
    ensures var s := run[n];
      && s.dequeuePos <= s.enqueuePos <= s.dequeuePos + s.Capacity() && |s.items| == s.enqueuePos
      && Exclusive(s)
      && (forall p :: p in s.received ==> p < s.dequeuePos && s.received[p] == s.items[p])
      && (forall p: nat :: p < s.dequeuePos ==> Awaited(s, p))
  {
    InvHolds(run, n);
    WithinCapacity(run[n]);
  }

  // A ticket keeps its item: later steps only append to the items and to what was received.
  lemma NextAppends<T(!new)>(s: State<T>, s': State<T>)
    requires Inv(s) && Next(s, s')
    ensures s.items <= s'.items
    ensures forall p :: p in s.received ==> p in s'.received && s'.received[p] == s.received[p]
  {
    InvNext(s, s');
    var id, step :| NextStep(s, s', id, step);
    if s.threads[id].DequeueRead? {
      var pos := s.threads[id].pos;
      assert ThreadOk(s, s.threads[id]) && SlotOk(s, pos % s.Capacity());
      NextSlot(pos, s.Capacity());
      assert s'.received[pos] == s'.items[pos];
    }
  }

  // A slot is not written while it holds an item that its dequeuer has still to read: the step
  // that writes has claimed a ticket whose predecessor in the slot was released.
  lemma NoOverwrite<T(!new)>(s: State<T>, s': State<T>, i: nat)
    requires Inv(s) && Next(s, s') && i < |s.slots| && s.slots[i].sequence % s.Capacity() != i
    ensures i < |s'.slots| && s'.slots[i].data == s.slots[i].data
    ensures s'.slots[i].sequence != s.slots[i].sequence ==> (s.slots[i].sequence - 1) in s.received
  {
    var id, step :| NextStep(s, s', id, step);
    var t := s.threads[id];
    assert ThreadOk(s, t) && SlotOk(s, i);
    if t.EnqueueWrite? || t.EnqueuePublish? {
      assert t.pos % s.Capacity() != i;
    } else if t.DequeueRelease? && t.pos % s.Capacity() == i {
      assert Awaited(s, t.pos);
      if t.pos !in s.received {
        var a :| a in s.threads && s.threads[a] == DequeueRead(t.pos);
        assert Drains(s.threads[a], t.pos) && Drains(s.threads[id], t.pos);
      }
    }
  }

  // between its compare-and-swap and its last store
  predicate InSlot<T>(t: Thread<T>) {
    t.EnqueueWrite? || t.EnqueuePublish? || t.DequeueRead? || t.DequeueRelease?
  }

  // The data of a slot has one user at a time: no two threads are in the same slot.
  lemma OneInSlot<T>(s: State<T>, a: nat, b: nat)
    requires Inv(s) && a in s.threads && b in s.threads && a != b && InSlot(s.threads[a]) && InSlot(s.threads[b])
    ensures s.threads[a].pos % s.Capacity() != s.threads[b].pos % s.Capacity()
  {
    var (c, x, y) := (s.Capacity(), s.threads[a], s.threads[b]);
    assert ThreadOk(s, x) && ThreadOk(s, y);
    assert !(Fills(x, x.pos) && Fills(y, x.pos)) && !(Drains(x, x.pos) && Drains(y, x.pos));
    NextSlot(x.pos, c);
    NextSlot(y.pos, c);
  }

  // enqueue gives up only when the slot of the next ticket still belongs to the ticket one
  // capacity before it, which has not been released.
  lemma RefusedOnlyWhenFull<T>(s: State<T>, id: nat)
    requires Inv(s) && id in s.threads && s.threads[id].EnqueueLoad?
    requires s.At(s.threads[id].pos).sequence < s.threads[id].pos
    ensures s.threads[id].pos == s.enqueuePos >= s.Capacity()
    ensures var (c, q) := (s.Capacity(), s.At(s.enqueuePos).sequence);
      q == s.enqueuePos - c || q == s.enqueuePos - c + 1
  {
    var (c, pos) := (s.Capacity(), s.threads[id].pos);
    assert ThreadOk(s, s.threads[id]) && SlotOk(s, pos % c);
    var q := s.At(pos).sequence;
    var ticket := if q % c == pos % c then q else q - 1;
    SameCell(ticket, pos, c);
  }

  // dequeue gives up only when the next ticket is not claimed by an enqueuer, or not published.
  lemma RefusedOnlyWhenEmpty<T>(s: State<T>, id: nat)
    requires Inv(s) && id in s.threads && s.threads[id].DequeueLoad?
    requires s.At(s.threads[id].pos).sequence < s.threads[id].pos + 1
    ensures s.threads[id].pos == s.dequeuePos
    ensures s.dequeuePos == s.enqueuePos || s.At(s.dequeuePos).sequence == s.dequeuePos
  {
    var (c, pos) := (s.Capacity(), s.threads[id].pos);
    assert ThreadOk(s, s.threads[id]) && SlotOk(s, pos % c);
    var q := s.At(pos).sequence;
    var ticket := if q % c == pos % c then q else q - 1;
    if ticket < pos { SameCell(ticket, pos, c); }
  }

  // ---------------------------------------------------------------- a capacity of one

  // The assertion in the source lets a capacity of 1 through. There, "full" for one ticket and
  // "empty" for the next are the same sequence: a second enqueue overwrites an unread item.
  ghost function Stage(n: int): State<int> {
    if n == 0 then One(0, Slot(0, 0), Idle, [])
    else if n == 1 then One(0, Slot(0, 0), EnqueueLoad(10, 0), [])
    else if n == 2 then One(0, Slot(0, 0), EnqueueSwap(10, 0), [])
    else if n == 3 then One(1, Slot(0, 0), EnqueueWrite(10, 0), [10])
    else if n == 4 then One(1, Slot(0, 10), EnqueuePublish(0), [10])
    else if n == 5 then One(1, Slot(1, 10), Idle, [10])
    else if n == 6 then One(1, Slot(1, 10), EnqueueLoad(20, 1), [10])
    else if n == 7 then One(1, Slot(1, 10), EnqueueSwap(20, 1), [10])
    else if n == 8 then One(2, Slot(1, 10), EnqueueWrite(20, 1), [10, 20])
    else One(2, Slot(1, 20), EnqueuePublish(1), [10, 20])
  }

  ghost function One(e: nat, slot: Slot<int>, t: Thread<int>, items: seq<int>): State<int> {
    State(e, 0, [slot], map[7 := t], items, map[])
  }

  lemma StageStep(n: nat)
    requires n < 9
    ensures Next(Stage(n), Stage(n + 1))
  {
    var (s, s') := (Stage(n), Stage(n + 1));
    var step := if n == 0 then BeginEnqueue(10) else if n == 5 then BeginEnqueue(20) else Continue;
    assert s.slots[0 := s'.slots[0]] == s'.slots && s.threads[7 := s'.threads[7]] == s'.threads;
    assert NextStep(s, s', 7, step);
  }

  // two tickets are claimed, the one slot holds the second item, and nobody has read the first
  ghost predicate Overwritten(s: State<int>) {
    && s.Capacity() == 1 && s.enqueuePos - s.dequeuePos == 2
    && s.items == [10, 20] && s.slots[0].data == 20 && s.received == map[]
  }

  lemma CapacityOneOverwrites()
    ensures exists run: seq<State<int>> :: IsRun(run) && Overwritten(run[|run| - 1])
  {
    var run := seq(10, n => Stage(n));
    forall n | 0 <= n < 9 ensures Next(run[n], run[n + 1]) { StageStep(n); }
    assert IsRun(run) && Overwritten(run[9]);
  }

  lemma {:induction false} SameCapacity<T(!new)>(run: seq<State<T>>, i: nat)
    requires IsRun(run) && i < |run|
    ensures run[i].Capacity() == run[0].Capacity()
  {
    if i > 0 {
      SameCapacity(run, i - 1);
      assert Next(run[i - 1], run[i - 1 + 1]);
    }
  }

  ghost predicate Bounded(run: seq<State<int>>)
    requires run != []
  {
    var s := run[|run| - 1];
    s.enqueuePos - s.dequeuePos <= s.Capacity()
  }

  // The queue never hands out more tickets than it has slots exactly when it has two slots or more.
  lemma BoundedIffTwoSlots(c: nat)
    requires c > 0
    ensures (forall run: seq<State<int>> {:trigger IsRun(run)} :: IsRun(run) && run[0].Capacity() == c ==>
      Bounded(run)) <==> c >= 2
  {
    if c >= 2 {
      forall run: seq<State<int>> | IsRun(run) && run[0].Capacity() == c
        ensures Bounded(run)
      {
        InvHolds(run, |run| - 1);
        WithinCapacity(run[|run| - 1]);
      }
    } else {
      CapacityOneOverwrites();
      var run: seq<State<int>> :| IsRun(run) && Overwritten(run[|run| - 1]);
      SameCapacity(run, |run| - 1);
      assert !Bounded(run);
    }
  }
}
