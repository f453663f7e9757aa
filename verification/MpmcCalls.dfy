/**
  Whole calls of enqueue and dequeue on the bounded queue, from the step that begins a call to the
  step that ends it, whatever the other threads do in between: what a call delivers, and when it may
  come back with nothing.
*/
module MpmcCalls {
  import opened RingIndex
  import opened MpmcQueue

  ghost predicate GoodRun<T(!new)>(run: seq<State<T>>) {
    IsRun(run) && run[0].Capacity() >= 2
  }

  // ---------------------------------------------------------------- tickets that are finished

  // some thread has claimed ticket p for its enqueue, and has not published the item
  ghost predicate BeingFilled<T>(s: State<T>, p: nat) {
    exists id {:trigger s.threads[id]} :: id in s.threads && Fills(s.threads[id], p)
  }

  ghost predicate BeingDrained<T>(s: State<T>, p: nat) {
    exists id {:trigger s.threads[id]} :: id in s.threads && Drains(s.threads[id], p)
  }

  // Of every ticket claimed by an enqueuer who is done, the item is published; of every ticket
  // claimed by a dequeuer who is done, the slot is free for the next round.
  ghost predicate Settled<T>(s: State<T>)
    requires s.Wellformed()
  {
    && (forall p: nat {:trigger s.At(p)} :: p < s.enqueuePos ==> s.At(p).sequence > p || BeingFilled(s, p))
    && (forall p: nat {:trigger s.At(p)} :: p < s.dequeuePos ==>
          s.At(p).sequence >= p + s.Capacity() || BeingDrained(s, p))
  }

  lemma ThreadFacts<T>(s: State<T>, id: nat)
    requires Inv(s) && id in s.threads
    ensures s.Wellformed() && ThreadOk(s, s.threads[id])
  {
  }

  // Sequences never go back.
  lemma SequencesGrow<T>(s: State<T>, s': State<T>, id: nat, step: Step<T>, p: nat)
    requires Inv(s) && NextStep(s, s', id, step)
    ensures s'.Wellformed() && s'.Capacity() == s.Capacity() && s.At(p).sequence <= s'.At(p).sequence
    ensures s'.enqueuePos >= s.enqueuePos && s'.dequeuePos >= s.dequeuePos
  {
    hide SlotOk, Exclusive, Awaited;
    assert ThreadOk(s, s.threads[id]);
  }

  // A step moves one thread; its claims end when it has published, or released, its slot.
  lemma ClaimsStep<T>(s: State<T>, s': State<T>, id: nat, step: Step<T>, p: nat)
    requires Inv(s) && NextStep(s, s', id, step)
    ensures id in s'.threads && s'.threads == s.threads[id := s'.threads[id]] && s'.Wellformed()
    ensures Fills(s.threads[id], p) ==> Fills(s'.threads[id], p) || s'.At(p).sequence > p
    ensures Drains(s.threads[id], p) ==> Drains(s'.threads[id], p) || s'.At(p).sequence >= p + s'.Capacity()
    ensures s.enqueuePos <= p < s'.enqueuePos ==> Fills(s'.threads[id], p)
    ensures s.dequeuePos <= p < s'.dequeuePos ==> Drains(s'.threads[id], p)
  {
    ThreadFacts(s, id);
    hide Inv, EnqueueNext, DequeueNext;
    if !step.BeginEnqueue? && !step.BeginDequeue? {
      if EnqueueNext(s, s', id, step) { EnqueueClaims(s, s', id, step, p); } else { DequeueClaims(s, s', id, step, p); }
    }
  }

  lemma EnqueueClaims<T>(s: State<T>, s': State<T>, id: nat, step: Step<T>, p: nat)
    requires s.Wellformed() && id in s.threads && EnqueueNext(s, s', id, step)
    ensures id in s'.threads && s'.threads == s.threads[id := s'.threads[id]] && s'.Wellformed()
    ensures Fills(s.threads[id], p) ==> Fills(s'.threads[id], p) || s'.At(p).sequence > p
    ensures !Drains(s.threads[id], p) && s'.dequeuePos == s.dequeuePos
    ensures s.enqueuePos <= p < s'.enqueuePos ==> Fills(s'.threads[id], p)
  {
  }

  lemma DequeueClaims<T>(s: State<T>, s': State<T>, id: nat, step: Step<T>, p: nat)
    requires s.Wellformed() && id in s.threads && DequeueNext(s, s', id, step)
    ensures id in s'.threads && s'.threads == s.threads[id := s'.threads[id]] && s'.Wellformed()
    ensures Drains(s.threads[id], p) ==> Drains(s'.threads[id], p) || s'.At(p).sequence >= p + s'.Capacity()
    ensures !Fills(s.threads[id], p) && s'.enqueuePos == s.enqueuePos
    ensures s.dequeuePos <= p < s'.dequeuePos ==> Drains(s'.threads[id], p)
  {
  }

  lemma FilledStep<T>(s: State<T>, s': State<T>, id: nat, step: Step<T>, p: nat)
    requires Inv(s) && NextStep(s, s', id, step) && p < s'.enqueuePos
    requires p < s.enqueuePos ==> s.At(p).sequence > p || BeingFilled(s, p)
    ensures s'.Wellformed() && (s'.At(p).sequence > p || BeingFilled(s', p))
  {
    hide Inv, NextStep, Fills, Drains;
    SequencesGrow(s, s', id, step, p);
    ClaimsStep(s, s', id, step, p);
    if p >= s.enqueuePos {
      assert Fills(s'.threads[id], p);
    } else if s.At(p).sequence <= p {
      var a :| a in s.threads && Fills(s.threads[a], p);
      if a != id { assert Fills(s'.threads[a], p); }
    }
  }

  lemma DrainedStep<T>(s: State<T>, s': State<T>, id: nat, step: Step<T>, p: nat)
    requires Inv(s) && NextStep(s, s', id, step) && p < s'.dequeuePos
    requires p < s.dequeuePos ==> s.At(p).sequence >= p + s.Capacity() || BeingDrained(s, p)
    ensures s'.Wellformed() && (s'.At(p).sequence >= p + s'.Capacity() || BeingDrained(s', p))
  {
    hide Inv, NextStep, Fills, Drains;
    SequencesGrow(s, s', id, step, p);
    ClaimsStep(s, s', id, step, p);
    if p >= s.dequeuePos {
      assert Drains(s'.threads[id], p);
    } else if s.At(p).sequence < p + s.Capacity() {
      var a :| a in s.threads && Drains(s.threads[a], p);
      if a != id { assert Drains(s'.threads[a], p); }
    }
  }

  lemma SettledStep<T>(s: State<T>, s': State<T>, id: nat, step: Step<T>)
    requires Inv(s) && Settled(s) && NextStep(s, s', id, step)
    ensures s'.Wellformed() && Settled(s')
  {
    SequencesGrow(s, s', id, step, 0);
    hide Inv, NextStep;
    forall p: nat | p < s'.enqueuePos
      ensures s'.At(p).sequence > p || BeingFilled(s', p)
    {
      assert s.At(p) == s.At(p);
      FilledStep(s, s', id, step, p);
    }
    forall p: nat | p < s'.dequeuePos
      ensures s'.At(p).sequence >= p + s'.Capacity() || BeingDrained(s', p)
    {
      assert s.At(p) == s.At(p);
      DrainedStep(s, s', id, step, p);
    }
  }

  lemma {:induction false} SettledHolds<T(!new)>(run: seq<State<T>>, i: nat)
    requires GoodRun(run) && i < |run|
    ensures Inv(run[i]) && Settled(run[i])
  {
    InvHolds(run, i);
    if i > 0 {
      SettledHolds(run, i - 1);
      hide Inv, Settled, NextStep;
      assert Next(run[i - 1], run[i - 1 + 1]);
      var id, step :| NextStep(run[i - 1], run[i], id, step);
      SettledStep(run[i - 1], run[i], id, step);
    }
  }

  // ---------------------------------------------------------------- when a call gives up

  // All tickets are in use: the queue holds a capacity of items, or the slot of the next ticket is
  // still being read by the dequeuer of the ticket one round before.
  ghost predicate Full<T>(s: State<T>) {
    var c := s.Capacity();
    s.enqueuePos >= c && (s.enqueuePos - c >= s.dequeuePos || BeingDrained(s, s.enqueuePos - c))
  }

  // The queue holds no items, or the next one is still being written by its enqueuer.
  ghost predicate Empty<T>(s: State<T>) {
    s.dequeuePos == s.enqueuePos || BeingFilled(s, s.dequeuePos)
  }

  // In a full queue the slot of the next ticket is behind, in any other it waits for that ticket.
  lemma FullSlot<T>(s: State<T>)
    requires Inv(s) && Settled(s)
    ensures if Full(s) then s.At(s.enqueuePos).sequence < s.enqueuePos else s.At(s.enqueuePos).sequence == s.enqueuePos
  {
    hide Exclusive, Awaited;
    var (c, pos) := (s.Capacity(), s.enqueuePos);
    assert SlotOk(s, pos % c);
    NextSlot(pos, c);
    var q := s.At(pos).sequence;
    var ticket := if q % c == pos % c then q else q - 1;
    if pos >= c {
      RoundLater(pos - c, c);
      assert s.At(pos - c) == s.At(pos);
      if Full(s) {
        if BeingDrained(s, pos - c) {
          var a :| a in s.threads && Drains(s.threads[a], pos - c);
          assert ThreadOk(s, s.threads[a]);
        } else if ticket > pos - c {
          SameCell(pos - c, ticket, c);
        }
      }
    }
    if ticket < pos { SameCell(ticket, pos, c); }
    if pos < ticket { SameCell(pos, ticket, c); }
  }

  // enqueue gives up exactly in a full queue; while the ticket it has looked up is the next one, it
  // goes on to claim it otherwise.
  lemma EnqueueGivesUp<T>(s: State<T>, s': State<T>, id: nat, step: Step<T>)
    requires Inv(s) && Settled(s) && NextStep(s, s', id, step) && s.threads[id].EnqueueLoad?
    ensures id in s'.threads && (s'.threads[id] == Idle <==> s.threads[id].pos == s.enqueuePos && Full(s))
    ensures s.threads[id].pos == s.enqueuePos && !Full(s) ==>
      s'.threads[id] == EnqueueSwap(s.threads[id].item, s.enqueuePos)
  {
    FullSlot(s);
    hide Inv, Settled, Full;
    if s.At(s.threads[id].pos).sequence < s.threads[id].pos { RefusedOnlyWhenFull(s, id); }
  }

  // The slot of the next ticket to dequeue is published, unless the queue is empty.
  lemma EmptySlot<T>(s: State<T>)
    requires Inv(s) && Settled(s)
    ensures if Empty(s) then s.At(s.dequeuePos).sequence <= s.dequeuePos
            else s.At(s.dequeuePos).sequence == s.dequeuePos + 1
  {
    hide Exclusive, Awaited;
    var (c, pos) := (s.Capacity(), s.dequeuePos);
    assert SlotOk(s, pos % c);
    NextSlot(pos, c);
    var q := s.At(pos).sequence;
    var ticket := if q % c == pos % c then q else q - 1;
    if BeingFilled(s, pos) {
      var a :| a in s.threads && Fills(s.threads[a], pos);
      assert ThreadOk(s, s.threads[a]);
    }
    if ticket < pos { SameCell(ticket, pos, c); }
    if pos < ticket { SameCell(pos, ticket, c); }
  }

  // dequeue gives up exactly in an empty queue; while the ticket it has looked up is the next one,
  // it goes on to claim it otherwise.
  lemma DequeueGivesUp<T>(s: State<T>, s': State<T>, id: nat, step: Step<T>)
    requires Inv(s) && Settled(s) && NextStep(s, s', id, step) && s.threads[id].DequeueLoad?
    ensures id in s'.threads && (s'.threads[id] == Idle <==> s.threads[id].pos == s.dequeuePos && Empty(s))
    ensures s.threads[id].pos == s.dequeuePos && !Empty(s) ==> s'.threads[id] == DequeueSwap(s.dequeuePos)
  {
    EmptySlot(s);
    hide Inv, Settled, Empty;
    if s.At(s.threads[id].pos).sequence < s.threads[id].pos + 1 { RefusedOnlyWhenEmpty(s, id); }
  }

  // With nobody else at work, full means a capacity of items and empty means none.
  lemma QuietQueue<T>(s: State<T>)
    requires Inv(s) && forall id :: id in s.threads ==> !InSlot(s.threads[id])
    ensures Full(s) <==> s.enqueuePos == s.dequeuePos + s.Capacity()
    ensures Empty(s) <==> s.enqueuePos == s.dequeuePos
  {
    WithinCapacity(s);
    hide Inv;
  }

  // ---------------------------------------------------------------- calls

  // Thread id begins a call in state i and is back in state j.
  ghost predicate Call<T>(run: seq<State<T>>, id: nat, i: nat, j: nat) {
    && i + 1 < j < |run| && (forall k :: i <= k <= j ==> id in run[k].threads)
    && run[i].threads[id] == Idle && run[j].threads[id] == Idle
    && forall k :: i < k < j ==> run[k].threads[id] != Idle
  }

  lemma StepOf<T(!new)>(run: seq<State<T>>, k: nat) returns (id: nat, step: Step<T>)
    requires GoodRun(run) && k + 1 < |run|
    ensures Inv(run[k]) && Settled(run[k]) && Inv(run[k + 1]) && Settled(run[k + 1])
    ensures NextStep(run[k], run[k + 1], id, step) && run[k].items <= run[k + 1].items
    ensures forall p :: p in run[k].received ==>
              p in run[k + 1].received && run[k + 1].received[p] == run[k].received[p]
  {
    hide Inv, Settled, NextStep;
    SettledHolds(run, k);
    SettledHolds(run, k + 1);
    assert Next(run[k], run[k + 1]);
    NextAppends(run[k], run[k + 1]);
    id, step :| NextStep(run[k], run[k + 1], id, step);
  }

  // Where an enqueue of x can be that began when from tickets were claimed.
  ghost predicate Enqueuing<T>(s: State<T>, t: Thread<T>, x: T, from: nat) {
    match t
    case EnqueueLoad(item, _) => item == x
    case EnqueueReload(item) => item == x
    case EnqueueSwap(item, _) => item == x
    case EnqueueWrite(item, pos) => item == x && from <= pos < |s.items| && s.items[pos] == x
    case EnqueuePublish(pos) => from <= pos < |s.items| && s.items[pos] == x
    case _ => false
  }

  // x has been enqueued and published under a ticket claimed since.
  ghost predicate Enqueued<T>(s: State<T>, x: T, from: nat) {
    exists p :: from <= p < |s.items| && s.items[p] == x && s.Wellformed() && s.At(p).sequence > p
  }

  lemma EnqueueStep<T>(s: State<T>, s': State<T>, who: nat, step: Step<T>, id: nat, x: T, from: nat)
    requires Inv(s) && Settled(s) && NextStep(s, s', who, step) && s.items <= s'.items && from <= s.enqueuePos
    requires id in s.threads && Enqueuing(s, s.threads[id], x, from)
    ensures id in s'.threads
    ensures s'.threads[id] != Idle ==> Enqueuing(s', s'.threads[id], x, from)
    ensures s'.threads[id] == Idle ==> (s.threads[id].EnqueueLoad? && Full(s)) || Enqueued(s', x, from)
  {
    hide Settled, SlotOk, Exclusive, Awaited, Full;
    assert ThreadOk(s, s.threads[id]);
    if who == id && s.threads[id].EnqueueLoad? { EnqueueGivesUp(s, s', id, step); }
    if who == id && s.threads[id].EnqueuePublish? { assert s'.At(s.threads[id].pos).sequence > s.threads[id].pos; }
  }

  lemma {:induction false} EnqueueUnderway<T(!new)>(run: seq<State<T>>, id: nat, i: nat, k: nat, x: T)
    requires GoodRun(run) && i < k < |run| && (forall m :: i <= m <= k ==> id in run[m].threads)
    requires run[i].threads[id] == Idle && run[i + 1].threads[id].EnqueueLoad? && run[i + 1].threads[id].item == x
    requires forall m :: i < m <= k ==> run[m].threads[id] != Idle
    ensures Enqueuing(run[k], run[k].threads[id], x, run[i].enqueuePos) && run[i].enqueuePos <= run[k].enqueuePos
    decreases k
  {
    hide Inv, Settled, NextStep, Full;
    var who, step := StepOf(run, k - 1);
    SequencesGrow(run[k - 1], run[k], who, step, 0);
    if k > i + 1 {
      EnqueueUnderway(run, id, i, k - 1, x);
      EnqueueStep(run[k - 1], run[k], who, step, id, x, run[i].enqueuePos);
    }
  }

  // A call of enqueue puts its item into the queue under a ticket claimed during the call, and
  // publishes it; or the queue was full when the call gave up.
  lemma EnqueueDelivers<T(!new)>(run: seq<State<T>>, id: nat, i: nat, j: nat, x: T)
    requires GoodRun(run) && Call(run, id, i, j)
    requires run[i + 1].threads[id].EnqueueLoad? && run[i + 1].threads[id].item == x
    ensures Enqueued(run[j], x, run[i].enqueuePos) || (run[j - 1].threads[id].EnqueueLoad? && Full(run[j - 1]))
  {
    hide Inv, Settled, NextStep, Full, Enqueued, Enqueuing;
    EnqueueUnderway(run, id, i, j - 1, x);
    var who, step := StepOf(run, j - 1);
    EnqueueStep(run[j - 1], run[j], who, step, id, x, run[i].enqueuePos);
  }

  // Where a dequeue can be that began when from tickets were claimed.
  ghost predicate Dequeuing<T>(s: State<T>, t: Thread<T>, from: nat) {
    match t
    case DequeueLoad(_) => true
    case DequeueReload => true
    case DequeueSwap(_) => true
    case DequeueRead(pos) => from <= pos < s.dequeuePos
    case DequeueRelease(pos, item) =>
      from <= pos < s.dequeuePos && pos in s.received && pos < |s.items| && s.items[pos] == s.received[pos] == item
    case _ => false
  }

  // what a step leaves of the claims of the thread id, if that is not the one that moves
  lemma DequeueWatches<T>(s: State<T>, s': State<T>, who: nat, step: Step<T>, id: nat, from: nat)
    requires s.Wellformed() && NextStep(s, s', who, step) && s.items <= s'.items && s.dequeuePos <= s'.dequeuePos
    requires forall p :: p in s.received ==> p in s'.received && s'.received[p] == s.received[p]
    requires id in s.threads && Dequeuing(s, s.threads[id], from) && who != id
    ensures id in s'.threads && s'.threads[id] == s.threads[id] && Dequeuing(s', s'.threads[id], from)
  {
  }

  lemma DequeueStep<T>(s: State<T>, s': State<T>, who: nat, step: Step<T>, id: nat, from: nat)
    requires Inv(s) && Settled(s) && NextStep(s, s', who, step) && s.items <= s'.items
      && from <= s.dequeuePos <= s'.dequeuePos
    requires forall p :: p in s.received ==> p in s'.received && s'.received[p] == s.received[p]
    requires Inv(s') && id in s.threads && Dequeuing(s, s.threads[id], from)
    ensures id in s'.threads
    ensures s'.threads[id] != Idle ==> Dequeuing(s', s'.threads[id], from)
    ensures s'.threads[id] == Idle ==>
      || (s.threads[id].DequeueLoad? && Empty(s))
      || (s.threads[id].DequeueRelease? && s'.At(s.threads[id].pos).sequence > s.threads[id].pos + 1)
  {
    if who != id {
      hide Inv, NextStep, Dequeuing, Settled, Empty;
      ThreadFacts(s, id);
      DequeueWatches(s, s', who, step, id, from);
      DequeuingIsBusy(s, s.threads[id], from);
    } else {
      hide Settled, SlotOk, Exclusive, Awaited, Empty;
      if s.threads[id].DequeueLoad? { DequeueGivesUp(s, s', id, step); }
      assert ThreadOk(s, s.threads[id]) && id in s'.threads && ThreadOk(s', s'.threads[id]);
    }
  }

  lemma DequeuingIsBusy<T>(s: State<T>, t: Thread<T>, from: nat)
    requires Dequeuing(s, t, from)
    ensures t != Idle
  {
  }

  lemma {:induction false} DequeueUnderway<T(!new)>(run: seq<State<T>>, id: nat, i: nat, k: nat)
    requires GoodRun(run) && i < k < |run| && (forall m :: i <= m <= k ==> id in run[m].threads)
    requires run[i].threads[id] == Idle && run[i + 1].threads[id].DequeueLoad?
    requires forall m :: i < m <= k ==> run[m].threads[id] != Idle
    ensures Dequeuing(run[k], run[k].threads[id], run[i].dequeuePos) && run[i].dequeuePos <= run[k].dequeuePos
    decreases k
  {
    hide Inv, Settled, NextStep, Empty;
    var who, step := StepOf(run, k - 1);
    SequencesGrow(run[k - 1], run[k], who, step, 0);
    if k > i + 1 {
      DequeueUnderway(run, id, i, k - 1);
      DequeueStep(run[k - 1], run[k], who, step, id, run[i].dequeuePos);
    }
  }

  // A call of dequeue returns the item that was enqueued under a ticket it claimed during the call,
  // and frees the slot; or the queue was empty when the call gave up.
  lemma DequeueDelivers<T(!new)>(run: seq<State<T>>, id: nat, i: nat, j: nat)
    requires GoodRun(run) && Call(run, id, i, j) && run[i + 1].threads[id].DequeueLoad?
    ensures match run[j - 1].threads[id]
            case DequeueRelease(p, item) =>
              && run[i].dequeuePos <= p < run[j].dequeuePos && p < |run[j].items| && item == run[j].items[p]
              && p in run[j].received && run[j].Wellformed() && run[j].At(p).sequence > p + 1
            case DequeueLoad(_) => Empty(run[j - 1])
            case _ => false
  {
    hide Inv, Settled, NextStep, Empty;
    DequeueUnderway(run, id, i, j - 1);
    var who, step := StepOf(run, j - 1);
    SequencesGrow(run[j - 1], run[j], who, step, 0);
    DequeueStep(run[j - 1], run[j], who, step, id, run[i].dequeuePos);
  }

  // ---------------------------------------------------------------- nobody waits

  // A thread in the middle of a call can always take its next step, whatever the others do.
  lemma NeverWaits<T(!new)>(s: State<T>, id: nat)
    requires Inv(s) && id in s.threads && s.threads[id] != Idle
    ensures exists s' :: NextStep(s, s', id, Continue) || NextStep(s, s', id, SwapFails)
  {
    hide SlotOk, ThreadOk, Exclusive, Awaited;
    match s.threads[id]
    case EnqueueLoad(item, pos) =>
      var q := s.At(pos).sequence;
      assert NextStep(s, s.Move(id, if q == pos then EnqueueSwap(item, pos) else if q < pos then Idle
                                    else EnqueueReload(item)), id, Continue);
    case EnqueueReload(item) => assert NextStep(s, s.Move(id, EnqueueLoad(item, s.enqueuePos)), id, Continue);
    case EnqueueSwap(item, pos) => assert NextStep(s, s.Move(id, EnqueueLoad(item, s.enqueuePos)), id, SwapFails);
    case EnqueueWrite(item, pos) =>
      assert NextStep(s, s.Set(pos, s.At(pos).(data := item)).Move(id, EnqueuePublish(pos)), id, Continue);
    case EnqueuePublish(pos) =>
      assert NextStep(s, s.Set(pos, s.At(pos).(sequence := pos + 1)).Move(id, Idle), id, Continue);
    case DequeueLoad(pos) =>
      var q := s.At(pos).sequence;
      assert NextStep(s, s.Move(id, if q == pos + 1 then DequeueSwap(pos) else if q < pos + 1 then Idle
                                    else DequeueReload), id, Continue);
    case DequeueReload => assert NextStep(s, s.Move(id, DequeueLoad(s.dequeuePos)), id, Continue);
    case DequeueSwap(pos) => assert NextStep(s, s.Move(id, DequeueLoad(s.dequeuePos)), id, SwapFails);
    case DequeueRead(pos) =>
      var x := s.At(pos).data;
      assert NextStep(s, s.Move(id, DequeueRelease(pos, x)).(received := s.received[pos := x]), id, Continue);
    case DequeueRelease(pos, _) =>
      assert NextStep(s, s.Set(pos, s.At(pos).(sequence := pos + s.Capacity())).Move(id, Idle), id, Continue);
  }

  // ---------------------------------------------------------------- a call that is left alone

  ghost predicate Path<T(!new)>(path: seq<State<T>>) {
    path != [] && forall i :: 0 <= i < |path| - 1 ==> Next(path[i], path[i + 1])
  }

  lemma PathOfSix<T(!new)>(path: seq<State<T>>)
    requires |path| == 6 && Next(path[0], path[1]) && Next(path[1], path[2]) && Next(path[2], path[3])
    requires Next(path[3], path[4]) && Next(path[4], path[5])
    ensures Path(path)
  {
    hide Next;
  }

  // Unless the queue is full, an enqueue that nobody disturbs puts its item behind all others.
  lemma EnqueueAlone<T(!new)>(s: State<T>, id: nat, x: T) returns (path: seq<State<T>>)
    requires Inv(s) && Settled(s) && id in s.threads && s.threads[id] == Idle && !Full(s)
    ensures Path(path) && path[0] == s
    ensures var s' := path[|path| - 1];
      && s'.items == s.items + [x] && s'.threads == s.threads && s'.dequeuePos == s.dequeuePos
        && s'.received == s.received
      && s'.Wellformed() && s'.At(s.enqueuePos) == Slot(s.enqueuePos + 1, x)
  {
    FullSlot(s);
    hide Inv, Settled, Full;
    var pos := s.enqueuePos;
    var s1 := s.Move(id, EnqueueLoad(x, pos));
    var s2 := s.Move(id, EnqueueSwap(x, pos));
    var s3 := s.Move(id, EnqueueWrite(x, pos)).(enqueuePos := pos + 1, items := s.items + [x]);
    var s4 := s3.Set(pos, Slot(pos, x)).Move(id, EnqueuePublish(pos));
    var s5 := s3.Set(pos, Slot(pos + 1, x)).Move(id, Idle);
    assert Next(s, s1) by { assert NextStep(s, s1, id, BeginEnqueue(x)); }
    assert Next(s1, s2) by { assert NextStep(s1, s2, id, Continue); }
    assert Next(s2, s3) by { assert NextStep(s2, s3, id, Continue); }
    assert Next(s3, s4) by { assert NextStep(s3, s4, id, Continue); }
    assert s5 == s4.Set(pos, Slot(pos + 1, x)).Move(id, Idle);
    assert Next(s4, s5) by { assert NextStep(s4, s5, id, Continue); }
    hide Next, Path;
    path := [s, s1, s2, s3, s4, s5];
    PathOfSix(path);
  }

  lemma PublishedItem<T>(s: State<T>)
    requires Inv(s) && Settled(s) && !Empty(s)
    ensures s.Wellformed() && s.dequeuePos < |s.items|
      && s.At(s.dequeuePos) == Slot(s.dequeuePos + 1, s.items[s.dequeuePos])
  {
    EmptySlot(s);
    hide Settled, Empty, Exclusive, Awaited, ThreadOk;
    assert SlotOk(s, s.dequeuePos % s.Capacity());
    NextSlot(s.dequeuePos, s.Capacity());
  }

  // x has been received under the ticket pos, and its slot is free for the next round
  ghost predicate Handed<T>(s: State<T>, s': State<T>, pos: nat, x: T) {
    && s'.items == s.items && s'.threads == s.threads && s'.dequeuePos == pos + 1 && s'.received == s.received[pos := x]
    && s'.Wellformed() && s'.At(pos).sequence == pos + s.Capacity()
  }

  lemma ClaimAlone<T(!new)>(s: State<T>, id: nat) returns (s1: State<T>, s2: State<T>, s3: State<T>)
    requires s.Wellformed() && id in s.threads && s.threads[id] == Idle
      && s.At(s.dequeuePos).sequence == s.dequeuePos + 1
    ensures Next(s, s1) && Next(s1, s2) && Next(s2, s3)
    ensures s3 == s.Move(id, DequeueRead(s.dequeuePos)).(dequeuePos := s.dequeuePos + 1)
  {
    s1, s2 := s.Move(id, DequeueLoad(s.dequeuePos)), s.Move(id, DequeueSwap(s.dequeuePos));
    s3 := s.Move(id, DequeueRead(s.dequeuePos)).(dequeuePos := s.dequeuePos + 1);
    assert NextStep(s, s1, id, BeginDequeue) && NextStep(s1, s2, id, Continue) && NextStep(s2, s3, id, Continue);
  }

  lemma ReadAlone<T(!new)>(s0: State<T>, s: State<T>, id: nat, x: T) returns (s1: State<T>, s2: State<T>)
    requires s0.Wellformed() && id in s0.threads && s0.threads[id] == Idle && s0.At(s0.dequeuePos).data == x
    requires s == s0.Move(id, DequeueRead(s0.dequeuePos)).(dequeuePos := s0.dequeuePos + 1)
    ensures Next(s, s1) && Next(s1, s2) && Handed(s0, s2, s0.dequeuePos, x)
    ensures id in s1.threads && s1.threads[id] == DequeueRelease(s0.dequeuePos, x)
  {
    var (pos, c) := (s0.dequeuePos, s.Capacity());
    s1 := s.Move(id, DequeueRelease(pos, x)).(received := s.received[pos := x]);
    s2 := s1.Set(pos, Slot(pos + c, x)).Move(id, Idle);
    assert NextStep(s, s1, id, Continue);
    assert s1.At(pos).(sequence := pos + c) == Slot(pos + c, x);
    assert NextStep(s1, s2, id, Continue);
  }

  // Unless the queue is empty, a dequeue that nobody disturbs returns the item of the next ticket.
  lemma DequeueAlone<T(!new)>(s: State<T>, id: nat) returns (path: seq<State<T>>)
    requires Inv(s) && Settled(s) && id in s.threads && s.threads[id] == Idle && !Empty(s)
    ensures s.dequeuePos < |s.items| && Path(path) && |path| == 6 && path[0] == s
    ensures id in path[4].threads && path[4].threads[id] == DequeueRelease(s.dequeuePos, s.items[s.dequeuePos])
    ensures Handed(s, path[5], s.dequeuePos, s.items[s.dequeuePos])
  {
    PublishedItem(s);
    hide Inv, Settled, Empty, Next, Handed, Path;
    var s1, s2, s3 := ClaimAlone(s, id);
    var s4, s5 := ReadAlone(s, s3, id, s.items[s.dequeuePos]);
    path := [s, s1, s2, s3, s4, s5];
    PathOfSix(path);
  }
}
