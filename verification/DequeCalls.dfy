/**
  Whole calls of push, pop and steal on the work-stealing deque, from the step that begins a call to
  the step that ends it, whatever the other threads do in between: what a call delivers, and when it
  may come back with nothing.
*/
module DequeCalls {
  import opened Common
  import opened RingIndex
  import opened WorkStealingDeque

  // every run of a deque whose constructor was given a power of two
  ghost predicate GoodRun<T(!new)>(run: seq<State<T>>) {
    IsRun(run) && PowerOfTwo(run[0].arrays[0].Capacity())
  }

  lemma StepOf<T(!new)>(run: seq<State<T>>, k: nat) returns (step: Step<T>)
    requires GoodRun(run) && k + 1 < |run|
    ensures Inv(run[k]) && NextStep(run[k], run[k + 1], step)
    ensures Allowed(Live(run[k]), EffectOf(run[k], step))
    ensures Inv(run[k + 1]) && Live(run[k + 1]) == Apply(Live(run[k]), EffectOf(run[k], step))
  {
    InvHolds(run, k);
    hide Inv, Live, NextStep, Allowed, Apply, EffectOf;
    assert Next(run[k], run[k + 1]);
    step :| NextStep(run[k], run[k + 1], step);
    StepRefines(run[k], run[k + 1], step);
  }

  // The owner begins a call in state i and is back in state j.
  ghost predicate OwnerCall<T>(run: seq<State<T>>, i: nat, j: nat) {
    && i + 1 < j < |run| && run[i].owner == Idle && run[j].owner == Idle
    && forall k :: i < k < j ==> run[k].owner != Idle
  }

  // ---------------------------------------------------------------- push

  ghost predicate Pushing<T>(o: Owner<T>, x: T) {
    (o.PushLoadTop? || o.PushLoadArray? || o.PushGrow? || o.PushPut? || o.PushStoreBottom?) && o.x == x
  }

  lemma PushStep<T>(s: State<T>, s': State<T>, step: Step<T>, x: T)
    requires Wellformed(s) && NextStep(s, s', step) && Pushing(s.owner, x)
    ensures if s'.owner == Idle then
              s.owner.PushStoreBottom? && step.OwnerStep? && s'.pushed == s.pushed + multiset{x}
                && EffectOf(s, step) == Append(x)
            else
              Pushing(s'.owner, x) && s'.pushed == s.pushed
  {
    hide And;
  }

  lemma {:induction false} PushUnderway<T(!new)>(run: seq<State<T>>, i: nat, k: nat, x: T)
    requires GoodRun(run) && i < k < |run| && Pushing(run[i + 1].owner, x) && run[i].owner == Idle
    requires forall m :: i < m <= k ==> run[m].owner != Idle
    ensures Pushing(run[k].owner, x) && run[k].pushed == run[i].pushed
  {
    hide Inv, NextStep, Live, Pushing;
    if k == i + 1 {
      var step := StepOf(run, i);
      BeginPushStep(run[i], run[k], step, x);
    } else {
      PushUnderway(run, i, k - 1, x);
      var step := StepOf(run, k - 1);
      InvWellformed(run[k - 1]);
      PushStep(run[k - 1], run[k], step, x);
    }
  }

  lemma BeginPushStep<T>(s: State<T>, s': State<T>, step: Step<T>, x: T)
    requires Wellformed(s) && NextStep(s, s', step) && s.owner == Idle && Pushing(s'.owner, x)
    ensures s'.pushed == s.pushed
  {
  }

  lemma InvWellformed<T>(s: State<T>)
    requires Inv(s)
    ensures Wellformed(s)
  {
  }

  // A push appends its item, once, and with its last step.
  lemma PushDelivers<T(!new)>(run: seq<State<T>>, i: nat, j: nat, x: T)
    requires GoodRun(run) && OwnerCall(run, i, j) && Pushing(run[i + 1].owner, x)
    ensures run[j - 1].pushed == run[i].pushed && run[j].pushed == run[i].pushed + multiset{x}
    ensures Wellformed(run[j - 1]) && Wellformed(run[j]) && Live(run[j]) == Live(run[j - 1]) + [x]
  {
    hide Inv, NextStep, Live, Pushing;
    PushUnderway(run, i, j - 1, x);
    var step := StepOf(run, j - 1);
    InvWellformed(run[j - 1]);
    InvWellformed(run[j]);
    PushStep(run[j - 1], run[j], step, x);
  }

  // ---------------------------------------------------------------- pop

  ghost predicate Popping<T>(o: Owner<T>) {
    o.PopLoadArray? || o.PopStoreBottom? || o.PopLoadTop? || o.PopRead? || o.PopSwap? || o.PopRestore?
  }

  // the item that the owner's pop has taken and not returned yet
  ghost function Taken<T>(s: State<T>): Option<T>
    requires Wellformed(s)
  {
    match s.owner
    case PopRead(b, a, t) => if t < b && a < |s.arrays| then Some(s.arrays[a].Get(b)) else None
    case PopRestore(_, result) => result
    case _ => None
  }

  // x leaves the deque at its end
  ghost predicate TakesLast<T>(s: State<T>, s': State<T>, x: T) {
    Wellformed(s) && Wellformed(s') && Live(s) == Live(s') + [x]
  }

  // A step of pop takes the last item, or finds the deque empty, or returns what it has taken.
  lemma PopStep<T>(s: State<T>, s': State<T>, step: Step<T>)
    requires Inv(s) && NextStep(s, s', step) && Popping(s.owner) && Wellformed(s')
    requires Live(s') == Apply(Live(s), EffectOf(s, step)) && Allowed(Live(s), EffectOf(s, step))
    ensures s'.owner != Idle ==> Popping(s'.owner)
    ensures s'.owner != Idle && Taken(s').Some? ==> Taken(s') == Taken(s) || TakesLast(s, s', Taken(s').value)
    ensures s'.owner.PopRestore? && s'.owner.result.None? && s'.owner != s.owner ==> Live(s) == []
    ensures s'.owner == Idle ==>
      match Taken(s)
      case Some(x) => s'.returned == s.returned + multiset{x}
      case None => s'.returned == s.returned && s.owner.PopRestore?
  {
    hide And, Conserved, Masked, ThiefOk;
  }

  lemma {:induction false} PopUnderway<T(!new)>(run: seq<State<T>>, i: nat, k: nat)
    requires GoodRun(run) && i < k < |run| && run[i].owner == Idle && run[i + 1].owner.PopLoadArray?
    requires forall m :: i < m <= k ==> run[m].owner != Idle
    ensures Wellformed(run[k]) && Popping(run[k].owner)
    ensures Taken(run[k]).Some? ==> exists m :: i < m < k && TakesLast(run[m], run[m + 1], Taken(run[k]).value)
    ensures run[k].owner.PopRestore? && run[k].owner.result.None? ==>
      exists m :: i < m < k && Wellformed(run[m]) && Live(run[m]) == []
  {
    hide Inv, NextStep, Live, TakesLast;
    InvHolds(run, k);
    InvWellformed(run[k]);
    if k > i + 1 {
      PopUnderway(run, i, k - 1);
      var step := StepOf(run, k - 1);
      PopStep(run[k - 1], run[k], step);
    }
  }

  // A pop returns an item that it took from the end of the deque at one moment of the call; it
  // comes back with nothing only if the deque was empty at one moment of the call.
  lemma PopDelivers<T(!new)>(run: seq<State<T>>, i: nat, j: nat)
    requires GoodRun(run) && OwnerCall(run, i, j) && run[i + 1].owner.PopLoadArray?
    ensures Wellformed(run[j - 1])
    ensures match Taken(run[j - 1])
            case Some(x) =>
              && run[j].returned == run[j - 1].returned + multiset{x}
              && exists m :: i < m < j - 1 && TakesLast(run[m], run[m + 1], x)
            case None =>
              && run[j].returned == run[j - 1].returned
              && exists m :: i < m < j - 1 && Wellformed(run[m]) && Live(run[m]) == []
  {
    hide Inv, NextStep, Live, TakesLast;
    PopUnderway(run, i, j - 1);
    var step := StepOf(run, j - 1);
    InvWellformed(run[j]);
    PopStep(run[j - 1], run[j], step);
    if Taken(run[j - 1]).None? { PopEndsNot(run[j - 1]); }
  }

  lemma PopEndsNot<T>(s: State<T>)
    requires Wellformed(s) && s.owner.PopRestore? && Taken(s).None?
    ensures s.owner.result.None?
  {
  }

  // ---------------------------------------------------------------- steal

  // Thief id begins a steal in state i and is back in state j.
  ghost predicate StealCall<T>(run: seq<State<T>>, id: nat, i: nat, j: nat) {
    && i + 1 < j < |run| && (forall k :: i <= k <= j ==> id in run[k].thieves)
    && run[i].thieves[id] == Resting && run[j].thieves[id] == Resting
    && forall k :: i < k < j ==> run[k].thieves[id] != Resting
  }

  ghost function IndexOf<T>(thief: Thief<T>): int
    requires thief != Resting
  {
    thief.t
  }

  // the owner's pop is about to take the only item, if no thief is faster
  ghost predicate LastContested<T>(s: State<T>) {
    Wellformed(s) && |Live(s)| == 1 && (s.owner.PopLoadTop? || s.owner.PopRead? || s.owner.PopSwap?)
  }

  // nothing to steal at the index t: the deque is empty, or its only item is contested, or the item
  // at t has been taken
  ghost predicate NothingAt<T>(s: State<T>, t: int) {
    (Wellformed(s) && Live(s) == []) || LastContested(s) || s.top > t
  }

  ghost predicate TakesFirst<T>(s: State<T>, s': State<T>, x: T) {
    Wellformed(s) && Wellformed(s') && Live(s) == [x] + Live(s') && s'.returned == s.returned + multiset{x}
  }

  // The last step of a steal takes the first item, or there was nothing at its index.
  lemma StealEnds<T>(s: State<T>, s': State<T>, step: Step<T>, id: nat)
    requires Inv(s) && NextStep(s, s', step) && Wellformed(s') && id in s.thieves && id in s'.thieves
    requires s.thieves[id] != Resting && s'.thieves[id] == Resting
    requires Live(s') == Apply(Live(s), EffectOf(s, step)) && Allowed(Live(s), EffectOf(s, step))
    ensures match s.thieves[id]
            case Swap(t, x) => if s.top == t then TakesFirst(s, s', x) else s.top > t && s'.returned == s.returned
            case LoadBottom(t) => t >= s.bottom && NothingAt(s, t) && s'.returned == s.returned
            case _ => false
  {
    hide And, Conserved, Masked;
    assert ThiefOk(s, s.thieves[id]);
    assert step == ThiefStep(id);
  }

  // A thief that gives up before it has read anything, while top is where it saw it and the owner
  // is idle, has found an empty deque.
  lemma StealGivesUp<T>(s: State<T>, s': State<T>, step: Step<T>, id: nat)
    requires Inv(s) && NextStep(s, s', step) && id in s.thieves && id in s'.thieves
    requires s.thieves[id].LoadBottom? && s'.thieves[id] == Resting
    ensures s.thieves[id].t >= s.bottom
    ensures s.thieves[id].t == s.top && s.owner == Idle ==> Live(s) == []
  {
    hide And, Conserved, Masked, ThiefOk;
    assert step == ThiefStep(id);
  }

  lemma StealStep<T>(s: State<T>, s': State<T>, step: Step<T>, id: nat)
    requires Wellformed(s) && NextStep(s, s', step) && id in s.thieves && id in s'.thieves && s'.thieves[id] != Resting
    ensures s.thieves[id] == Resting ==> IndexOf(s'.thieves[id]) == s.top
    ensures s.thieves[id] != Resting ==> IndexOf(s'.thieves[id]) == IndexOf(s.thieves[id])
  {
    hide And;
  }

  lemma {:induction false} StealUnderway<T(!new)>(run: seq<State<T>>, id: nat, i: nat, k: nat)
    requires GoodRun(run) && i < k < |run| && (forall m :: i <= m <= k ==> id in run[m].thieves)
    requires run[i].thieves[id] == Resting && forall m :: i < m <= k ==> run[m].thieves[id] != Resting
    ensures IndexOf(run[k].thieves[id]) == run[i].top
    decreases k
  {
    hide Inv, NextStep, Live, IndexOf;
    if k > i + 1 { StealUnderway(run, id, i, k - 1); }
    var step := StepOf(run, k - 1);
    InvWellformed(run[k - 1]);
    StealStep(run[k - 1], run[k], step, id);
  }

  // A steal returns the item that is first in the deque when it ends. It comes back with nothing
  // only if then the deque is empty, or the owner is about to pop the only item, or top has moved
  // since the steal began, which is to say that another thread has taken an item meanwhile.
  lemma StealDelivers<T(!new)>(run: seq<State<T>>, id: nat, i: nat, j: nat)
    requires GoodRun(run) && StealCall(run, id, i, j)
    ensures if run[j].returned == run[j - 1].returned
            then NothingAt(run[j - 1], run[i].top)
            else run[j - 1].thieves[id].Swap? && TakesFirst(run[j - 1], run[j], run[j - 1].thieves[id].x)
  {
    hide Inv, NextStep, Live, NothingAt, IndexOf, TakesFirst;
    StealUnderway(run, id, i, j - 1);
    var step := StepOf(run, j - 1);
    InvWellformed(run[j]);
    StealEnds(run[j - 1], run[j], step, id);
    StealOutcome(run[j - 1], run[j], id, run[i].top);
  }

  lemma StealOutcome<T>(s: State<T>, s': State<T>, id: nat, t: int)
    requires id in s.thieves && s.thieves[id] != Resting && IndexOf(s.thieves[id]) == t
    requires match s.thieves[id]
             case Swap(t, x) => if s.top == t then TakesFirst(s, s', x) else s.top > t && s'.returned == s.returned
             case LoadBottom(t) => t >= s.bottom && NothingAt(s, t) && s'.returned == s.returned
             case _ => false
    ensures if s'.returned == s.returned
            then NothingAt(s, t)
            else s.thieves[id].Swap? && TakesFirst(s, s', s.thieves[id].x)
  {
    hide Live;
    if s.thieves[id].Swap? && s.top == t {
      var x := s.thieves[id].x;
      assert (s.returned + multiset{x})[x] == s.returned[x] + 1;
    }
  }

  // ---------------------------------------------------------------- every call ends

  // how many steps of its own a call of the owner still takes at most
  ghost function OwnerSteps<T>(s: State<T>): int
    requires Wellformed(s)
  {
    match s.owner
    case Idle => 0
    case PushLoadTop(_, _) => 5 + s.arrays[s.current].Capacity()
    case PushLoadArray(_, _, _) => 4 + s.arrays[s.current].Capacity()
    case PushGrow(_, b, _, i) => 3 + b - i
    case PushPut(_, _) => 2
    case PushStoreBottom(_, _) => 1
    case PopLoadArray(_) => 6
    case PopStoreBottom(_, _) => 5
    case PopLoadTop(_, _) => 4
    case PopRead(_, _, _) => 3
    case PopSwap(_, _) => 2
    case PopRestore(_, _) => 1
  }

  ghost function ThiefSteps<T>(thief: Thief<T>): int {
    match thief
    case Resting => 0
    case LoadBottom(_) => 4
    case LoadArray(_) => 3
    case Read(_, _) => 2
    case Swap(_, _) => 1
  }

  // A pop takes at most six steps, a push six and a capacity more, however the steps of the thieves
  // come in between; and these leave the number alone.
  lemma OwnerEnds<T>(s: State<T>, s': State<T>, step: Step<T>)
    requires Inv(s) && NextStep(s, s', step) && Wellformed(s') && s.owner != Idle
    ensures 0 <= OwnerSteps(s')
    ensures if step.OwnerStep? || step.Allocate? then OwnerSteps(s') < OwnerSteps(s)
      else OwnerSteps(s') == OwnerSteps(s)
  {
    hide And, Live, Conserved, Masked, ThiefOk;
  }

  // A steal takes at most four steps of its own.
  lemma ThiefEnds<T>(s: State<T>, s': State<T>, step: Step<T>, id: nat)
    requires Inv(s) && NextStep(s, s', step) && id in s.thieves && s.thieves[id] != Resting
    ensures id in s'.thieves
    ensures if step == ThiefStep(id) then ThiefSteps(s'.thieves[id]) < ThiefSteps(s.thieves[id])
            else s'.thieves[id] == s.thieves[id]
  {
    hide And, Live, Conserved, Masked, ThiefOk;
  }

  // A thread in the middle of a call can always take its next step, whatever the others do.
  lemma OwnerNeverWaits<T(!new)>(s: State<T>)
    requires Inv(s) && s.owner != Idle
    ensures exists s', step :: NextStep(s, s', step) && (step.OwnerStep? || step.Allocate?)
  {
    hide And, Live, Conserved, Masked, ThiefOk;
    var here := s.arrays[s.current];
    match s.owner
    case PushLoadArray(x, b, t) =>
      if b - t > here.Capacity() - 1 {
        var made := Arr(seq(2 * here.Capacity(), _ => x));
        assert NextStep(s, s.(arrays := s.arrays + [made], owner := PushGrow(x, b, t, t)), Allocate(made));
      } else {
        assert NextStep(s, s.(owner := PushPut(x, b)), OwnerStep);
      }
    case PushLoadTop(x, b) => assert NextStep(s, s.(owner := PushLoadArray(x, b, s.top)), OwnerStep);
    case PushGrow(x, b, t, i) =>
      var n := s.current + 1;
      if i < b {
        assert NextStep(s, s.(arrays := s.arrays[n := s.arrays[n].Put(i, here.Get(i))],
                              owner := PushGrow(x, b, t, i + 1)),
                        OwnerStep);
      } else {
        assert NextStep(s, s.(current := n, owner := PushPut(x, b)), OwnerStep);
      }
    case PushPut(x, b) =>
      assert NextStep(s, s.(arrays := s.arrays[s.current := here.Put(b, x)], owner := PushStoreBottom(x, b)),
        OwnerStep);
    case PushStoreBottom(x, b) =>
      assert NextStep(s, s.(bottom := b + 1, pushed := s.pushed + multiset{x}, owner := Idle), OwnerStep);
    case _ => PopNeverWaits(s);
  }

  lemma PopNeverWaits<T(!new)>(s: State<T>)
    requires Inv(s) && Popping(s.owner)
    ensures exists s' :: NextStep(s, s', OwnerStep)
  {
    hide And, Live, Conserved, Masked, ThiefOk;
    match s.owner
    case PopLoadArray(b) => assert NextStep(s, s.(owner := PopStoreBottom(b, s.current)), OwnerStep);
    case PopStoreBottom(b, a) => assert NextStep(s, s.(bottom := b, owner := PopLoadTop(b, a)), OwnerStep);
    case PopLoadTop(b, a) =>
      assert NextStep(s, s.(owner := if s.top <= b then PopRead(b, a, s.top) else PopRestore(b, None)), OwnerStep);
    case PopRead(b, a, t) =>
      var x := s.arrays[a].Get(b);
      assert NextStep(s, if t == b then s.(owner := PopSwap(b, x))
                         else s.(owner := Idle, returned := s.returned + multiset{x}), OwnerStep);
    case PopSwap(b, x) =>
      assert NextStep(s, if s.top == b then s.(top := b + 1, owner := PopRestore(b, Some(x)))
                         else s.(owner := PopRestore(b, None)), OwnerStep);
    case PopRestore(b, result) =>
      assert NextStep(s, s.(bottom := b + 1, owner := Idle,
                            returned := if result.Some? then s.returned + multiset{result.value} else s.returned),
                      OwnerStep);
  }

  lemma ThiefNeverWaits<T(!new)>(s: State<T>, id: nat)
    requires Inv(s) && id in s.thieves && s.thieves[id] != Resting
    ensures exists s' :: NextStep(s, s', ThiefStep(id))
  {
    hide And, Live, Conserved, Masked;
    assert ThiefOk(s, s.thieves[id]);
    match s.thieves[id]
    case LoadBottom(t) =>
      assert NextStep(s, s.(thieves := s.thieves[id := if t >= s.bottom then Resting else LoadArray(t)]),
        ThiefStep(id));
    case LoadArray(t) => assert NextStep(s, s.(thieves := s.thieves[id := Read(t, s.current)]), ThiefStep(id));
    case Read(t, a) =>
      assert NextStep(s, s.(thieves := s.thieves[id := Swap(t, s.arrays[a].Get(t))]), ThiefStep(id));
    case Swap(t, x) =>
      assert NextStep(s, if s.top == t
                         then s.(top := t + 1, thieves := s.thieves[id := Resting],
                           returned := s.returned + multiset{x})
                         else s.(thieves := s.thieves[id := Resting]), ThiefStep(id));
  }
}
