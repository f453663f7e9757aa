/**
  The work-stealing deque of utils/work_stealing_deque.hpp as a transition system: one owner that
  pushes and pops at the bottom, any number of thieves that steal at the top, and one atomic load,
  store or compare-and-swap, or one access to an array cell, per step. Steps of different threads
  interleave in every way, and every thread sees every store at once (sequential consistency).

  The cell of an index is its bitwise and with the capacity less one, whatever the capacity is. The
  constructor takes any capacity; the deque loses items exactly if it is not a power of two.
  Arrays that grow has replaced are never freed.
*/
module WorkStealingDeque {
  import opened Common
  import opened RingIndex

  datatype Arr<T> = Arr(cells: seq<T>) {
    predicate Valid() { cells != [] }

    function Capacity(): nat { |cells| }

    function Get(i: int): T
      requires Valid()
    {
      cells[And(i, |cells| - 1)]
    }

    function Put(i: int, x: T): Arr<T>
      requires Valid()
    {
      Arr(cells[And(i, |cells| - 1) := x])
    }
  }

  // Where the owner is: each constructor names the operation in progress, holds its local
  // variables and stands before the step described.
  datatype Owner<T> =
    | Idle
    | PushLoadTop(x: T, b: int)
    | PushLoadArray(x: T, b: int, t: int)
    | PushGrow(x: T, b: int, t: int, i: int)        // copies cell i, or publishes the new array
    | PushPut(x: T, b: int)
    | PushStoreBottom(x: T, b: int)
    | PopLoadArray(b: int)
    | PopStoreBottom(b: int, a: nat)
    | PopLoadTop(b: int, a: nat)
    | PopRead(b: int, a: nat, t: int)
    | PopSwap(b: int, x: T)                         // compare-and-swap of top from b to b + 1
    | PopRestore(b: int, result: Option<T>)         // bottom goes back to b + 1

  datatype Thief<T> =
    | Resting
    | LoadBottom(t: int)
    | LoadArray(t: int)
    | Read(t: int, a: nat)
    | Swap(t: int, x: T)                            // compare-and-swap of top from t to t + 1

  datatype State<T(==)> = State(
    top: int,
    bottom: int,
    current: nat,            // array_
    arrays: seq<Arr<T>>,     // every array allocated so far
    owner: Owner<T>,
    thieves: map<nat, Thief<T>>,
    pushed: multiset<T>,     // items whose push has stored bottom
    returned: multiset<T>)   // items returned by pop or steal

  // ---------------------------------------------------------------- steps

  datatype Step<T> =
    | BeginPush(x: T)
    | BeginPop
    | OwnerStep
    | Allocate(made: Arr<T>)   // grow: the new array, with arbitrary contents
    | BeginSteal(id: nat)
    | ThiefStep(id: nat)

  ghost predicate Init<T>(s: State<T>) {
    && s.top == s.bottom == 1
    && s.current == 0 && |s.arrays| == 1 && s.arrays[0].Valid()
    && s.owner == Idle
    && (forall id :: id in s.thieves ==> s.thieves[id] == Resting)
    && s.pushed == s.returned == multiset{}
  }

  ghost predicate OwnerNext<T>(s: State<T>, s': State<T>)
    requires Wellformed(s)
  {
    var here := s.arrays[s.current];
    match s.owner
    case Idle => false
    case PushLoadTop(x, b) => s' == s.(owner := PushLoadArray(x, b, s.top))
    case PushLoadArray(x, b, t) =>
      b - t <= here.Capacity() - 1 && s' == s.(owner := PushPut(x, b))
    case PushGrow(x, b, t, i) =>
      && s.current + 1 < |s.arrays|
      && if i < b then
           s' == s.(arrays := s.arrays[s.current + 1 := s.arrays[s.current + 1].Put(i, here.Get(i))],
                    owner := PushGrow(x, b, t, i + 1))
         else
           s' == s.(current := s.current + 1, owner := PushPut(x, b))
    case PushPut(x, b) =>
      s' == s.(arrays := s.arrays[s.current := here.Put(b, x)], owner := PushStoreBottom(x, b))
    case PushStoreBottom(x, b) =>
      s' == s.(bottom := b + 1, pushed := s.pushed + multiset{x}, owner := Idle)
    case PopLoadArray(b) => s' == s.(owner := PopStoreBottom(b, s.current))
    case PopStoreBottom(b, a) => s' == s.(bottom := b, owner := PopLoadTop(b, a))
    case PopLoadTop(b, a) =>
      s' == s.(owner := if s.top <= b then PopRead(b, a, s.top) else PopRestore(b, None))
    case PopRead(b, a, t) =>
      && a < |s.arrays|
      && var x := s.arrays[a].Get(b);
         s' == if t == b then s.(owner := PopSwap(b, x)) else s.(owner := Idle, returned := s.returned + multiset{x})
    case PopSwap(b, x) =>
      s' == if s.top == b then s.(top := b + 1, owner := PopRestore(b, Some(x))) else s.(owner := PopRestore(b, None))
    case PopRestore(b, result) =>
      s' == s.(bottom := b + 1, owner := Idle,
               returned := if result.Some? then s.returned + multiset{result.value} else s.returned)
  }

  ghost predicate ThiefNext<T>(s: State<T>, s': State<T>, id: nat)
    requires Wellformed(s)
  {
    && id in s.thieves
    && match s.thieves[id]
       case Resting => false
       case LoadBottom(t) =>
         s' == s.(thieves := s.thieves[id := if t >= s.bottom then Resting else LoadArray(t)])
       case LoadArray(t) => s' == s.(thieves := s.thieves[id := Read(t, s.current)])
       case Read(t, a) => a < |s.arrays| && s' == s.(thieves := s.thieves[id := Swap(t, s.arrays[a].Get(t))])
       case Swap(t, x) =>
         s' == if s.top == t
               then s.(top := t + 1, thieves := s.thieves[id := Resting], returned := s.returned + multiset{x})
               else s.(thieves := s.thieves[id := Resting])
  }

  ghost predicate NextStep<T>(s: State<T>, s': State<T>, step: Step<T>)
    requires Wellformed(s)
  {
    match step
    case BeginPush(x) => s.owner == Idle && s' == s.(owner := PushLoadTop(x, s.bottom))
    case BeginPop => s.owner == Idle && s' == s.(owner := PopLoadArray(s.bottom - 1))
    case OwnerStep => OwnerNext(s, s')
    case Allocate(made) =>
      && s.owner.PushLoadArray? && s.owner.b - s.owner.t > s.arrays[s.current].Capacity() - 1
      && made.Capacity() == 2 * s.arrays[s.current].Capacity()
      && s' == s.(arrays := s.arrays + [made], owner := PushGrow(s.owner.x, s.owner.b, s.owner.t, s.owner.t))
    case BeginSteal(id) =>
      id in s.thieves && s.thieves[id] == Resting && s' == s.(thieves := s.thieves[id := LoadBottom(s.top)])
    case ThiefStep(id) => ThiefNext(s, s', id)
  }

  ghost predicate Wellformed<T>(s: State<T>) {
    && s.current < |s.arrays|
    && forall a :: 0 <= a < |s.arrays| ==> s.arrays[a].Valid()
  }

  ghost predicate Next<T(!new)>(s: State<T>, s': State<T>) {
    Wellformed(s) && exists step :: NextStep(s, s', step)
  }

  // ---------------------------------------------------------------- the deque it stands for

  // A pop lowers bottom before it owns the item. The item counts as present until top shows
  // that no thief can take it, or until the swap decides.
  ghost function Bottom<T>(s: State<T>): int {
    match s.owner
    case PopLoadTop(_, _) => s.bottom + 1
    case PopRead(b, _, t) => if t == b then s.bottom + 1 else s.bottom
    case PopSwap(_, _) => s.bottom + 1
    case PopRestore(_, _) => s.bottom + 1
    case _ => s.bottom
  }

  // the items in the deque, top first
  ghost function Live<T>(s: State<T>): (r: seq<T>)
    requires Wellformed(s)
    ensures |r| == if s.top <= Bottom(s) then Bottom(s) - s.top else 0
    ensures forall j :: 0 <= j < |r| ==> r[j] == s.arrays[s.current].Get(s.top + j)
  {
    seq(if s.top <= Bottom(s) then Bottom(s) - s.top else 0, j => s.arrays[s.current].Get(s.top + j))
  }

  // what the owner's pop has taken but not returned yet
  ghost function InFlight<T>(s: State<T>): multiset<T>
    requires Wellformed(s)
  {
    match s.owner
    case PopRead(b, a, t) => if t < b && a < |s.arrays| then multiset{s.arrays[a].Get(b)} else multiset{}
    case PopRestore(_, result) => if result.Some? then multiset{result.value} else multiset{}
    case _ => multiset{}
  }

  // ---------------------------------------------------------------- invariant

  ghost predicate OwnerOk<T>(s: State<T>)
    requires Wellformed(s)
  {
    var here := s.arrays[s.current];
    var cap := here.Capacity();
    match s.owner
    case Idle => true
    case PushLoadTop(_, b) => b == s.bottom
    case PushLoadArray(_, b, t) => b == s.bottom && t <= s.top && b - t <= cap
    case PushGrow(_, b, t, i) =>
      && b == s.bottom && t <= s.top && b - t <= cap && t <= i <= b && s.current + 1 < |s.arrays|
      && s.arrays[s.current + 1].Capacity() == 2 * cap
      && forall j :: t <= j < i ==> s.arrays[s.current + 1].Get(j) == here.Get(j)
    case PushPut(_, b) => b == s.bottom && b - s.top < cap
    case PushStoreBottom(x, b) => b == s.bottom && b - s.top < cap && here.Get(b) == x
    case PopLoadArray(b) => b == s.bottom - 1
    case PopStoreBottom(b, a) => b == s.bottom - 1 && a == s.current
    case PopLoadTop(b, a) => b == s.bottom && a == s.current
    case PopRead(b, a, t) => b == s.bottom && a == s.current && t <= s.top && t <= b
    case PopSwap(b, x) => b == s.bottom && b <= s.top && (s.top == b ==> here.Get(b) == x)
    case PopRestore(b, _) => b == s.bottom && s.top == b + 1
  }

  // A thief's index is not ahead of top; if it is still top, the item is there and is the one
  // the thief has read or will read.
  ghost predicate ThiefOk<T>(s: State<T>, thief: Thief<T>)
    requires Wellformed(s)
  {
    var here := s.arrays[s.current];
    match thief
    case Resting => true
    case LoadBottom(t) => t <= s.top
    case LoadArray(t) => t <= s.top && (t == s.top ==> t < Bottom(s))
    case Read(t, a) =>
      t <= s.top && a <= s.current && (t == s.top ==> t < Bottom(s) && s.arrays[a].Get(t) == here.Get(t))
    case Swap(t, x) => t <= s.top && (t == s.top ==> t < Bottom(s) && x == here.Get(t))
  }

  ghost predicate Bounds<T>(s: State<T>)
    requires Wellformed(s)
  {
    && s.top <= Bottom(s) && Bottom(s) - s.top <= s.arrays[s.current].Capacity()
    && |s.arrays| == s.current + (if s.owner.PushGrow? then 2 else 1)
  }

  // every mask selects the low bits of an index
  ghost predicate Masked<T>(s: State<T>) {
    forall a :: 0 <= a < |s.arrays| ==> PowerOfTwo(s.arrays[a].Capacity())
  }

  // Every item pushed has been returned, or is in the deque, or in the owner's hands; none twice.
  ghost predicate Conserved<T>(s: State<T>)
    requires Wellformed(s)
  {
    s.pushed == s.returned + multiset(Live(s)) + InFlight(s)
  }

  ghost predicate Inv<T>(s: State<T>) {
    && Wellformed(s) && Bounds(s) && OwnerOk(s) && Conserved(s) && Masked(s)
    && forall id {:trigger s.thieves[id]} :: id in s.thieves ==> ThiefOk(s, s.thieves[id])
  }

  // ---------------------------------------------------------------- slots

  lemma PutGet<T>(a: Arr<T>, i: int, x: T, j: int)
    requires a.Valid() && PowerOfTwo(a.Capacity()) && i != j && i - j < a.Capacity() && j - i < a.Capacity()
    ensures a.Put(i, x).Valid() && a.Put(i, x).Get(i) == x && a.Put(i, x).Get(j) == a.Get(j)
  {
    MaskIsRemainder(i, a.Capacity());
    MaskIsRemainder(j, a.Capacity());
    if i < j { DifferentCells(i, j, a.Capacity()); } else { DifferentCells(j, i, a.Capacity()); }
  }

  // ---------------------------------------------------------------- steps and the deque

  // What a step does to the items in the deque.
  datatype Effect<T> = Nothing | Append(x: T) | TakeLast(x: T) | TakeFirst(x: T)

  ghost function Apply<T>(q: seq<T>, e: Effect<T>): seq<T> {
    match e
    case Nothing => q
    case Append(x) => q + [x]
    case TakeLast(x) => if q == [] then q else q[..|q| - 1]
    case TakeFirst(x) => if q == [] then q else q[1..]
  }

  // The item taken is the one at that end.
  ghost predicate Allowed<T>(q: seq<T>, e: Effect<T>) {
    match e
    case Nothing => true
    case Append(_) => true
    case TakeLast(x) => q != [] && q[|q| - 1] == x
    case TakeFirst(x) => q != [] && q[0] == x
  }

  ghost function EffectOf<T>(s: State<T>, step: Step<T>): Effect<T>
    requires Wellformed(s)
  {
    match step
    case OwnerStep => (
      match s.owner
      case PushStoreBottom(x, _) => Append(x)
      case PopLoadTop(b, a) => if s.top < b && a < |s.arrays| then TakeLast(s.arrays[a].Get(b)) else Nothing
      case PopSwap(b, x) => if s.top == b then TakeFirst(x) else Nothing
      case _ => Nothing)
    case ThiefStep(id) =>
      if id in s.thieves && s.thieves[id].Swap? && s.thieves[id].t == s.top then TakeFirst(s.thieves[id].x) else Nothing
    case _ => Nothing
  }

  lemma LiveIs<T>(s: State<T>, q: seq<T>)
    requires Wellformed(s) && s.top <= Bottom(s) && |q| == Bottom(s) - s.top
    requires forall j :: 0 <= j < |q| ==> q[j] == s.arrays[s.current].Get(s.top + j)
    ensures Live(s) == q
  {
  }

  // ---------------------------------------------------------------- the owner's steps

  // grow copies one item
  lemma CopyKeeps<T>(s: State<T>, s': State<T>)
    requires Inv(s) && OwnerNext(s, s') && s.owner.PushGrow? && s.owner.i < s.owner.b
    ensures Wellformed(s') && Bounds(s') && OwnerOk(s') && Live(s') == Live(s)
  {
    hide And, PowerOfTwo, ThiefOk, Conserved;
    var (t, i) := (s.owner.t, s.owner.i);
    var here, made := s.arrays[s.current], s.arrays[s.current + 1];
    forall j | t <= j < i
      ensures made.Put(i, here.Get(i)).Get(j) == here.Get(j)
    {
      PutGet(made, i, here.Get(i), j);
    }
    LiveIs(s', Live(s));
  }

  // The grown array takes the place of the full one.
  lemma ReplaceKeeps<T>(s: State<T>, s': State<T>)
    requires Inv(s) && OwnerNext(s, s') && s.owner.PushGrow? && s.owner.i >= s.owner.b
    ensures Wellformed(s') && Bounds(s') && OwnerOk(s') && Live(s') == Live(s)
  {
    assert s.owner.b - s.top <= s.arrays[s.current].Capacity();
    LiveIs(s', Live(s));
  }

  lemma GrowKeeps<T>(s: State<T>, s': State<T>)
    requires Inv(s) && OwnerNext(s, s') && s.owner.PushGrow?
    ensures Wellformed(s') && Bounds(s') && OwnerOk(s') && Live(s') == Live(s)
  {
    hide *;
    if s.owner.i < s.owner.b { CopyKeeps(s, s'); } else { ReplaceKeeps(s, s'); }
  }

  lemma PutKeeps<T>(s: State<T>, s': State<T>)
    requires Inv(s) && OwnerNext(s, s') && s.owner.PushPut?
    ensures Wellformed(s') && Bounds(s') && OwnerOk(s') && Live(s') == Live(s)
  {
    var (here, b, x, q) := (s.arrays[s.current], s.owner.b, s.owner.x, Live(s));
    forall j | 0 <= j < |q|
      ensures q[j] == here.Put(b, x).Get(s.top + j)
    {
      PutGet(here, b, x, s.top + j);
    }
    assert here.Put(b, x).Get(b) == x;
    LiveIs(s', q);
  }

  lemma StoreBottomKeeps<T>(s: State<T>, s': State<T>)
    requires Inv(s) && OwnerNext(s, s') && s.owner.PushStoreBottom?
    ensures Wellformed(s') && Bounds(s') && OwnerOk(s') && Live(s') == Live(s) + [s.owner.x]
  {
    LiveIs(s', Live(s) + [s.owner.x]);
  }

  lemma PushKeeps<T>(s: State<T>, s': State<T>)
    requires Inv(s) && OwnerNext(s, s') && (s.owner.PushLoadTop? || s.owner.PushLoadArray?)
    ensures Wellformed(s') && Bounds(s') && OwnerOk(s') && Live(s') == Live(s)
  {
    LiveIs(s', Live(s));
  }

  lemma PopLoadTopKeeps<T>(s: State<T>, s': State<T>)
    requires Inv(s) && OwnerNext(s, s') && s.owner.PopLoadTop?
    ensures Wellformed(s') && Bounds(s') && OwnerOk(s')
    ensures if s.top < s.owner.b then Live(s) != [] && Live(s') == Live(s)[..|Live(s)| - 1]
              && s.owner.a == s.current && Live(s)[|Live(s)| - 1] == s.arrays[s.current].Get(s.owner.b)
            else Live(s') == Live(s) && (s.top > s.owner.b ==> Live(s) == [])
  {
    hide And, ThiefOk, Conserved, Masked;
    if s.top < s.owner.b {
      LiveIs(s', Live(s)[..|Live(s)| - 1]);
    } else {
      LiveIs(s', Live(s));
    }
  }

  lemma PopSwapKeeps<T>(s: State<T>, s': State<T>)
    requires Inv(s) && OwnerNext(s, s') && s.owner.PopSwap?
    ensures Wellformed(s') && Bounds(s') && OwnerOk(s')
    ensures if s.top == s.owner.b then Live(s) == [s.owner.x] && Live(s') == [] else Live(s) == [] && Live(s') == []
  {
    if s.top == s.owner.b { LiveIs(s, [s.owner.x]); }
  }

  lemma PopKeeps<T>(s: State<T>, s': State<T>)
    requires Inv(s) && OwnerNext(s, s')
    requires s.owner.PopLoadArray? || s.owner.PopStoreBottom? || s.owner.PopRead? || s.owner.PopRestore?
    ensures Wellformed(s') && Bounds(s') && OwnerOk(s') && Live(s') == Live(s)
  {
    LiveIs(s', Live(s));
  }

  lemma OwnerKeeps<T>(s: State<T>, s': State<T>)
    requires Inv(s) && OwnerNext(s, s')
    ensures Wellformed(s') && Bounds(s') && OwnerOk(s')
    ensures Allowed(Live(s), EffectOf(s, OwnerStep)) && Live(s') == Apply(Live(s), EffectOf(s, OwnerStep))
  {
    hide Live, Bounds, OwnerOk, Conserved, ThiefOk, InFlight, Bottom;
    match s.owner
    case Idle =>
    case PushLoadTop(_, _) => PushKeeps(s, s');
    case PushLoadArray(_, _, _) => PushKeeps(s, s');
    case PushGrow(_, _, _, _) => GrowKeeps(s, s');
    case PushPut(_, _) => PutKeeps(s, s');
    case PushStoreBottom(_, _) => StoreBottomKeeps(s, s');
    case PopLoadArray(_) => PopKeeps(s, s');
    case PopStoreBottom(_, _) => PopKeeps(s, s');
    case PopLoadTop(_, _) => PopLoadTopKeeps(s, s');
    case PopRead(_, _, _) => PopKeeps(s, s');
    case PopSwap(_, _) => PopSwapKeeps(s, s');
    case PopRestore(_, _) => PopKeeps(s, s');
  }

  // The item at top stays where it is, in every published array: the owner writes only above
  // bottom, or into an array nobody else knows.
  lemma TopCellKept<T>(s: State<T>, s': State<T>, a: nat)
    requires Inv(s) && OwnerNext(s, s') && Wellformed(s') && s.top < Bottom(s) && a <= s.current
    ensures s.current <= s'.current && a < |s'.arrays|
    ensures s'.arrays[a].Get(s.top) == s.arrays[a].Get(s.top)
    ensures s'.arrays[s'.current].Get(s.top) == s.arrays[s.current].Get(s.top)
  {
    match s.owner
    case PushPut(x, b) => PutGet(s.arrays[s.current], b, x, s.top);
    case PushGrow(x, b, t, i) =>
    case _ =>
  }

  // As long as no thief moves top, the item at top is not popped.
  lemma TopStaysBelowBottom<T>(s: State<T>, s': State<T>)
    requires Inv(s) && OwnerNext(s, s') && s.top < Bottom(s) && s'.top == s.top
    ensures s'.top < Bottom(s')
  {
  }

  lemma TopGrows<T>(s: State<T>, s': State<T>)
    requires Inv(s) && OwnerNext(s, s')
    ensures s.top <= s'.top
  {
  }

  lemma OwnerKeepsThief<T>(s: State<T>, s': State<T>, thief: Thief<T>)
    requires Inv(s) && OwnerNext(s, s') && Wellformed(s') && ThiefOk(s, thief)
    ensures ThiefOk(s', thief)
  {
    hide Inv, OwnerNext, Bottom;
    TopGrows(s, s');
    if !thief.Resting? && !thief.LoadBottom? {
      if thief.t == s.top {
        TopCellKept(s, s', if thief.Read? then thief.a else s.current);
        if s'.top == s.top { TopStaysBelowBottom(s, s'); }
      } else if thief.Read? {
        CurrentGrows(s, s');
      }
    }
  }

  lemma CurrentGrows<T>(s: State<T>, s': State<T>)
    requires Inv(s) && OwnerNext(s, s')
    ensures s.current <= s'.current
  {
  }

  // ---------------------------------------------------------------- the thieves' steps

  lemma StealKeeps<T>(s: State<T>, s': State<T>, id: nat)
    requires Inv(s) && ThiefNext(s, s', id) && s.thieves[id].Swap? && s.thieves[id].t == s.top
    ensures Wellformed(s') && Bounds(s') && OwnerOk(s')
    ensures Live(s) != [] && Live(s)[0] == s.thieves[id].x && Live(s') == Live(s)[1..]
  {
    assert ThiefOk(s, s.thieves[id]);
    LiveIs(s', Live(s)[1..]);
  }

  // Only the thieves' own places change.
  lemma SameDeque<T>(s: State<T>, s': State<T>)
    requires Wellformed(s) && Bounds(s) && OwnerOk(s) && s' == s.(thieves := s'.thieves)
    ensures Wellformed(s') && Bounds(s') && OwnerOk(s') && Live(s') == Live(s) && InFlight(s') == InFlight(s)
  {
  }

  lemma ThiefEffect<T>(s: State<T>, s': State<T>, id: nat)
    requires Wellformed(s) && ThiefNext(s, s', id)
    ensures id in s.thieves
    ensures var takes := s.thieves[id].Swap? && s.thieves[id].t == s.top;
      && EffectOf(s, ThiefStep(id)) == (if takes then TakeFirst(s.thieves[id].x) else Nothing)
      && (!takes ==> s' == s.(thieves := s'.thieves))
  {
  }

  // A thief takes the first item, or changes nothing but its own place.
  lemma ThiefKeeps<T>(s: State<T>, s': State<T>, id: nat)
    requires Inv(s) && ThiefNext(s, s', id)
    ensures Wellformed(s') && Bounds(s') && OwnerOk(s')
    ensures Allowed(Live(s), EffectOf(s, ThiefStep(id))) && Live(s') == Apply(Live(s), EffectOf(s, ThiefStep(id)))
  {
    hide Bounds, OwnerOk, Live, ThiefOk, Conserved, EffectOf, ThiefNext;
    ThiefEffect(s, s', id);
    if s.thieves[id].Swap? && s.thieves[id].t == s.top {
      StealKeeps(s, s', id);
    } else {
      SameDeque(s, s');
    }
  }

  lemma ThiefKeepsThief<T>(s: State<T>, s': State<T>, id: nat, other: nat)
    requires Inv(s) && ThiefNext(s, s', id) && Wellformed(s') && other in s'.thieves
    ensures ThiefOk(s', s'.thieves[other])
  {
    assert ThiefOk(s, s.thieves[id]);
    assert other in s.thieves && ThiefOk(s, s.thieves[other]);
  }

  // ---------------------------------------------------------------- conservation

  // what a step adds to and takes from the three places an item can be
  lemma EffectOnItems<T>(q: seq<T>, e: Effect<T>)
    requires Allowed(q, e)
    ensures match e
            case Nothing => Apply(q, e) == q
            case Append(x) => multiset(Apply(q, e)) == multiset(q) + multiset{x}
            case TakeLast(x) => multiset(q) == multiset(Apply(q, e)) + multiset{x}
            case TakeFirst(x) => multiset(q) == multiset(Apply(q, e)) + multiset{x}
  {
    match e
    case TakeLast(x) => assert q == q[..|q| - 1] + [x];
    case TakeFirst(x) => assert q == [x] + q[1..];
    case _ =>
  }

  // What a step does to the items pushed, returned and held by the owner, given its effect.
  ghost predicate Accounted<T>(s: State<T>, s': State<T>, e: Effect<T>)
    requires Wellformed(s) && Wellformed(s')
  {
    match e
    case Nothing => s'.pushed == s.pushed && s'.returned + InFlight(s') == s.returned + InFlight(s)
    case Append(x) => s'.pushed == s.pushed + multiset{x} && s'.returned + InFlight(s') == s.returned + InFlight(s)
    case TakeLast(x) => s'.pushed == s.pushed && s'.returned + InFlight(s') == s.returned + InFlight(s) + multiset{x}
    case TakeFirst(x) => s'.pushed == s.pushed && s'.returned + InFlight(s') == s.returned + InFlight(s) + multiset{x}
  }

  lemma OwnerAccounts<T>(s: State<T>, s': State<T>)
    requires Wellformed(s) && OwnerOk(s) && OwnerNext(s, s') && Wellformed(s')
    ensures Accounted(s, s', EffectOf(s, OwnerStep))
  {
    hide OwnerOk, InFlight;
    if s.owner.PopLoadTop? || s.owner.PopSwap? {
      PopTakes(s, s');
    } else if s.owner.PopRead? || s.owner.PopRestore? {
      PopReturns(s, s');
    } else {
      OwnerHoldsNothing(s, s');
    }
  }

  lemma PopTakes<T>(s: State<T>, s': State<T>)
    requires Wellformed(s) && OwnerOk(s) && OwnerNext(s, s') && Wellformed(s')
      && (s.owner.PopLoadTop? || s.owner.PopSwap?)
    ensures s'.pushed == s.pushed && s'.returned == s.returned && InFlight(s) == multiset{}
    ensures match EffectOf(s, OwnerStep)
            case TakeLast(x) => InFlight(s') == multiset{x}
            case TakeFirst(x) => InFlight(s') == multiset{x}
            case _ => InFlight(s') == multiset{}
  {
  }

  lemma PopReturns<T>(s: State<T>, s': State<T>)
    requires Wellformed(s) && OwnerOk(s) && OwnerNext(s, s') && Wellformed(s')
      && (s.owner.PopRead? || s.owner.PopRestore?)
    ensures s'.pushed == s.pushed && s'.returned == s.returned + InFlight(s) && InFlight(s') == multiset{}
  {
  }

  lemma OwnerHoldsNothing<T>(s: State<T>, s': State<T>)
    requires Wellformed(s) && OwnerNext(s, s') && Wellformed(s')
    requires !(s.owner.PopLoadTop? || s.owner.PopRead? || s.owner.PopSwap? || s.owner.PopRestore?)
    ensures InFlight(s) == InFlight(s') == multiset{} && s'.returned == s.returned
    ensures s'.pushed == if s.owner.PushStoreBottom? then s.pushed + multiset{s.owner.x} else s.pushed
  {
  }

  lemma ThiefAccounts<T>(s: State<T>, s': State<T>, id: nat)
    requires Wellformed(s) && ThiefNext(s, s', id) && Wellformed(s')
    ensures Accounted(s, s', EffectOf(s, ThiefStep(id)))
  {
    assert InFlight(s') == InFlight(s);
    if s.thieves[id].Swap? && s.thieves[id].t == s.top {
      var x := s.thieves[id].x;
      assert s.returned + multiset{x} + InFlight(s) == s.returned + InFlight(s) + multiset{x};
    }
  }

  lemma Reorder<T>(r: multiset<T>, m: multiset<T>, i: multiset<T>)
    ensures r + m + i == (r + i) + m
  {
  }

  lemma Conserves<T>(s: State<T>, s': State<T>, e: Effect<T>)
    requires Wellformed(s) && Conserved(s) && Wellformed(s') && Accounted(s, s', e)
    requires Allowed(Live(s), e) && Live(s') == Apply(Live(s), e)
    ensures Conserved(s')
  {
    hide Live, InFlight;
    EffectOnItems(Live(s), e);
    Reorder(s.returned, multiset(Live(s)), InFlight(s));
    Reorder(s'.returned, multiset(Live(s')), InFlight(s'));
  }

  // ---------------------------------------------------------------- every step

  // Arrays keep their capacity, and a grown one has twice the capacity.
  lemma MasksStay<T>(s: State<T>, s': State<T>, step: Step<T>)
    requires Wellformed(s) && Masked(s) && NextStep(s, s', step)
    ensures Masked(s')
  {
    hide And;
    if step.Allocate? {
      var c := s.arrays[s.current].Capacity();
      assert 2 * c / 2 == c && PowerOfTwo(2 * c);
    }
  }

  lemma BeginKeepsDeque<T>(s: State<T>, s': State<T>, step: Step<T>)
    requires Inv(s) && NextStep(s, s', step) && !step.OwnerStep? && !step.ThiefStep?
    ensures Wellformed(s') && Bounds(s') && OwnerOk(s') && Conserved(s') && Live(s') == Live(s)
  {
    hide ThiefOk, And, Masked, PowerOfTwo;
    LiveIs(s', Live(s));
  }

  // Starting an operation, or allocating an array, does not touch the deque.
  lemma BeginKeeps<T>(s: State<T>, s': State<T>, step: Step<T>)
    requires Inv(s) && NextStep(s, s', step) && !step.OwnerStep? && !step.ThiefStep?
    ensures Inv(s') && Live(s') == Live(s)
  {
    BeginKeepsDeque(s, s', step);
    MasksStay(s, s', step);
    hide Bounds, OwnerOk, Live, Conserved;
    forall id | id in s'.thieves
      ensures ThiefOk(s', s'.thieves[id])
    {
      assert id in s.thieves && ThiefOk(s, s.thieves[id]);
    }
  }

  // Every step keeps the invariant, and acts on the items as one operation of a sequential deque.
  lemma StepRefines<T>(s: State<T>, s': State<T>, step: Step<T>)
    requires Inv(s) && NextStep(s, s', step)
    ensures Inv(s')
    ensures Allowed(Live(s), EffectOf(s, step)) && Live(s') == Apply(Live(s), EffectOf(s, step))
  {
    hide Live, Bounds, OwnerOk, Conserved, OwnerNext, ThiefNext, Accounted, Masked;
    MasksStay(s, s', step);
    match step
    case OwnerStep =>
      OwnerKeeps(s, s');
      OwnerAccounts(s, s');
      Conserves(s, s', EffectOf(s, step));
      OwnerLeavesThieves(s, s');
      forall id | id in s'.thieves ensures ThiefOk(s', s'.thieves[id]) { OwnerKeepsThief(s, s', s.thieves[id]); }
    case ThiefStep(id) =>
      ThiefKeeps(s, s', id);
      ThiefAccounts(s, s', id);
      Conserves(s, s', EffectOf(s, step));
      forall other | other in s'.thieves ensures ThiefOk(s', s'.thieves[other]) { ThiefKeepsThief(s, s', id, other); }
    case _ => BeginKeeps(s, s', step);
  }

  lemma OwnerLeavesThieves<T>(s: State<T>, s': State<T>)
    requires Wellformed(s) && OwnerNext(s, s')
    ensures s'.thieves == s.thieves
  {
  }

  lemma InitOk<T>(s: State<T>)
    requires Init(s) && PowerOfTwo(s.arrays[0].Capacity())
    ensures Inv(s)
  {
    assert Live(s) == [];
  }

  // ---------------------------------------------------------------- every run

  ghost predicate IsRun<T(!new)>(run: seq<State<T>>) {
    && run != [] && Init(run[0])
    && forall i :: 0 <= i < |run| - 1 ==> Next(run[i], run[i + 1])
  }

  lemma {:induction false} InvHolds<T(!new)>(run: seq<State<T>>, i: nat)
    requires IsRun(run) && i < |run| && PowerOfTwo(run[0].arrays[0].Capacity())
    ensures Inv(run[i])
  {
    hide Inv, Init, NextStep, Live;
    if i == 0 {
      InitOk(run[0]);
    } else {
      InvHolds(run, i - 1);
      assert Next(run[i - 1], run[i - 1 + 1]);
      var step :| NextStep(run[i - 1], run[i], step);
      StepRefines(run[i - 1], run[i], step);
    }
  }

  // If the constructor is given a power of two: in every state of every run no item has been
  // returned more often than it was pushed, and an item that was pushed and not returned is in
  // [top, bottom) of the current array or held by the owner's pop.
  lemma NoneTwiceNoneLost<T(!new)>(run: seq<State<T>>, i: nat)
    requires IsRun(run) && i < |run| && PowerOfTwo(run[0].arrays[0].Capacity())
    ensures Wellformed(run[i])
    ensures run[i].returned <= run[i].pushed
    ensures run[i].pushed - run[i].returned == multiset(Live(run[i])) + InFlight(run[i])
    ensures run[i].owner == Idle ==>
      run[i].pushed == run[i].returned + multiset(Live(run[i])) && |Live(run[i])| == run[i].bottom - run[i].top
  {
    InvHolds(run, i);
  }

  // ---------------------------------------------------------------- any other capacity

  lemma Extend<T(!new)>(run: seq<State<T>>, s: State<T>)
    requires IsRun(run) && Next(run[|run| - 1], s)
    ensures IsRun(run + [s])
  {
    var longer := run + [s];
    forall i | 0 <= i < |longer| - 1
      ensures Next(longer[i], longer[i + 1])
    {
      assert i < |run| - 1 ==> Next(run[i], run[i + 1]);
    }
  }

  // the cells of the first array after the first pushes, of which push n is at position n
  ghost function Filled<T>(c: nat, items: seq<T>, x: T): (cells: seq<T>)
    requires c > 0
    ensures |cells| == c
  {
    if items == [] then seq(c, _ => x)
    else Filled(c, items[..|items| - 1], x)[And(|items|, c - 1) := items[|items| - 1]]
  }

  ghost function AfterPushes<T>(c: nat, items: seq<T>, x: T): State<T>
    requires c > 0
  {
    State(1, |items| + 1, 0, [Arr(Filled(c, items, x))], Idle, map[], multiset(items), multiset{})
  }

  // A capacity of items can be pushed before the array grows.
  lemma {:induction false} PushRun<T(!new)>(c: nat, items: seq<T>, x: T) returns (run: seq<State<T>>)
    requires 0 < c && |items| <= c
    ensures IsRun(run) && run[|run| - 1] == AfterPushes(c, items, x) && run[0].arrays[0].Capacity() == c
  {
    if items == [] {
      run := [AfterPushes(c, [], x)];
    } else {
      var (n, item) := (|items|, items[|items| - 1]);
      run := PushRun(c, items[..n - 1], x);
      assert items == items[..n - 1] + [item];
      run := PushOne(run, AfterPushes(c, items[..n - 1], x), AfterPushes(c, items, x), item);
    }
  }

  // the five steps of a push that does not grow the array
  lemma PushOne<T(!new)>(run: seq<State<T>>, s: State<T>, s': State<T>, x: T) returns (longer: seq<State<T>>)
    requires IsRun(run) && run[|run| - 1] == s && Wellformed(s) && s.owner == Idle
    requires s.bottom - s.top <= s.arrays[s.current].Capacity() - 1
    requires s' == s.(arrays := s.arrays[s.current := s.arrays[s.current].Put(s.bottom, x)], bottom := s.bottom + 1,
                      pushed := s.pushed + multiset{x})
    ensures IsRun(longer) && longer[|longer| - 1] == s' && longer[0] == run[0]
  {
    hide And;
    var b := s.bottom;
    var s1 := s.(owner := PushLoadTop(x, b));
    var s2 := s.(owner := PushLoadArray(x, b, s.top));
    var s3 := s.(owner := PushPut(x, b));
    var s4 := s'.(bottom := b, pushed := s.pushed, owner := PushStoreBottom(x, b));
    assert NextStep(s, s1, BeginPush(x)) && NextStep(s1, s2, OwnerStep) && NextStep(s2, s3, OwnerStep);
    assert NextStep(s3, s4, OwnerStep) && NextStep(s4, s', OwnerStep);
    hide IsRun, Wellformed, NextStep, Filled;
    Extend(run, s1);
    Extend(run + [s1], s2);
    Extend(run + [s1] + [s2], s3);
    Extend(run + [s1] + [s2] + [s3], s4);
    Extend(run + [s1] + [s2] + [s3] + [s4], s');
    longer := run + [s1] + [s2] + [s3] + [s4] + [s'];
  }

  // A position in the cell of the last push holds the last item.
  lemma LastWins<T>(c: nat, items: seq<T>, x: T, i: nat)
    requires c > 0 && items != [] && And(i, c - 1) == And(|items|, c - 1)
    ensures Filled(c, items, x)[And(i, c - 1)] == items[|items| - 1]
  {
    hide And;
  }

  lemma TwiceIn<T>(q: seq<T>, a: nat, b: nat)
    requires a < b < |q| && q[a] == q[b]
    ensures multiset(q)[q[b]] >= 2
  {
    assert q == q[..b] + q[b..];
    assert q[..b][a] == q[b] && q[b..][0] == q[b];
    assert q[b] in q[..b] && q[b] in q[b..];
  }

  // The push at j overwrites the item pushed at i, which is then lost, and y is there twice.
  lemma Loses<T(!new)>(c: nat, x: T, y: T) returns (run: seq<State<T>>)
    requires c > 0 && !PowerOfTwo(c) && x != y
    ensures IsRun(run) && run[0].arrays[0].Capacity() == c
    ensures var s := run[|run| - 1]; Wellformed(s) && !Conserved(s)
  {
    hide And, IsRun, Filled;
    var i, j := MaskClash(c);
    LastWins(c, seq(j - 1, _ => x) + [y], x, i);
    LastWins(c, seq(j - 1, _ => x) + [y], x, j);
    var items := seq(j - 1, _ => x) + [y];
    run := PushRun(c, items, x);
    var s := AfterPushes(c, items, x);
    assert Wellformed(s) && Live(s)[i - 1] == s.arrays[0].Get(i) == y == s.arrays[0].Get(j) == Live(s)[j - 1];
    TwiceIn(Live(s), i - 1, j - 1);
    var xs := seq(j - 1, _ => x);
    assert multiset(items) == multiset(xs) + multiset{y} && multiset(xs)[y] == 0;
    assert s.pushed[y] == 1 && multiset(Live(s))[y] >= 2 && InFlight(s) == multiset{};
  }

  // No run that starts with c cells loses an item.
  ghost predicate NeverLoses<T(!new)>(c: nat) {
    forall run: seq<State<T>>, i: nat {:trigger IsRun(run), run[i]} ::
      IsRun(run) && run[0].arrays[0].Capacity() == c && i < |run| ==> Wellformed(run[i]) && Conserved(run[i])
  }

  // With two different items to push: no run loses an item if and only if the capacity given to
  // the constructor is a power of two.
  lemma KeepsItemsIffPowerOfTwo<T(!new)>(c: nat, x: T, y: T)
    requires c > 0 && x != y
    ensures NeverLoses<T>(c) <==> PowerOfTwo(c)
  {
    if PowerOfTwo(c) {
      forall run: seq<State<T>>, i: nat | IsRun(run) && run[0].arrays[0].Capacity() == c && i < |run|
        ensures Wellformed(run[i]) && Conserved(run[i])
      {
        InvHolds(run, i);
      }
    } else {
      var run := Loses(c, x, y);
      var last := run[|run| - 1];
    }
  }
}
