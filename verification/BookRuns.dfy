/**
  Whole runs of the order book: any sequence of limit, immediate-or-cancel and fill-or-kill
  orders, cancellations, modifications and clearings. A ledger that only looks at the commands and
  at what they returned tells what rests under every id, and where all quantity has gone.
*/
module BookRuns {
  import opened Common
  import opened Int64
  import opened PriceTime
  import opened BookState
  import opened BookSteps
  import opened BookLedger
  import opened OrderBook

  datatype Command =
    | Add(side: Side, tp: OrderType, price: int, qty: int)
    | Cancel(id: nat)
    | Modify(id: nat, price: int, qty: int)
    | Clear

  // what the command returned
  datatype Outcome =
    | OfAdd(add: AddResult)
    | OfCancel(cancel: CancelResult)
    | OfModify(modified: ModifyResult)
    | OfClear

  predicate Answers(c: Command, out: Outcome) {
    match c
    case Add(_, _, _, _) => out.OfAdd?
    case Cancel(_) => out.OfCancel?
    case Modify(_, _, _) => out.OfModify?
    case Clear => out.OfClear?
  }

  predicate Answered(cs: seq<Command>, outs: seq<Outcome>) {
    |outs| == |cs| && forall i :: 0 <= i < |cs| ==> Answers(cs[i], outs[i])
  }

  // ---------------------------------------------------------------- the ledger of one command

  // what an order enters into the book or trades on the way in
  ghost function EnteredBy(tp: OrderType, qty: int, r: AddResult): int {
    if tp == LIMIT then qty else Total(Fills(r.fills))
  }

  ghost function HeldAfterAdd(before: int, tp: OrderType, qty: int, r: AddResult, id: nat): int {
    if r.accepted then before - Touched(r.fills, id) + (if r.id == id then EnteredBy(tp, qty, r) else 0) else before
  }

  // the order a modification adds
  function Again(r: ModifyResult): AddResult {
    AddResult(r.newId, r.success, r.fills)
  }

  // What rests under id after the command, if before rested there.
  ghost function HeldAfter(before: int, c: Command, out: Outcome, id: nat): int
    requires Answers(c, out)
  {
    match c
    case Add(_, tp, _, qty) => HeldAfterAdd(before, tp, qty, out.add, id)
    case Cancel(x) => if x == id then 0 else before
    case Modify(x, _, qty) => HeldAfterAdd(if x == id then 0 else before, LIMIT, qty, Again(out.modified), id)
    case Clear => 0
  }

  // Where the quantities of a run have gone; every trade uses up quantity on both sides. The last
  // number is the traded volume since the book was cleared.
  datatype Account = Account(entered: int, traded: int, discarded: int, withdrawn: int, volume: int) {
    function Open(): int {
      entered - 2 * traded - discarded - withdrawn
    }
  }

  ghost function PostAdd(acc: Account, tp: OrderType, qty: int, r: AddResult): Account {
    if !r.accepted then acc else
      var traded := Total(Fills(r.fills));
      Account(acc.entered + qty, acc.traded + traded, acc.discarded + if tp == LIMIT then 0 else qty - traded,
              acc.withdrawn, acc.volume + traded)
  }

  // named rests under the id that the command names, and resting in the whole book.
  ghost function Post(acc: Account, c: Command, out: Outcome, named: int, resting: int): Account
    requires Answers(c, out)
  {
    match c
    case Add(_, tp, _, qty) => PostAdd(acc, tp, qty, out.add)
    case Cancel(_) => acc.(withdrawn := acc.withdrawn + named)
    case Modify(_, _, qty) => PostAdd(acc.(withdrawn := acc.withdrawn + named), LIMIT, qty, Again(out.modified))
    case Clear => acc.(withdrawn := acc.withdrawn + resting, volume := 0)
  }

  function Named(c: Command): nat {
    match c
    case Cancel(id) => id
    case Modify(id, _, _) => id
    case _ => 0
  }

  // ---------------------------------------------------------------- the ledger of a run

  ghost function Resting(v: View): int {
    Total(Flat(v.bids, BUY)) + Total(Flat(v.asks, SELL))
  }

  // what rests under id after the commands, counted from the book v0
  ghost function LedgerOf(v0: View, cs: seq<Command>, outs: seq<Outcome>, id: nat): int
    requires Answered(cs, outs)
  {
    if cs == [] then Held(v0, id) else
      var n := |cs| - 1;
      HeldAfter(LedgerOf(v0, cs[..n], outs[..n], id), cs[n], outs[n], id)
  }

  ghost function AccountOf(v0: View, cs: seq<Command>, outs: seq<Outcome>): Account
    requires Answered(cs, outs)
  {
    if cs == [] then Account(0, 0, 0, 0, v0.volume) else
      var n := |cs| - 1;
      var acc := AccountOf(v0, cs[..n], outs[..n]);
      Post(acc, cs[n], outs[n], LedgerOf(v0, cs[..n], outs[..n], Named(cs[n])), Resting(v0) + acc.Open())
  }

  // The book agrees with the ledger on every id, on all that rests and on the volume.
  ghost predicate Agrees(v0: View, v: View, cs: seq<Command>, outs: seq<Outcome>) {
    && Answered(cs, outs)
    && (forall id: nat {:trigger Held(v, id)} :: Held(v, id) == LedgerOf(v0, cs, outs, id))
    && var acc := AccountOf(v0, cs, outs);
       && Resting(v) == Resting(v0) + acc.Open() && v.volume == acc.volume
       && acc.traded >= 0 && acc.discarded >= 0 && acc.withdrawn >= 0
  }

  // ---------------------------------------------------------------- one command

  // the orders and trades a command reports
  ghost predicate Counted(b: View, a: View, c: Command, out: Outcome)
    requires Answers(c, out)
  {
    match c
    case Add(_, _, _, _) => CountedAdd(b, a, out.add)
    case Cancel(_) => a.added == b.added && a.executed == b.executed && a.lastTrade == b.lastTrade
      && a.lastOrder == b.lastOrder
    case Modify(_, _, _) => CountedAdd(b, a, Again(out.modified))
    case Clear => a.added == a.executed == a.lastTrade == a.lastOrder == 0
  }

  ghost predicate CountedAdd(b: View, a: View, r: AddResult) {
    if r.accepted
    then a.added == b.added + 1 && a.executed == b.executed + |r.fills| && a.lastTrade == b.lastTrade + |r.fills|
      && a.lastOrder == r.id
    else a.added == b.added && a.executed == b.executed && a.lastTrade == b.lastTrade
  }

  // What the command did to the book b is what the ledger takes down.
  ghost predicate Posted(b: View, a: View, c: Command, out: Outcome) {
    && Answers(c, out) && Counted(b, a, c, out)
    && (forall id: nat {:trigger Held(a, id)} :: Held(a, id) == HeldAfter(Held(b, id), c, out, id))
    && var acc := Post(Account(0, 0, 0, 0, b.volume), c, out, Held(b, Named(c)), Resting(b));
       && Resting(a) == Resting(b) + acc.Open() && a.volume == acc.volume
       && acc.traded >= 0 && acc.discarded >= 0 && acc.withdrawn >= 0
  }

  lemma PostShifts(acc: Account, c: Command, out: Outcome, named: int, resting: int)
    requires Answers(c, out)
    ensures var (p, q) := (Post(acc, c, out, named, resting),
      Post(Account(0, 0, 0, 0, acc.volume), c, out, named, resting));
      && p.Open() == acc.Open() + q.Open() && p.volume == q.volume && p.traded == acc.traded + q.traded
      && p.discarded == acc.discarded + q.discarded && p.withdrawn == acc.withdrawn + q.withdrawn
  {
  }

  lemma AgreesStep(v0: View, b: View, a: View, cs: seq<Command>, outs: seq<Outcome>, c: Command, out: Outcome)
    requires Agrees(v0, b, cs, outs) && Posted(b, a, c, out)
    ensures Agrees(v0, a, cs + [c], outs + [out])
  {
    hide Post, HeldAfter, Resting, Held, Counted;
    var (cs', outs') := (cs + [c], outs + [out]);
    assert cs'[..|cs|] == cs && outs'[..|cs|] == outs;
    PostShifts(AccountOf(v0, cs, outs), c, out, Held(b, Named(c)), Resting(b));
  }

  lemma AnnouncedIsSame(b: View, id: nat)
    ensures Held(Announced(b), id) == Held(b, id) && Resting(Announced(b)) == Resting(b)
      && Announced(b).volume == b.volume
    ensures ViewOk(Announced(b)) == ViewOk(b)
  {
  }

  lemma NewlyMadeFacts(id: nat, side: Side, tp: OrderType, price: int, qty: int)
    ensures var o := NewlyMade(id, side, tp, price, qty);
      o.id == id && o.qty == o.remaining == qty && o.tp == tp && o.side == side
  {
  }

  // An accepted order, in terms of the ledger.
  lemma AddFacts(b: View, a: View, o: Order, r: AddResult, id: nat)
    requires ViewOk(b) && Entered(b, a, o, r) && o.qty == o.remaining > 0
    ensures r.accepted && Held(a, id) == HeldAfterAdd(Held(b, id), o.tp, o.qty, r, id) && CountedAdd(b, a, r)
    ensures var acc := PostAdd(Account(0, 0, 0, 0, b.volume), o.tp, o.qty, r);
      && Resting(a) == Resting(b) + acc.Open() && a.volume == acc.volume && acc.traded >= 0 && acc.discarded >= 0
  {
    AnnouncedIsSame(b, id);
    EnteredHolds(Announced(b), a, o, r, id);
    AddTotals(b, a, o, r);
  }

  lemma AddTotals(b: View, a: View, o: Order, r: AddResult)
    requires ViewOk(b) && Entered(b, a, o, r) && o.qty == o.remaining > 0
    ensures var acc := PostAdd(Account(0, 0, 0, 0, b.volume), o.tp, o.qty, r);
      && Resting(a) == Resting(b) + acc.Open() && a.volume == acc.volume && acc.traded >= 0 && acc.discarded >= 0
  {
    var opp := o.side.Opposite();
    QuantityConserved(Announced(b), a, o, r);
    FillsNotNegative(Announced(b), a, o, r);
    assert o.side.BUY? || o.side.SELL?;
  }

  lemma FillsNotNegative(b: View, a: View, o: Order, r: AddResult)
    requires ViewOk(b) && Executed(b, a, o, r) && o.remaining > 0
    ensures Total(Fills(r.fills)) >= 0
  {
    var opp := o.side.Opposite();
    FlatFacts(b.On(opp), opp);
    MatchConserves(Flat(b.On(opp), opp), o.side, o.price, o.remaining);
    ReportedTotal(r.fills, Match(Flat(b.On(opp), opp), o.side, o.price, o.remaining).fills, b.lastTrade + 1, o.id,
      o.side);
  }

  lemma AddPosts(b: View, a: View, side: Side, tp: OrderType, price: int, qty: int, r: AddResult)
    requires ViewOk(b) && qty > 0 && Entered(b, a, NewlyMade(b.lastOrder + 1, side, tp, price, qty), r)
    ensures Posted(b, a, Add(side, tp, price, qty), OfAdd(r))
  {
    var o := NewlyMade(b.lastOrder + 1, side, tp, price, qty);
    NewlyMadeFacts(b.lastOrder + 1, side, tp, price, qty);
    hide Held, Resting, Entered, NewlyMade, HeldAfterAdd, PostAdd, ViewOk, CountedAdd;
    AddTotals(b, a, o, r);
    forall id: nat ensures Held(a, id) == HeldAfterAdd(Held(b, id), tp, qty, r, id) { AddFacts(b, a, o, r, id); }
    AddFacts(b, a, o, r, 0);
    assert PostAdd(Account(0, 0, 0, 0, b.volume), tp, qty, r).withdrawn == 0 by {
      PostAddWithdraws(Account(0, 0, 0, 0, b.volume), tp, qty, r);
    }
  }

  lemma PostAddWithdraws(acc: Account, tp: OrderType, qty: int, r: AddResult)
    ensures PostAdd(acc, tp, qty, r).withdrawn == acc.withdrawn
  {
  }

  // A rejected order uses up an id at most.
  lemma RejectPosts(b: View, last: nat, side: Side, tp: OrderType, price: int, qty: int, r: AddResult)
    requires !r.accepted
    ensures Posted(b, b.(lastOrder := last), Add(side, tp, price, qty), OfAdd(r))
  {
    forall id: nat ensures Held(b.(lastOrder := last), id) == Held(b, id) {}
  }

  // Nothing happens to the book, and nothing rests under the id.
  lemma NothingPosts(b: View, c: Command, out: Outcome, id: nat)
    requires || (c == Cancel(id) && out.OfCancel?)
             || (c.Modify? && c == Modify(id, c.price, c.qty) && out.OfModify? && !out.modified.success)
    requires Held(b, id) == 0
    ensures Posted(b, b, c, out)
  {
    hide Held, Resting;
  }

  ghost predicate SameCounters(b: View, a: View) {
    && a.volume == b.volume && a.lastOrder == b.lastOrder && a.added == b.added && a.executed == b.executed
    && a.lastTrade == b.lastTrade
  }

  lemma CancelTotals(b: View, a: View, o: Order)
    requires ViewOk(b) && Cancelled(b, a, o)
    ensures Resting(a) == Resting(b) - o.remaining && ViewOk(a) && SameCounters(b, a)
  {
    CancelKeepsOk(b, a, o);
    CancelTakesOne(b, a, o);
    hide ViewOk, Flat, Total, TakenOff, Cancelled;
    RestingOn(b, o.side);
    RestingOn(a, o.side);
  }

  lemma RestingOn(v: View, side: Side)
    ensures Resting(v) == Total(Flat(v.On(side), side)) + Total(Flat(v.On(side.Opposite()), side.Opposite()))
  {
    assert side.BUY? || side.SELL?;
  }

  lemma CancelKeepsOk(b: View, a: View, o: Order)
    requires ViewOk(b) && Cancelled(b, a, o)
    ensures ViewOk(a) && SameCounters(b, a)
  {
    var i: nat :| TakenOff(b, a, o, i);
    assert o.side.BUY? || o.side.SELL?;
  }

  lemma CancelPosts(b: View, a: View, o: Order, r: CancelResult)
    requires ViewOk(b) && Cancelled(b, a, o) && Held(b, o.id) == o.remaining >= 0
    ensures Posted(b, a, Cancel(o.id), OfCancel(r))
  {
    hide Held, Resting, Cancelled, ViewOk;
    CancelTotals(b, a, o);
    forall id: nat ensures Held(a, id) == if o.id == id then 0 else Held(b, id) { CancelledHolds(b, a, o, id); }
  }

  lemma ModifyPosts(b: View, a: View, o: Order, price: int, qty: int, r: ModifyResult)
    requires ViewOk(b) && Modified(b, a, o, price, qty, r) && r.success == (price > 0 && qty > 0)
    requires Held(b, o.id) == o.remaining >= 0
    ensures Posted(b, a, Modify(o.id, price, qty), OfModify(r))
  {
    var mid :| ModifiedVia(b, mid, a, o, price, qty, r);
    CancelTotals(b, mid, o);
    hide Held, Resting, Cancelled, ViewOk, Modified;
    forall id: nat ensures Held(mid, id) == if o.id == id then 0 else Held(b, id) { CancelledHolds(b, mid, o, id); }
    if r.success {
      var n := NewlyMade(b.lastOrder + 1, o.side, LIMIT, price, qty);
      NewlyMadeFacts(b.lastOrder + 1, o.side, LIMIT, price, qty);
      hide Entered, NewlyMade, HeldAfterAdd, PostAdd, ModifiedVia;
      AddTotals(mid, a, n, Again(r));
      AddFacts(mid, a, n, Again(r), 0);
      forall id: nat
        ensures Held(a, id) == HeldAfterAdd(Held(mid, id), LIMIT, qty, Again(r), id)
      {
        AddFacts(mid, a, n, Again(r), id);
      }
      PostAddShifts(Account(0, 0, 0, Held(b, o.id), b.volume), LIMIT, qty, Again(r));
    }
  }

  lemma PostAddShifts(acc: Account, tp: OrderType, qty: int, r: AddResult)
    ensures var (p, q) := (PostAdd(acc, tp, qty, r), PostAdd(Account(0, 0, 0, 0, acc.volume), tp, qty, r));
      && p.Open() == acc.Open() + q.Open() && p.volume == q.volume && p.traded == acc.traded + q.traded
      && p.discarded == acc.discarded + q.discarded && p.withdrawn == acc.withdrawn
  {
  }

  lemma ClearPosts(b: View)
    requires ViewOk(b)
    ensures Posted(b, View(map[], map[], 0, 0, 0, 0, 0), Clear, OfClear)
  {
    hide Held, Resting, ViewOk, Post, HeldAfter;
    var a := View(map[], map[], 0, 0, 0, 0, 0);
    RestingNotNegative(b);
    PostClear(b.volume, Held(b, 0), Resting(b));
    EmptyHolds(a, 0);
    forall id: nat
      ensures Held(a, id) == HeldAfter(Held(b, id), Clear, OfClear, id)
    {
      EmptyHolds(a, id);
      NothingAfterClear(Held(b, id), id);
    }
  }

  lemma NothingAfterClear(before: int, id: nat)
    ensures HeldAfter(before, Clear, OfClear, id) == 0
  {
  }

  lemma PostClear(volume: int, named: int, resting: int)
    ensures Post(Account(0, 0, 0, 0, volume), Clear, OfClear, named, resting) == Account(0, 0, 0, resting, 0)
  {
  }

  lemma EmptyHolds(v: View, id: nat)
    requires v.bids == v.asks == map[]
    ensures Held(v, id) == 0 && Resting(v) == 0
  {
    assert Flat(v.bids, BUY) == [] && Flat(v.asks, SELL) == [];
  }

  lemma RestingNotNegative(v: View)
    requires ViewOk(v)
    ensures Resting(v) >= 0
  {
    FlatFacts(v.bids, BUY);
    FlatFacts(v.asks, SELL);
    TotalPositive(Flat(v.bids, BUY));
    TotalPositive(Flat(v.asks, SELL));
  }

  // ---------------------------------------------------------------- the commands on the book

  // When a command succeeds, given the book and the free slots before.
  ghost predicate Decided(b: View, slots: nat, c: Command, out: Outcome)
    requires Answers(c, out)
  {
    match c
    case Add(side, tp, price, qty) => out.add.accepted <==> Admissible(b, slots, side, tp, price, qty)
    case Cancel(id) => out.cancel.cancelled <==> Held(b, id) > 0
    case Modify(id, price, qty) => out.modified.success <==> Held(b, id) > 0 && price > 0 && qty > 0
    case Clear => true
  }

  // What the command makes of the book b, given the free slots before.
  ghost predicate Effect(b: View, slots: nat, a: View, c: Command, out: Outcome)
    requires Answers(c, out)
  {
    match c
    case Add(side, tp, price, qty) => EffectOfAdd(b, slots, a, side, tp, price, qty, out.add)
    case Cancel(id) => EffectOfCancel(b, a, id, out.cancel)
    case Modify(id, price, qty) => EffectOfModify(b, a, id, price, qty, out.modified)
    case Clear => a == View(map[], map[], 0, 0, 0, 0, 0)
  }

  ghost predicate EffectOfAdd(b: View, slots: nat, a: View, side: Side, tp: OrderType, price: int, qty: int,
                              r: AddResult) {
    if r.accepted
    then Entered(b, a, NewlyMade(b.lastOrder + 1, side, tp, price, qty), r)
    else
      && r == AddResult(0, false, [])
      && a == b.(lastOrder := b.lastOrder + if Sensible(slots, tp, price, qty) then 1 else 0)
  }

  ghost predicate EffectOfCancel(b: View, a: View, id: nat, r: CancelResult) {
    if Held(b, id) > 0
    then
      && r == CancelResult(true, true)
      && exists o: Order {:trigger Cancelled(b, a, o)} :: o.id == id && Cancelled(b, a, o)
    else r == CancelResult(false, false) && a == b
  }

  ghost predicate EffectOfModify(b: View, a: View, id: nat, price: int, qty: int, r: ModifyResult) {
    if Held(b, id) > 0
    then exists o: Order {:trigger Modified(b, a, o, price, qty, r)} :: o.id == id && Modified(b, a, o, price, qty, r)
    else r == ModifyResult(false, 0, []) && a == b
  }

  // A command on a book with so many slots: it succeeds when it should, and does what it should.
  ghost predicate Did(capacity: nat, b: View, a: View, c: Command, out: Outcome) {
    && Answers(c, out) && OrdersIn(b) <= capacity
    && Decided(b, capacity - OrdersIn(b), c, out) && Effect(b, capacity - OrdersIn(b), a, c, out)
  }

  // An order that must not rest was accepted, and not filled completely.
  ghost predicate Drops(c: Command, out: Outcome) {
    c.Add? && out.OfAdd? && (c.tp == IOC || c.tp == FOK) && out.add.accepted && Total(Fills(out.add.fills)) < c.qty
  }

  // how many orders have been dropped since the book was cleared, if it was before
  ghost function DroppedAfter(before: int, c: Command, out: Outcome): int {
    if c.Clear? then 0 else if Drops(c, out) then before + 1 else before
  }

  ghost function DroppedOf(before: int, cs: seq<Command>, outs: seq<Outcome>): int
    requires |outs| == |cs|
  {
    if cs == [] then before else
      var n := |cs| - 1;
      DroppedAfter(DroppedOf(before, cs[..n], outs[..n]), cs[n], outs[n])
  }

  lemma DroppedStep(before: int, cs: seq<Command>, outs: seq<Outcome>, c: Command, out: Outcome)
    requires |outs| == |cs|
    ensures DroppedOf(before, cs + [c], outs + [out]) == DroppedAfter(DroppedOf(before, cs, outs), c, out)
  {
    assert (cs + [c])[..|cs|] == cs && (outs + [out])[..|cs|] == outs;
  }

  lemma DroppedAtStart(before: int)
    ensures DroppedOf(before, [], []) == before
  {
  }

  // What is left of an order is what its trades leave of its quantity.
  lemma LeftIs(b: View, a: View, side: Side, tp: OrderType, price: int, qty: int, r: AddResult)
    requires ViewOk(b) && qty > 0 && Entered(b, a, NewlyMade(b.lastOrder + 1, side, tp, price, qty), r)
    ensures LeftOver(b, NewlyMade(b.lastOrder + 1, side, tp, price, qty)) == qty - Total(Fills(r.fills))
  {
    var o := NewlyMade(b.lastOrder + 1, side, tp, price, qty);
    hide LeftOver, Executed, Total, Fills, ViewOk;
    LeftOverAnnounced(b, o);
    AnnouncedOk(b, side);
    QuantityConserved(Announced(b), a, o, r);
  }

  lemma AddDrops(side: Side, tp: OrderType, price: int, qty: int, r: AddResult, before: int, left: int)
    requires r.accepted ==> left == qty - Total(Fills(r.fills))
    ensures DroppedAfter(before, Add(side, tp, price, qty), OfAdd(r)) ==
      before + if r.accepted && (tp == IOC || tp == FOK) && left > 0 then 1 else 0
  {
    hide Total, Fills;
  }

  // the best bid is below the best ask
  ghost predicate Uncrossed(v: View) {
    var (bids, asks) := (Flat(v.bids, BUY), Flat(v.asks, SELL));
    forall i, j :: 0 <= i < |bids| && 0 <= j < |asks| ==> bids[i].price < asks[j].price
  }

  // The books that a run goes through, the first and the last included.
  ghost predicate Trajectory(capacity: nat, views: seq<View>, cs: seq<Command>, outs: seq<Outcome>) {
    && |views| == |cs| + 1 && Answered(cs, outs)
    && (forall i :: 0 <= i < |views| ==> ViewOk(views[i]) && Uncrossed(views[i]))
    && forall i :: 0 <= i < |cs| ==> Did(capacity, views[i], views[i + 1], cs[i], outs[i])
  }

  // Every order that a run accepts trades by price and time with the book it finds, at prices the
  // command agreed to, and rests where the command asked.
  lemma RunFollowsPriority(capacity: nat, views: seq<View>, cs: seq<Command>, outs: seq<Outcome>, i: nat)
    requires Trajectory(capacity, views, cs, outs) && i < |cs| && cs[i].Add? && outs[i].add.accepted
    ensures var o := NewlyMade(views[i].lastOrder + 1, cs[i].side, cs[i].tp, cs[i].price, cs[i].qty);
      ByPriority(views[i], views[i + 1], o, outs[i].add.fills)
    ensures AsAsked(views[i], views[i + 1], cs[i].side, cs[i].tp, cs[i].price, cs[i].qty, outs[i].add)
  {
    hide Executed, ByPriority, Flat, AsAsked;
    assert Did(capacity, views[i], views[i + 1], cs[i], outs[i]);
    var (b, c) := (views[i], cs[i]);
    var o := NewlyMade(b.lastOrder + 1, c.side, c.tp, c.price, c.qty);
    TradesFollowPriority(Announced(b), views[i + 1], o, outs[i].add);
    PriorityAnnounced(b, views[i + 1], o, outs[i].add.fills);
    LimitIsPrice(b, views[i + 1], c.side, c.tp, c.price, c.qty, outs[i].add);
  }

  // A modification that succeeds takes the order out, and what it puts in does the same on the
  // side of that order.
  lemma RunModifiesAsAsked(capacity: nat, views: seq<View>, cs: seq<Command>, outs: seq<Outcome>, i: nat)
    requires Trajectory(capacity, views, cs, outs) && i < |cs| && cs[i].Modify? && outs[i].modified.success
    ensures exists o: Order, mid: View {:trigger Cancelled(views[i], mid, o)} ::
      && o.id == cs[i].id && Cancelled(views[i], mid, o)
      && AsAsked(mid, views[i + 1], o.side, LIMIT, cs[i].price, cs[i].qty, Again(outs[i].modified))
  {
    hide Cancelled, Entered, AsAsked, Held;
    assert Did(capacity, views[i], views[i + 1], cs[i], outs[i]);
    var (b, a, c, r) := (views[i], views[i + 1], cs[i], outs[i].modified);
    assert EffectOfModify(b, a, c.id, c.price, c.qty, r);
    var o: Order :| o.id == c.id && Modified(b, a, o, c.price, c.qty, r);
    var mid :| ModifiedVia(b, mid, a, o, c.price, c.qty, r);
    assert Cancelled(b, mid, o);
  }

  lemma PriorityAnnounced(b: View, a: View, o: Order, trades: seq<Trade>)
    ensures ByPriority(Announced(b), a, o, trades) == ByPriority(b, a, o, trades)
  {
    assert Announced(b).On(o.side.Opposite()) == b.On(o.side.Opposite());
  }

  lemma AdmissibleFacts(b: View, slots: nat, side: Side, tp: OrderType, price: int, qty: int)
    requires Admissible(b, slots, side, tp, price, qty)
    ensures qty > 0
  {
  }

  lemma DroppedIs(book: OrderBook)
    ensures book.Dropped() == book.stats.ordersAdded - book.stats.ordersFilled - book.stats.ordersCancelled
                              - (book.pool.capacity - book.pool.freeTop)
  {
  }

  method StepAdd(book: OrderBook, side: Side, tp: OrderType, price: int, qty: int) returns (r: AddResult)
    requires book.Valid() && tp != MARKET
    modifies book, book.pool
    ensures book.Valid() && Posted(old(book.Seen()), book.Seen(), Add(side, tp, price, qty), OfAdd(r))
    ensures EffectOfAdd(old(book.Seen()), old(book.pool.freeTop), book.Seen(), side, tp, price, qty, r)
    ensures r.accepted <==> Admissible(old(book.Seen()), old(book.pool.freeTop), side, tp, price, qty)
    ensures book.Dropped() == DroppedAfter(old(book.Dropped()), Add(side, tp, price, qty), OfAdd(r))
  {
    hide *;
    ghost var b := book.Seen();
    book.SeenOk();
    SeenLast(book);
    DroppedIs(book);
    r := book.AddOrder(side, tp, price, qty);
    if r.accepted {
      AdmissibleFacts(b, old(book.pool.freeTop), side, tp, price, qty);
      AddPosts(b, book.Seen(), side, tp, price, qty, r);
      AcceptedEffect(b, old(book.pool.freeTop), book.Seen(), side, tp, price, qty, r);
      LeftIs(b, book.Seen(), side, tp, price, qty, r);
      AddDrops(side, tp, price, qty, r, old(book.Dropped()), qty - Total(Fills(r.fills)));
    } else {
      RejectPosts(b, book.orderSeq, side, tp, price, qty, r);
      RejectedEffect(b, old(book.pool.freeTop), side, tp, price, qty);
      AddDrops(side, tp, price, qty, r, old(book.Dropped()), 0);
      DroppedIs(book);
    }
  }

  lemma AcceptedEffect(b: View, slots: nat, a: View, side: Side, tp: OrderType, price: int, qty: int, r: AddResult)
    requires r.accepted && Entered(b, a, NewlyMade(b.lastOrder + 1, side, tp, price, qty), r)
    ensures EffectOfAdd(b, slots, a, side, tp, price, qty, r)
  {
  }

  lemma RejectedEffect(b: View, slots: nat, side: Side, tp: OrderType, price: int, qty: int)
    ensures var last := b.lastOrder + if Sensible(slots, tp, price, qty) then 1 else 0;
      EffectOfAdd(b, slots, b.(lastOrder := last), side, tp, price, qty, AddResult(0, false, []))
  {
  }

  lemma SeenLast(book: OrderBook)
    ensures book.Seen().lastOrder == book.orderSeq
  {
  }

  method StepCancel(book: OrderBook, id: nat) returns (r: CancelResult)
    requires book.Valid()
    modifies book, book.pool
    ensures book.Valid() && Posted(old(book.Seen()), book.Seen(), Cancel(id), OfCancel(r))
    ensures EffectOfCancel(old(book.Seen()), book.Seen(), id, r)
    ensures r.cancelled <==> Held(old(book.Seen()), id) > 0
    ensures book.Dropped() == old(book.Dropped())
  {
    hide *;
    ghost var b := book.Seen();
    book.SeenOk();
    book.HeldIs(id);
    DroppedIs(book);
    r := book.CancelOrder(id);
    DroppedIs(book);
    if id in old(book.orders) {
      CancelPosts(b, book.Seen(), old(book.orders)[id], r);
      CancelEffect(b, book.Seen(), old(book.orders)[id]);
    } else {
      NothingPosts(b, Cancel(id), OfCancel(r), id);
      NothingEffect(b, id, 0, 0);
    }
  }

  lemma CancelEffect(b: View, a: View, o: Order)
    requires Cancelled(b, a, o) && Held(b, o.id) > 0
    ensures EffectOfCancel(b, a, o.id, CancelResult(true, true))
  {
  }

  lemma ModifyEffect(b: View, a: View, o: Order, price: int, qty: int, r: ModifyResult)
    requires Modified(b, a, o, price, qty, r) && Held(b, o.id) > 0
    ensures EffectOfModify(b, a, o.id, price, qty, r)
  {
  }

  lemma NothingEffect(b: View, id: nat, price: int, qty: int)
    requires Held(b, id) == 0
    ensures EffectOfCancel(b, b, id, CancelResult(false, false))
    ensures EffectOfModify(b, b, id, price, qty, ModifyResult(false, 0, []))
  {
  }

  method StepModify(book: OrderBook, id: nat, price: int, qty: int) returns (r: ModifyResult)
    requires book.Valid()
    modifies book, book.pool
    ensures book.Valid() && Posted(old(book.Seen()), book.Seen(), Modify(id, price, qty), OfModify(r))
    ensures EffectOfModify(old(book.Seen()), book.Seen(), id, price, qty, r)
    ensures r.success <==> Held(old(book.Seen()), id) > 0 && price > 0 && qty > 0
    ensures book.Dropped() == old(book.Dropped())
  {
    hide *;
    ghost var b := book.Seen();
    book.SeenOk();
    book.HeldIs(id);
    DroppedIs(book);
    r := book.ModifyOrder(id, price, qty);
    DroppedIs(book);
    if id in old(book.orders) {
      ModifyPosts(b, book.Seen(), old(book.orders)[id], price, qty, r);
      ModifyEffect(b, book.Seen(), old(book.orders)[id], price, qty, r);
    } else {
      NothingPosts(b, Modify(id, price, qty), OfModify(r), id);
      NothingEffect(b, id, price, qty);
    }
  }

  method StepClear(book: OrderBook)
    requires book.Valid()
    modifies book, book.pool
    ensures book.Valid() && Posted(old(book.Seen()), book.Seen(), Clear, OfClear)
    ensures book.Seen() == View(map[], map[], 0, 0, 0, 0, 0) && book.Dropped() == 0
  {
    hide *;
    book.SeenOk();
    ClearPosts(book.Seen());
    book.Clear();
  }

  // One command keeps the book consistent, succeeds exactly when it should, makes of the book what
  // it should, and does what the ledger takes down.
  method Step(book: OrderBook, c: Command) returns (out: Outcome)
    requires book.Valid() && (c.Add? ==> c.tp != MARKET)
    modifies book, book.pool
    ensures book.Valid() && Answers(c, out) && Posted(old(book.Seen()), book.Seen(), c, out)
    ensures Did(book.pool.capacity, old(book.Seen()), book.Seen(), c, out)
    ensures book.Dropped() == DroppedAfter(old(book.Dropped()), c, out)
  {
    hide Posted, Held, Admissible, EffectOfAdd, EffectOfCancel, EffectOfModify, OrdersIn;
    book.FreeSlots();
    match c
    case Add(side, tp, price, qty) =>
      var r := StepAdd(book, side, tp, price, qty);
      out := OfAdd(r);
    case Cancel(id) =>
      var r := StepCancel(book, id);
      out := OfCancel(r);
    case Modify(id, price, qty) =>
      var r := StepModify(book, id, price, qty);
      out := OfModify(r);
    case Clear =>
      StepClear(book);
      out := OfClear;
  }

  lemma SeenUncrossed(book: OrderBook)
    requires book.Valid()
    ensures ViewOk(book.Seen()) && Uncrossed(book.Seen())
  {
    book.SeenOk();
    book.NeverCrossed();
  }

  lemma TrajectoryAtStart(capacity: nat, v: View)
    requires ViewOk(v) && Uncrossed(v)
    ensures Trajectory(capacity, [v], [], [])
  {
  }

  lemma TrajectoryStep(capacity: nat, views: seq<View>, cs: seq<Command>, outs: seq<Outcome>, a: View, c: Command,
                       out: Outcome)
    requires Trajectory(capacity, views, cs, outs) && ViewOk(a) && Uncrossed(a)
    requires Answers(c, out) && Did(capacity, views[|cs|], a, c, out)
    ensures Trajectory(capacity, views + [a], cs + [c], outs + [out])
  {
    hide Did, ViewOk, Uncrossed;
    var (views', cs', outs') := (views + [a], cs + [c], outs + [out]);
    forall i | 0 <= i < |cs'|
      ensures Did(capacity, views'[i], views'[i + 1], cs'[i], outs'[i])
    {
      if i < |cs| { assert Did(capacity, views[i], views[i + 1], cs[i], outs[i]); }
    }
  }

  lemma AgreesAtStart(v0: View)
    ensures Agrees(v0, v0, [], [])
  {
  }

  // In every run each command succeeds exactly when it should and makes of the book what it should,
  // and the best bid stays below the best ask. The run leaves under every id exactly what the
  // commands and their results say; the whole quantity entered is traded, discarded, withdrawn or
  // resting; and of the orders added, those that are neither filled nor cancelled nor resting were
  // dropped by commands of the run that must not rest.
  method Run(book: OrderBook, commands: seq<Command>) returns (outs: seq<Outcome>, ghost views: seq<View>)
    requires book.Valid() && forall i :: 0 <= i < |commands| && commands[i].Add? ==> commands[i].tp != MARKET
    modifies book, book.pool
    ensures book.Valid() && Agrees(old(book.Seen()), book.Seen(), commands, outs)
    ensures Trajectory(book.pool.capacity, views, commands, outs)
    ensures views[0] == old(book.Seen()) && views[|commands|] == book.Seen()
    ensures book.stats.ordersAdded == book.stats.ordersFilled + book.stats.ordersCancelled + OrdersIn(book.Seen())
                                      + DroppedOf(old(book.Dropped()), commands, outs)
  {
    hide *;
    outs := [];
    ghost var v0 := book.Seen();
    AgreesAtStart(v0);
    SeenUncrossed(book);
    TrajectoryAtStart(book.pool.capacity, v0);
    views := [v0];
    DroppedAtStart(old(book.Dropped()));
    for n := 0 to |commands|
      invariant book.Valid() && Agrees(v0, book.Seen(), commands[..n], outs)
      invariant Trajectory(book.pool.capacity, views, commands[..n], outs)
      invariant |views| == n + 1 && views[0] == v0 && views[n] == book.Seen()
      invariant |outs| == n && book.Dropped() == DroppedOf(old(book.Dropped()), commands[..n], outs)
    {
      ghost var b := book.Seen();
      var out := Step(book, commands[n]);
      AgreesStep(v0, b, book.Seen(), commands[..n], outs, commands[n], out);
      SeenUncrossed(book);
      TrajectoryStep(book.pool.capacity, views, commands[..n], outs, book.Seen(), commands[n], out);
      DroppedStep(old(book.Dropped()), commands[..n], outs, commands[n], out);
      assert commands[..n + 1] == commands[..n] + [commands[n]];
      outs, views := outs + [out], views + [book.Seen()];
    }
    assert commands[..|commands|] == commands;
    book.FreeSlots();
    DroppedIs(book);
  }

  // No order is ever filled beyond what it entered: what the commands and their results leave
  // under an id, at any point of a run, is not negative.
  lemma LedgerNotNegative(v0: View, v: View, cs: seq<Command>, outs: seq<Outcome>, id: nat)
    requires ViewOk(v) && Agrees(v0, v, cs, outs)
    ensures 0 <= LedgerOf(v0, cs, outs, id)
  {
    HeldNotNegative(v, id);
    assert Held(v, id) == LedgerOf(v0, cs, outs, id);
  }

  // As long as what rested and what entered together fit 64 bits, what rests does: no level total
  // and no sum of the fill-or-kill check overflows.
  lemma RunFits(v0: View, v: View, cs: seq<Command>, outs: seq<Outcome>, taker: Side, limit: int)
    requires ViewOk(v) && Agrees(v0, v, cs, outs) && Resting(v0) + AccountOf(v0, cs, outs).entered <= INT64_MAX
    ensures Resting(v) <= INT64_MAX
    ensures Available(Flat(v.On(taker.Opposite()), taker.Opposite()), taker, limit) <= INT64_MAX
    ensures forall p {:trigger v.On(taker)[p]} :: p in v.On(taker) ==> 0 <= Total(v.On(taker)[p]) <= INT64_MAX
  {
    var opp := taker.Opposite();
    assert taker.BUY? || taker.SELL?;
    FlatFacts(v.bids, BUY);
    FlatFacts(v.asks, SELL);
    TotalPositive(Flat(v.bids, BUY));
    TotalPositive(Flat(v.asks, SELL));
    AvailableIsPart(Flat(v.On(opp), opp), taker, limit);
    forall p | p in v.On(taker)
      ensures 0 <= Total(v.On(taker)[p]) <= INT64_MAX
    {
      LevelIsPart(v.On(taker), taker, p);
      LevelTotal(v.On(taker), p);
    }
  }

  lemma {:induction false} AvailableIsPart(q: seq<Rest>, taker: Side, limit: int)
    requires AllPositive(q)
    ensures Available(q, taker, limit) <= Total(q)
  {
    if q != [] { AvailableIsPart(q[1..], taker, limit); }
  }

  lemma {:induction false} LevelIsPart(d: Depth, side: Side, p: int)
    requires DepthOk(d) && p in d
    ensures Total(d[p]) <= Total(Flat(d, side))
    decreases |d|
  {
    var b := Best(d.Keys, side);
    SmallerMap(d, b);
    TotalConcat(d[b], Flat(d - {b}, side));
    FlatFacts(d - {b}, side);
    TotalPositive(Flat(d - {b}, side));
    if b != p {
      LevelTotal(d, b);
      LevelIsPart(d - {b}, side, p);
    }
  }
}
