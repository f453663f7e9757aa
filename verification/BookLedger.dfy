/**
  The quantity that rests under each order id, and what matching, resting and cancelling do to it.
*/
module BookLedger {
  import opened Common
  import opened PriceTime
  import opened BookState
  import opened BookSteps

  // the quantity in a queue under an id
  ghost function QtyOf(q: seq<Rest>, id: nat): int {
    if q == [] then 0 else (if q[0].id == id then q[0].qty else 0) + QtyOf(q[1..], id)
  }

  ghost function Held(v: View, id: nat): int {
    QtyOf(Flat(v.bids, BUY), id) + QtyOf(Flat(v.asks, SELL), id)
  }

  lemma HeldOn(v: View, side: Side, id: nat)
    ensures Held(v, id) == QtyOf(Flat(v.On(side), side), id) + QtyOf(Flat(v.On(side.Opposite()), side.Opposite()), id)
  {
    assert side.BUY? || side.SELL?;
  }

  lemma {:induction false} QtyConcat(a: seq<Rest>, b: seq<Rest>, id: nat)
    ensures QtyOf(a + b, id) == QtyOf(a, id) + QtyOf(b, id)
  {
    if a == [] {
      assert a + b == b;
    } else {
      assert (a + b)[1..] == a[1..] + b;
      QtyConcat(a[1..], b, id);
    }
  }

  lemma {:induction false} QtyNotNegative(q: seq<Rest>, id: nat)
    requires AllPositive(q)
    ensures 0 <= QtyOf(q, id)
  {
    if q != [] { QtyNotNegative(q[1..], id); }
  }

  lemma HeldNotNegative(v: View, id: nat)
    requires ViewOk(v)
    ensures 0 <= Held(v, id)
  {
    FlatFacts(v.bids, BUY);
    FlatFacts(v.asks, SELL);
    QtyNotNegative(Flat(v.bids, BUY), id);
    QtyNotNegative(Flat(v.asks, SELL), id);
  }

  // Matching takes from every order exactly its fills.
  lemma {:induction false} MatchTakesFills(q: seq<Rest>, taker: Side, limit: int, want: int, id: nat)
    ensures var m := Match(q, taker, limit, want); QtyOf(m.book, id) + QtyOf(m.fills, id) == QtyOf(q, id)
    decreases |q|
  {
    if want > 0 && q != [] && Accepts(taker, limit, q[0].price) {
      var m := Match(q, taker, limit, want);
      if want < q[0].qty {
        assert m.book[1..] == q[1..] && m.fills[1..] == [];
      } else {
        MatchTakesFills(q[1..], taker, limit, want - q[0].qty, id);
        assert m.fills[1..] == Match(q[1..], taker, limit, want - q[0].qty).fills;
      }
    }
  }

  lemma RestHolds(d: Depth, side: Side, r: Rest, id: nat)
    requires DepthOk(d)
    ensures QtyOf(Flat(AddTo(d, r.price, r), side), id) == QtyOf(Flat(d, side), id) + if r.id == id then r.qty else 0
  {
    RestPosition(d, side, r);
    var (q, q') := (Flat(d, side), Flat(AddTo(d, r.price, r), side));
    var j: nat :| Inserted(q, q', side, r, j);
    QtyConcat(q[..j] + [r], q[j..], id);
    QtyConcat(q[..j], [r], id);
    QtyConcat(q[..j], q[j..], id);
    assert q[..j] + q[j..] == q;
    assert QtyOf([r], id) == (if r.id == id then r.qty else 0) + QtyOf([], id);
  }

  lemma RemovedHolds(q: seq<Rest>, q': seq<Rest>, x: Rest, j: nat, id: nat)
    requires Removed(q, q', x, j)
    ensures QtyOf(q', id) == QtyOf(q, id) - if x.id == id then x.qty else 0
  {
    assert q == q[..j] + ([x] + q[j + 1..]);
    QtyConcat(q[..j], [x] + q[j + 1..], id);
    QtyConcat(q[..j], q[j + 1..], id);
    assert ([x] + q[j + 1..])[1..] == q[j + 1..];
  }

  // ---------------------------------------------------------------- an order rests once

  // no order of the level has the id
  ghost predicate Absent(q: seq<Rest>, id: nat) {
    forall i :: 0 <= i < |q| ==> q[i].id != id
  }

  lemma {:induction false} NoneOf(q: seq<Rest>, id: nat)
    requires Absent(q, id)
    ensures QtyOf(q, id) == 0
  {
    if q != [] { NoneOf(q[1..], id); }
  }

  lemma OneOf(q: seq<Rest>, i: nat, id: nat)
    requires i < |q| && q[i].id == id && forall j :: 0 <= j < |q| && j != i ==> q[j].id != id
    ensures QtyOf(q, id) == q[i].qty
  {
    assert q == q[..i] + ([q[i]] + q[i + 1..]);
    QtyConcat(q[..i], [q[i]] + q[i + 1..], id);
    NoneOf(q[..i], id);
    NoneOf(q[i + 1..], id);
    assert ([q[i]] + q[i + 1..])[1..] == q[i + 1..];
  }

  lemma {:induction false} FlatNone(d: Depth, side: Side, id: nat)
    requires forall p {:trigger d[p]} :: p in d ==> Absent(d[p], id)
    ensures QtyOf(Flat(d, side), id) == 0
    decreases |d|
  {
    if d.Keys != {} {
      var p := Best(d.Keys, side);
      SmallerMap(d, p);
      FlatNone(d - {p}, side, id);
      NoneOf(d[p], id);
      QtyConcat(d[p], Flat(d - {p}, side), id);
    }
  }

  lemma {:induction false} FlatOne(d: Depth, side: Side, p: int, i: nat, id: nat)
    requires p in d && i < |d[p]| && d[p][i].id == id && forall j :: 0 <= j < |d[p]| && j != i ==> d[p][j].id != id
    requires forall x {:trigger d[x]} :: x in d && x != p ==> Absent(d[x], id)
    ensures QtyOf(Flat(d, side), id) == d[p][i].qty
    decreases |d|
  {
    var b := Best(d.Keys, side);
    SmallerMap(d, b);
    QtyConcat(d[b], Flat(d - {b}, side), id);
    if b == p {
      OneOf(d[p], i, id);
      FlatNone(d - {p}, side, id);
    } else {
      NoneOf(d[b], id);
      FlatOne(d - {b}, side, p, i, id);
    }
  }

  lemma AbsentElsewhere(lad: Ladders, lv: Levels, orders: Orders, last: nat, side: Side, p: int, id: nat)
    requires BookOk(lad, lv, orders, last, None) && p in Prices(lv, side)
    requires id in orders ==> Key(orders[id].side, orders[id].price) != Key(side, p)
    ensures Absent(Abs(lv, orders, side)[p], id)
  {
    if id in lv[Key(side, p)] { OneLevel(lad, lv, orders, last, None, Key(side, p), id); }
  }

  // Under an id rests exactly what remains of its order.
  lemma QtyInBook(lad: Ladders, lv: Levels, orders: Orders, last: nat, side: Side, id: nat)
    requires BookSound(lad, lv, orders, last, None)
    ensures QtyOf(Flat(Abs(lv, orders, side), side), id) ==
      if id in orders && orders[id].side == side then orders[id].remaining else 0
  {
    var d := Abs(lv, orders, side);
    if id in orders && orders[id].side == side {
      RestingFacts(lad, lv, orders, last, id);
      var k := LevelOf(orders[id]);
      assert LevelOk(lad[k], k, lv[k], orders);
      var i: nat :| i < |lv[k]| && lv[k][i] == id;
      assert k.price in Prices(lv, side);
      forall x | x in d && x != k.price
        ensures Absent(d[x], id)
      {
        AbsentElsewhere(lad, lv, orders, last, side, x, id);
      }
      FlatOne(d, side, k.price, i, id);
    } else {
      forall x | x in d ensures Absent(d[x], id) { AbsentElsewhere(lad, lv, orders, last, side, x, id); }
      FlatNone(d, side, id);
    }
  }

  // ---------------------------------------------------------------- how many orders rest

  ghost function OrdersIn(v: View): nat {
    |Flat(v.bids, BUY)| + |Flat(v.asks, SELL)|
  }

  // Every entry of the whole queue stands at its price.
  lemma {:induction false} FlatMember(d: Depth, side: Side, i: nat)
    requires DepthOk(d) && i < |Flat(d, side)|
    ensures var x := Flat(d, side)[i]; x.price in d && x in d[x.price]
    decreases |d|
  {
    var p := Best(d.Keys, side);
    SmallerMap(d, p);
    if i < |d[p]| {
      assert Flat(d, side)[i] == d[p][i];
    } else {
      FlatMember(d - {p}, side, i - |d[p]|);
    }
  }

  // the entry is that of a registered order of the side
  lemma EntryIsOrder(lad: Ladders, lv: Levels, orders: Orders, last: nat, side: Side, i: nat)
    requires BookOk(lad, lv, orders, last, None) && i < |Flat(Abs(lv, orders, side), side)|
    ensures var x := Flat(Abs(lv, orders, side), side)[i];
      x.id in orders && orders[x.id].side == side && orders[x.id].price == x.price
  {
    var d := Abs(lv, orders, side);
    AbsOk(lad, lv, orders, last, None, side);
    FlatMember(d, side, i);
    var x := Flat(d, side)[i];
    var k := Key(side, x.price);
    var j :| 0 <= j < |d[x.price]| && d[x.price][j] == x;
    assert lv[k][j] == x.id;
    OneLevel(lad, lv, orders, last, None, k, x.id);
  }

  ghost predicate DistinctIds(q: seq<Rest>) {
    forall i, j :: 0 <= i < j < |q| ==> q[i].id != q[j].id
  }

  lemma SideIsDistinct(lad: Ladders, lv: Levels, orders: Orders, last: nat, side: Side)
    requires BookOk(lad, lv, orders, last, None)
    ensures DistinctIds(Flat(Abs(lv, orders, side), side))
  {
    var q := Flat(Abs(lv, orders, side), side);
    AbsInOrder(lad, lv, orders, last, side);
    forall i, j | 0 <= i < j < |q|
      ensures q[i].id != q[j].id
    {
      EntryIsOrder(lad, lv, orders, last, side, i);
      EntryIsOrder(lad, lv, orders, last, side, j);
    }
  }

  lemma AbsInOrder(lad: Ladders, lv: Levels, orders: Orders, last: nat, side: Side)
    requires BookOk(lad, lv, orders, last, None)
    ensures var q := Flat(Abs(lv, orders, side), side);
      forall i, j :: 0 <= i < j < |q| && q[i].price == q[j].price ==> q[i].id < q[j].id
  {
    AbsOk(lad, lv, orders, last, None, side);
    var d := Abs(lv, orders, side);
    assert OldestFirst(d) by {
      forall p, i, j | p in d && 0 <= i < j < |d[p]|
        ensures d[p][i].id < d[p][j].id
      {
        var k := Key(side, p);
        assert p in Prices(lv, side) && LevelOk(lad[k], k, lv[k], orders);
      }
    }
    FlatOldestFirst(d, side);
  }

  lemma {:induction false} DistinctCount(q: seq<Rest>, ids: set<nat>)
    requires DistinctIds(q)
    requires forall i :: 0 <= i < |q| ==> q[i].id in ids
    requires forall id :: id in ids ==> !Absent(q, id)
    ensures |q| == |ids|
    decreases |q|
  {
    if q == [] {
      assert forall id :: id in ids ==> false;
      assert ids == {};
    } else {
      var (x, rest) := (q[0].id, q[1..]);
      forall id | id in ids - {x}
        ensures !Absent(rest, id)
      {
        assert !Absent(q, id);
        var i :| 0 <= i < |q| && q[i].id == id;
        assert rest[i - 1] == q[i];
      }
      forall i | 0 <= i < |rest| ensures rest[i].id in ids - {x} { assert rest[i] == q[i + 1]; }
      DistinctCount(rest, ids - {x});
    }
  }

  // On each side rest exactly the registered orders of the side.
  lemma SideCount(lad: Ladders, lv: Levels, orders: Orders, last: nat, side: Side)
    requires BookSound(lad, lv, orders, last, None)
    ensures |Flat(Abs(lv, orders, side), side)| == |OfSide(orders, side)|
  {
    var q := Flat(Abs(lv, orders, side), side);
    SideIsDistinct(lad, lv, orders, last, side);
    forall i | 0 <= i < |q| ensures q[i].id in OfSide(orders, side) { EntryIsOrder(lad, lv, orders, last, side, i); }
    forall id | id in OfSide(orders, side)
      ensures !Absent(q, id)
    {
      QtyInBook(lad, lv, orders, last, side, id);
      RestingFacts(lad, lv, orders, last, id);
      if Absent(q, id) { NoneOf(q, id); }
    }
    DistinctCount(q, OfSide(orders, side));
  }

  ghost function OfSide(orders: Orders, side: Side): set<nat> {
    set id | id in orders && orders[id].side == side
  }

  lemma OrdersCount(lad: Ladders, lv: Levels, orders: Orders, last: nat)
    requires BookSound(lad, lv, orders, last, None)
    ensures |Flat(Abs(lv, orders, BUY), BUY)| + |Flat(Abs(lv, orders, SELL), SELL)| == |orders|
  {
    hide BookSound, Abs, Flat;
    SideCount(lad, lv, orders, last, BUY);
    SideCount(lad, lv, orders, last, SELL);
    var (b, s) := (OfSide(orders, BUY), OfSide(orders, SELL));
    assert b !! s;
    assert orders.Keys == b + s by {
      forall id | id in orders ensures id in b + s { assert orders[id].side.BUY? || orders[id].side.SELL?; }
    }
  }

  // ---------------------------------------------------------------- what a reported trade moves

  // the quantity of the trades in which an order took part
  ghost function Touched(trades: seq<Trade>, id: nat): int {
    if trades == [] then 0 else
      (if trades[0].makerId == id then trades[0].qty else 0) + (if trades[0].takerId == id then trades[0].qty else 0)
      + Touched(trades[1..], id)
  }

  lemma {:induction false} TouchedIs(trades: seq<Trade>, fills: seq<Rest>, first: nat, taker: nat, side: Side, id: nat)
    requires Reports(trades, fills, first, taker, side)
    ensures Touched(trades, id) == QtyOf(fills, id) + if taker == id then Total(fills) else 0
    decreases |trades|
  {
    if trades != [] {
      TouchedIs(trades[1..], fills[1..], first + 1, taker, side, id);
    }
  }

  // An order that enters holds what it enters, a limit order its whole quantity and any other its
  // fills, and every trade takes its quantity from both orders.
  lemma EnteredHolds(b: View, a: View, o: Order, r: AddResult, id: nat)
    requires ViewOk(b) && Executed(b, a, o, r) && o.remaining > 0
    ensures Held(a, id) == Held(b, id) - Touched(r.fills, id)
      + if o.id == id then (if o.tp == LIMIT then o.remaining else Total(Fills(r.fills))) else 0
  {
    var (side, opp) := (o.side, o.side.Opposite());
    var q := Flat(b.On(opp), opp);
    var m := Match(q, side, o.price, o.remaining);
    FlatFacts(b.On(opp), opp);
    MatchTakesFills(q, side, o.price, o.remaining, id);
    MatchConserves(q, side, o.price, o.remaining);
    TouchedIs(r.fills, m.fills, b.lastTrade + 1, o.id, side, id);
    ReportedTotal(r.fills, m.fills, b.lastTrade + 1, o.id, side);
    HeldOn(b, side, id);
    HeldOn(a, side, id);
    if o.tp == LIMIT && m.left > 0 { RestHolds(b.On(side), side, Rest(o.id, o.price, m.left), id); }
  }

  lemma CancelledHolds(b: View, a: View, o: Order, id: nat)
    requires ViewOk(b) && Cancelled(b, a, o)
    ensures Held(a, id) == Held(b, id) - if o.id == id then o.remaining else 0
  {
    CancelTakesOne(b, a, o);
    var (q, q', x) := (Flat(b.On(o.side), o.side), Flat(a.On(o.side), o.side), Rest(o.id, o.price, o.remaining));
    var j: nat :| Removed(q, q', x, j);
    RemovedHolds(q, q', x, j, id);
    HeldOn(b, o.side, id);
    HeldOn(a, o.side, id);
  }
}
