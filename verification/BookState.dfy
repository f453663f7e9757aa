/**
  The representation of the order book (hft_clean/include/order_book.hpp, price_level.hpp and
  types.hpp) and what it means: each price level threads its orders through their ids into one
  first-in-first-out list, the ladder keeps totals and counts per level, and the order map holds
  exactly the resting orders.
*/
module BookState {
  import opened Common
  import opened PriceTime

  datatype OrderType = LIMIT | MARKET | IOC | FOK
  datatype OrderStatus = NEW | PARTIAL | FILLED | CANCELLED | REJECTED

  datatype Order = Order(
    id: nat, price: int, qty: int, remaining: int, prev: nat, next: nat,
    side: Side, tp: OrderType, status: OrderStatus)

  datatype PriceLevel = PriceLevel(price: int, totalQty: int, orderCount: nat, head: nat, tail: nat)

  datatype Trade = Trade(id: nat, makerId: nat, takerId: nat, price: int, qty: int, aggressor: Side)

  // A level of either ladder: the bids and the asks are looked at as one map.
  datatype Key = Key(side: Side, price: int)

  type Ladder = map<int, PriceLevel>
  type Ladders = map<Key, PriceLevel>
  type Orders = map<nat, Order>

  // The ids at each level, oldest first: what the head and next links spell out.
  type Levels = map<Key, seq<nat>>

  // ---------------------------------------------------------------- abstraction

  ghost function Rem(orders: Orders, id: nat): int {
    if id in orders then orders[id].remaining else 0
  }

  ghost function Queue(ids: seq<nat>, p: int, orders: Orders): (q: seq<Rest>)
    ensures |q| == |ids| && forall i :: 0 <= i < |ids| ==> q[i] == Rest(ids[i], p, Rem(orders, ids[i]))
  {
    seq(|ids|, i requires 0 <= i < |ids| => Rest(ids[i], p, Rem(orders, ids[i])))
  }

  ghost function Prices<T>(m: map<Key, T>, side: Side): (s: set<int>)
    ensures forall p {:trigger p in s} :: p in s <==> Key(side, p) in m
  {
    set k | k in m && k.side == side :: k.price
  }

  // What rests on one side: at each price the orders, oldest first.
  ghost function Abs(lv: Levels, orders: Orders, side: Side): Depth {
    map p | p in Prices(lv, side) :: Queue(lv[Key(side, p)], p, orders)
  }

  // ---------------------------------------------------------------- invariant

  ghost predicate Increasing(ids: seq<nat>) {
    forall i, j :: 0 <= i < j < |ids| ==> ids[i] < ids[j]
  }

  // Order ids[i] rests at level k and is linked to its neighbours.
  ghost predicate Linked(ids: seq<nat>, i: nat, k: Key, orders: Orders)
    requires i < |ids|
  {
    && ids[i] != 0 && ids[i] in orders
    && var o := orders[ids[i]];
       && o.price == k.price && o.side == k.side && o.tp == LIMIT && o.remaining > 0
       && (o.status == NEW || o.status == PARTIAL)
       && o.prev == (if i == 0 then 0 else ids[i - 1])
       && o.next == (if i == |ids| - 1 then 0 else ids[i + 1])
  }

  ghost predicate LevelOk(lvl: PriceLevel, k: Key, ids: seq<nat>, orders: Orders) {
    && ids != [] && Increasing(ids)
    && lvl.price == k.price && lvl.head == ids[0] && lvl.tail == ids[|ids| - 1] && lvl.orderCount == |ids|
    && lvl.totalQty == Total(Queue(ids, k.price, orders))
    && forall i {:trigger Linked(ids, i, k, orders)} :: 0 <= i < |ids| ==> Linked(ids, i, k, orders)
  }

  ghost predicate Resting(lv: Levels, o: Order, id: nat) {
    Key(o.side, o.price) in lv && id in lv[Key(o.side, o.price)]
  }

  // The book is consistent; extra is the order that is being matched and does not rest.
  ghost predicate BookOk(lad: Ladders, lv: Levels, orders: Orders, last: nat, extra: Option<nat>) {
    && lad.Keys == lv.Keys
    && (forall k {:trigger LevelOk(lad[k], k, lv[k], orders)} :: k in lv ==> LevelOk(lad[k], k, lv[k], orders))
    && (forall id {:trigger orders[id]} :: id in orders ==> 0 < id <= last && orders[id].id == id)
    && (forall id {:trigger Resting(lv, orders[id], id)} ::
          id in orders && extra != Some(id) ==> Resting(lv, orders[id], id))
    && (extra.Some? ==> extra.value in orders && !Resting(lv, orders[extra.value], extra.value))
    && (forall k {:trigger k in lv} :: k in lv ==> k.price > 0)
  }

  ghost predicate NotCrossed<T>(m: map<Key, T>) {
    forall b, a {:trigger b in Prices(m, BUY), a in Prices(m, SELL)} ::
      b in Prices(m, BUY) && a in Prices(m, SELL) ==> b < a
  }

  // ---------------------------------------------------------------- small facts

  lemma {:induction false} TotalConcat(a: seq<Rest>, b: seq<Rest>)
    ensures Total(a + b) == Total(a) + Total(b)
  {
    if a == [] {
      assert a + b == b;
    } else {
      assert (a + b)[1..] == a[1..] + b;
      TotalConcat(a[1..], b);
    }
  }

  lemma TotalSplit(q: seq<Rest>, i: nat)
    requires i < |q|
    ensures Total(q) == Total(q[..i]) + q[i].qty + Total(q[i + 1..])
  {
    assert q == q[..i] + ([q[i]] + q[i + 1..]);
    TotalConcat(q[..i], [q[i]] + q[i + 1..]);
    assert ([q[i]] + q[i + 1..])[1..] == q[i + 1..];
  }

  // A level does not notice changes of other orders.
  lemma LevelFrame(lvl: PriceLevel, k: Key, ids: seq<nat>, orders: Orders, orders': Orders)
    requires LevelOk(lvl, k, ids, orders)
    requires forall i :: 0 <= i < |ids| ==> ids[i] in orders && ids[i] in orders' && orders'[ids[i]] == orders[ids[i]]
    ensures LevelOk(lvl, k, ids, orders')
    ensures Queue(ids, k.price, orders') == Queue(ids, k.price, orders)
  {
    assert Queue(ids, k.price, orders') == Queue(ids, k.price, orders);
    forall i | 0 <= i < |ids|
      ensures Linked(ids, i, k, orders')
    {
      assert Linked(ids, i, k, orders);
    }
  }

  // An order rests at one level only: the one its own fields name.
  lemma OneLevel(lad: Ladders, lv: Levels, orders: Orders, last: nat, extra: Option<nat>, k: Key, id: nat)
    requires BookOk(lad, lv, orders, last, extra)
    requires k in lv && id in lv[k]
    ensures id in orders && orders[id].side == k.side && orders[id].price == k.price && extra != Some(id)
  {
    var ids := lv[k];
    assert LevelOk(lad[k], k, ids, orders);
    var i :| 0 <= i < |ids| && ids[i] == id;
    assert Linked(ids, i, k, orders);
  }

  // All resting orders but those at level k keep their fields.
  ghost predicate OthersKept(lv: Levels, orders: Orders, orders': Orders, k: Key) {
    forall id {:trigger id in orders'} ::
      id in orders && Key(orders[id].side, orders[id].price) != k && Resting(lv, orders[id], id) ==>
        id in orders' && orders'[id] == orders[id]
  }

  lemma OtherLevel(lad: Ladders, lv: Levels, orders: Orders, orders': Orders, last: nat, extra: Option<nat>, k: Key,
                   c: Key)
    requires BookOk(lad, lv, orders, last, extra) && OthersKept(lv, orders, orders', k)
    requires c in lv && c != k
    ensures c in lad && LevelOk(lad[c], c, lv[c], orders')
    ensures Queue(lv[c], c.price, orders') == Queue(lv[c], c.price, orders)
  {
    var ids := lv[c];
    assert LevelOk(lad[c], c, ids, orders);
    forall i | 0 <= i < |ids|
      ensures ids[i] in orders && ids[i] in orders' && orders'[ids[i]] == orders[ids[i]]
    {
      OneLevel(lad, lv, orders, last, extra, c, ids[i]);
    }
    LevelFrame(lad[c], c, ids, orders, orders');
  }

  // ---------------------------------------------------------------- operations on one level

  // level_remove_order_links, as far as the neighbours of o are concerned
  ghost function Unlinked(orders: Orders, o: Order): Orders {
    var a := if o.prev != 0 && o.prev in orders then orders[o.prev := orders[o.prev].(next := o.next)] else orders;
    if o.next != 0 && o.next in a then a[o.next := a[o.next].(prev := o.prev)] else a
  }

  // ... and as far as the level is concerned
  ghost function LevelWithout(lvl: PriceLevel, o: Order): PriceLevel {
    lvl.(head := if o.prev != 0 then lvl.head else o.next,
         tail := if o.next != 0 then lvl.tail else o.prev,
         orderCount := if lvl.orderCount > 0 then lvl.orderCount - 1 else 0)
  }

  // Taking order i out of a level: its neighbours are joined, everybody else keeps its fields.
  lemma UnlinkedAt(lvl: PriceLevel, k: Key, ids: seq<nat>, orders: Orders, i: nat, x: nat)
    requires LevelOk(lvl, k, ids, orders) && i < |ids| && ids[i] in orders && x in orders
    ensures var o := orders[ids[i]]; var u := Unlinked(orders, o);
      && x in u
      && u[x] == orders[x].(next := if i > 0 && x == ids[i - 1] then o.next else orders[x].next,
                            prev := if i + 1 < |ids| && x == ids[i + 1] then o.prev else orders[x].prev)
    ensures Unlinked(orders, orders[ids[i]]).Keys == orders.Keys
  {
    assert Linked(ids, i, k, orders);
    if i > 0 { assert Linked(ids, i - 1, k, orders); }
    if i + 1 < |ids| { assert Linked(ids, i + 1, k, orders); }
  }

  lemma UnlinkedLinks(lvl: PriceLevel, k: Key, ids: seq<nat>, orders: Orders, i: nat, j: nat)
    requires LevelOk(lvl, k, ids, orders) && i < |ids| && ids[i] in orders && j + 1 < |ids|
    ensures Linked(RemoveAt(ids, i), j, k, Unlinked(orders, orders[ids[i]]) - {ids[i]})
  {
    var c := if j < i then j else j + 1;
    var t, u := RemoveAt(ids, i), Unlinked(orders, orders[ids[i]]);
    assert Linked(ids, i, k, orders) && Linked(ids, c, k, orders);
    UnlinkedAt(lvl, k, ids, orders, i, ids[c]);
    assert t[j] == ids[c] && ids[c] != ids[i];
    assert i > 0 ==> (ids[c] == ids[i - 1] <==> c == i - 1);
    assert i + 1 < |ids| ==> (ids[c] == ids[i + 1] <==> c == i + 1);
    assert u[ids[c]].prev == (if j == 0 then 0 else t[j - 1]);
    assert u[ids[c]].next == (if j == |t| - 1 then 0 else t[j + 1]);
  }

  lemma UnlinkQueue(lvl: PriceLevel, k: Key, ids: seq<nat>, orders: Orders, i: nat)
    requires LevelOk(lvl, k, ids, orders) && i < |ids| && ids[i] in orders
    ensures var q := Queue(RemoveAt(ids, i), k.price, Unlinked(orders, orders[ids[i]]) - {ids[i]});
      q == RemoveAt(Queue(ids, k.price, orders), i) && Total(q) == lvl.totalQty - orders[ids[i]].remaining
  {
    var q, t := Queue(ids, k.price, orders), RemoveAt(ids, i);
    var orders' := Unlinked(orders, orders[ids[i]]) - {ids[i]};
    forall j | 0 <= j < |t|
      ensures t[j] == ids[if j < i then j else j + 1] && Rem(orders', t[j]) == Rem(orders, t[j])
    {
      var c := if j < i then j else j + 1;
      assert Linked(ids, c, k, orders);
      UnlinkedAt(lvl, k, ids, orders, i, ids[c]);
    }
    assert Queue(t, k.price, orders') == RemoveAt(q, i);
    TotalSplit(q, i);
    TotalConcat(q[..i], q[i + 1..]);
  }

  lemma WithoutEnds(ids: seq<nat>, i: nat)
    requires i < |ids| && |ids| > 1 && Increasing(ids)
    ensures var t := RemoveAt(ids, i);
      && Increasing(t) && |t| == |ids| - 1
      && t[0] == ids[if i == 0 then 1 else 0]
      && t[|t| - 1] == ids[if i == |ids| - 1 then |ids| - 2 else |ids| - 1]
  {
  }

  lemma UnlinkLevel(lvl: PriceLevel, k: Key, ids: seq<nat>, orders: Orders, i: nat)
    requires LevelOk(lvl, k, ids, orders) && i < |ids| && |ids| > 1 && ids[i] in orders
    ensures var o := orders[ids[i]];
      LevelOk(LevelWithout(lvl, o).(totalQty := lvl.totalQty - o.remaining), k, RemoveAt(ids, i),
              Unlinked(orders, o) - {ids[i]})
  {
    var o, t := orders[ids[i]], RemoveAt(ids, i);
    assert Linked(ids, i, k, orders);
    assert i > 0 ==> Linked(ids, i - 1, k, orders);
    assert i + 1 < |ids| ==> Linked(ids, i + 1, k, orders);
    WithoutEnds(ids, i);
    UnlinkQueue(lvl, k, ids, orders, i);
    forall j | 0 <= j < |t|
      ensures Linked(t, j, k, Unlinked(orders, o) - {ids[i]})
    {
      UnlinkedLinks(lvl, k, ids, orders, i, j);
    }
  }

  // An order filled in part stays where it is.
  lemma ReduceLevel(lvl: PriceLevel, k: Key, ids: seq<nat>, orders: Orders, i: nat, fill: int)
    requires LevelOk(lvl, k, ids, orders) && i < |ids|
    requires ids[i] in orders && fill < orders[ids[i]].remaining
    ensures var o := orders[ids[i]]; var o' := o.(remaining := o.remaining - fill, status := PARTIAL);
      && LevelOk(lvl.(totalQty := lvl.totalQty - fill), k, ids, orders[ids[i] := o'])
      && Queue(ids, k.price, orders[ids[i] := o']) ==
        Queue(ids, k.price, orders)[i := Rest(ids[i], k.price, o'.remaining)]
  {
    var o := orders[ids[i]];
    var orders' := orders[ids[i] := o.(remaining := o.remaining - fill, status := PARTIAL)];
    var q, q' := Queue(ids, k.price, orders), Queue(ids, k.price, orders');
    assert q' == q[i := Rest(ids[i], k.price, o.remaining - fill)];
    TotalSplit(q, i);
    TotalSplit(q', i);
    assert q'[..i] == q[..i] && q'[i + 1..] == q[i + 1..];
    forall j | 0 <= j < |ids|
      ensures Linked(ids, j, k, orders')
    {
      assert Linked(ids, j, k, orders);
    }
  }

  // level_add_order on an existing level
  ghost function Appended(orders: Orders, lvl: PriceLevel, o: Order): Orders
    requires lvl.tail in orders
  {
    orders[lvl.tail := orders[lvl.tail].(next := o.id)][o.id := o.(prev := lvl.tail, next := 0)]
  }

  ghost predicate Fresh(o: Order, k: Key) {
    && o.id != 0 && o.price == k.price && o.side == k.side && o.tp == LIMIT && o.remaining > 0
    && (o.status == NEW || o.status == PARTIAL)
  }

  lemma AppendLinks(lvl: PriceLevel, k: Key, ids: seq<nat>, orders: Orders, o: Order, j: nat)
    requires LevelOk(lvl, k, ids, orders) && Fresh(o, k)
    requires forall i :: 0 <= i < |ids| ==> ids[i] < o.id
    requires lvl.tail in orders && j <= |ids|
    ensures Linked(ids + [o.id], j, k, Appended(orders, lvl, o))
    ensures j < |ids| ==> Rem(Appended(orders, lvl, o), ids[j]) == Rem(orders, ids[j])
  {
    var last := |ids| - 1;
    assert Linked(ids, last, k, orders);
    if j < |ids| {
      assert Linked(ids, j, k, orders);
      assert ids[j] == ids[last] <==> j == last;
    }
  }

  lemma AppendLevel(lvl: PriceLevel, k: Key, ids: seq<nat>, orders: Orders, o: Order)
    requires LevelOk(lvl, k, ids, orders) && Fresh(o, k)
    requires forall i :: 0 <= i < |ids| ==> ids[i] < o.id
    requires lvl.tail in orders
    ensures LevelOk(lvl.(tail := o.id, totalQty := lvl.totalQty + o.remaining, orderCount := lvl.orderCount + 1),
                    k, ids + [o.id], Appended(orders, lvl, o))
    ensures Queue(ids + [o.id], k.price, Appended(orders, lvl, o)) ==
      Queue(ids, k.price, orders) + [Rest(o.id, k.price, o.remaining)]
  {
    var orders', t := Appended(orders, lvl, o), ids + [o.id];
    forall j | 0 <= j < |t|
      ensures Linked(t, j, k, orders')
      ensures j < |ids| ==> Rem(orders', ids[j]) == Rem(orders, ids[j])
    {
      AppendLinks(lvl, k, ids, orders, o, j);
    }
    assert Queue(t, k.price, orders') == Queue(ids, k.price, orders) + [Rest(o.id, k.price, o.remaining)];
    TotalConcat(Queue(ids, k.price, orders), [Rest(o.id, k.price, o.remaining)]);
    assert Total([Rest(o.id, k.price, o.remaining)]) == o.remaining + Total([]);
  }

  lemma FirstOfLevel(orders: Orders, k: Key, o: Order)
    requires Fresh(o, k)
    ensures LevelOk(PriceLevel(k.price, o.remaining, 1, o.id, o.id), k, [o.id],
      orders[o.id := o.(prev := 0, next := 0)])
    ensures Queue([o.id], k.price, orders[o.id := o.(prev := 0, next := 0)]) == [Rest(o.id, k.price, o.remaining)]
  {
    var orders' := orders[o.id := o.(prev := 0, next := 0)];
    assert Linked([o.id], 0, k, orders');
    assert Queue([o.id], k.price, orders') == [Rest(o.id, k.price, o.remaining)];
    assert Total([Rest(o.id, k.price, o.remaining)]) == o.remaining + Total([]);
  }
}
