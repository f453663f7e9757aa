/**
  The steps of the order book on the whole representation: an order is filled in part, an order
  leaves its level, an order comes to rest. Each keeps the book consistent and changes the
  abstract depth of one side at one price only.
*/
module BookSteps {
  import opened Common
  import opened Int64
  import opened PriceTime
  import opened BookState

  ghost function LevelOf(o: Order): Key { Key(o.side, o.price) }

  // ---------------------------------------------------------------- changes at one level

  // The abstract depth of a side depends on the queues of its levels only.
  lemma SameAbs(lv: Levels, orders: Orders, orders': Orders, side: Side)
    requires forall c :: c in lv && c.side == side ==> Queue(lv[c], c.price, orders') == Queue(lv[c], c.price, orders)
    ensures Abs(lv, orders', side) == Abs(lv, orders, side)
  {
    forall p | p in Prices(lv, side)
      ensures Queue(lv[Key(side, p)], p, orders') == Queue(lv[Key(side, p)], p, orders)
    {
      assert Key(side, p) in lv;
    }
  }

  // Level k changes (or goes, or comes); all else stays.
  ghost predicate OneLevelChanged(lad: Ladders, lad': Ladders, lv: Levels, lv': Levels, k: Key) {
    && lad'.Keys == lv'.Keys
    && lad' - {k} == lad - {k} && lv' - {k} == lv - {k}
  }

  lemma OneLevelChange(lad: Ladders, lad': Ladders, lv: Levels, lv': Levels, orders: Orders, orders': Orders,
                       last: nat, extra: Option<nat>, k: Key, c: Key)
    requires BookOk(lad, lv, orders, last, extra)
    requires OneLevelChanged(lad, lad', lv, lv', k) && OthersKept(lv, orders, orders', k)
    requires c != k && c in lv'
    ensures c in lv && c in lad' && lv'[c] == lv[c] && LevelOk(lad'[c], c, lv'[c], orders')
    ensures Queue(lv'[c], c.price, orders') == Queue(lv[c], c.price, orders)
  {
    assert c in lv' - {k} && (lv' - {k})[c] == lv'[c];
    assert c in lad - {k} && (lad - {k})[c] == lad[c];
    OtherLevel(lad, lv, orders, orders', last, extra, k, c);
  }

  lemma OneAbs(lad: Ladders, lad': Ladders, lv: Levels, lv': Levels, orders: Orders, orders': Orders,
               last: nat, extra: Option<nat>, k: Key)
    requires BookOk(lad, lv, orders, last, extra)
    requires OneLevelChanged(lad, lad', lv, lv', k) && OthersKept(lv, orders, orders', k)
    ensures Abs(lv', orders', k.side.Opposite()) == Abs(lv, orders, k.side.Opposite())
    ensures Abs(lv', orders', k.side) ==
      if k in lv' then Abs(lv, orders, k.side)[k.price := Queue(lv'[k], k.price, orders')]
      else Abs(lv, orders, k.side) - {k.price}
  {
    forall side, p | Key(side, p) != k
      ensures p in Prices(lv', side) <==> p in Prices(lv, side)
      ensures p in Prices(lv', side) ==> Queue(lv'[Key(side, p)], p, orders') == Queue(lv[Key(side, p)], p, orders)
    {
      var c := Key(side, p);
      assert c in lv' <==> c in lv' - {k};
      assert c in lv <==> c in lv - {k};
      if c in lv' { OneLevelChange(lad, lad', lv, lv', orders, orders', last, extra, k, c); }
    }
    var t := k.side.Opposite();
    forall p
      ensures p in Prices(lv', t) <==> p in Prices(lv, t)
      ensures p in Prices(lv', t) ==> Queue(lv'[Key(t, p)], p, orders') == Queue(lv[Key(t, p)], p, orders)
    {
      assert Key(t, p) != k;
    }
    AbsEqual(lv, lv', orders, orders', t);
    AbsChanged(lv, lv', orders, orders', k);
  }

  lemma AbsEqual(lv: Levels, lv': Levels, orders: Orders, orders': Orders, side: Side)
    requires forall p {:trigger p in Prices(lv', side)} :: p in Prices(lv', side) <==> p in Prices(lv, side)
    requires forall p {:trigger p in Prices(lv', side)} :: p in Prices(lv', side) && p in Prices(lv, side) ==>
      Queue(lv'[Key(side, p)], p, orders') == Queue(lv[Key(side, p)], p, orders)
    ensures Abs(lv', orders', side) == Abs(lv, orders, side)
  {
  }

  lemma AbsChanged(lv: Levels, lv': Levels, orders: Orders, orders': Orders, k: Key)
    requires forall p {:trigger p in Prices(lv', k.side)} :: p != k.price ==>
      (p in Prices(lv', k.side) <==> p in Prices(lv, k.side))
    requires forall p {:trigger p in Prices(lv', k.side)} ::
      p != k.price && p in Prices(lv', k.side) && p in Prices(lv, k.side) ==>
        Queue(lv'[Key(k.side, p)], p, orders') == Queue(lv[Key(k.side, p)], p, orders)
    ensures Abs(lv', orders', k.side) ==
      if k in lv' then Abs(lv, orders, k.side)[k.price := Queue(lv'[k], k.price, orders')]
      else Abs(lv, orders, k.side) - {k.price}
  {
    assert Key(k.side, k.price) == k;
    assert k.price in Prices(lv', k.side) <==> k in lv';
  }

  // ---------------------------------------------------------------- the order being matched

  // The levels do not see an order that does not rest.
  lemma OffBook(lad: Ladders, lv: Levels, orders: Orders, orders': Orders, last: nat, extra: Option<nat>, x: nat,
                c: Key)
    requires BookOk(lad, lv, orders, last, extra) && (x in orders ==> extra == Some(x))
    requires orders' - {x} == orders - {x} && c in lv
    ensures x !in lv[c] && c in lad && LevelOk(lad[c], c, lv[c], orders')
    ensures Queue(lv[c], c.price, orders') == Queue(lv[c], c.price, orders)
  {
    assert LevelOk(lad[c], c, lv[c], orders);
    forall i | 0 <= i < |lv[c]|
      ensures lv[c][i] in orders && lv[c][i] in orders' && orders'[lv[c][i]] == orders[lv[c][i]] && lv[c][i] != x
    {
      OneLevel(lad, lv, orders, last, extra, c, lv[c][i]);
      assert lv[c][i] in orders - {x} && (orders' - {x})[lv[c][i]] == orders'[lv[c][i]];
    }
    LevelFrame(lad[c], c, lv[c], orders, orders');
  }

  lemma OffBookAbs(lad: Ladders, lv: Levels, orders: Orders, orders': Orders, last: nat, extra: Option<nat>, x: nat)
    requires BookOk(lad, lv, orders, last, extra) && (x in orders ==> extra == Some(x))
    requires orders' - {x} == orders - {x}
    ensures Abs(lv, orders', BUY) == Abs(lv, orders, BUY) && Abs(lv, orders', SELL) == Abs(lv, orders, SELL)
    ensures forall side {:trigger Abs(lv, orders', side)} :: Abs(lv, orders', side) == Abs(lv, orders, side)
  {
    forall c | c in lv
      ensures Queue(lv[c], c.price, orders') == Queue(lv[c], c.price, orders)
    {
      OffBook(lad, lv, orders, orders', last, extra, x, c);
    }
    SameAbs(lv, orders, orders', BUY);
    SameAbs(lv, orders, orders', SELL);
    forall side ensures Abs(lv, orders', side) == Abs(lv, orders, side) { assert side.BUY? || side.SELL?; }
  }

  // Changing the order that is being matched does not touch the book.
  lemma ChangeExtra(lad: Ladders, lv: Levels, orders: Orders, last: nat, x: nat, o: Order)
    requires BookOk(lad, lv, orders, last, Some(x))
    requires o.id == x && LevelOf(o) == LevelOf(orders[x])
    ensures BookOk(lad, lv, orders[x := o], last, Some(x))
    ensures forall side {:trigger Abs(lv, orders[x := o], side)} ::
      Abs(lv, orders[x := o], side) == Abs(lv, orders, side)
  {
    hide LevelOk, Abs, Queue;
    var orders' := orders[x := o];
    assert orders' - {x} == orders - {x};
    forall c | c in lv
      ensures LevelOk(lad[c], c, lv[c], orders')
    {
      OffBook(lad, lv, orders, orders', last, Some(x), x, c);
    }
    forall id | id in orders' && id != x
      ensures Resting(lv, orders'[id], id)
    {
      assert Resting(lv, orders[id], id);
    }
    OffBookAbs(lad, lv, orders, orders', last, Some(x), x);
  }

  // ---------------------------------------------------------------- a fill in part

  // Order i of a level loses fill, but not all it has.
  lemma ReduceBook(lad: Ladders, lad': Ladders, lv: Levels, orders: Orders, orders': Orders,
                   last: nat, extra: Option<nat>, k: Key, i: nat, fill: int)
    requires BookOk(lad, lv, orders, last, extra)
    requires k in lv && k in lad && i < |lv[k]| && lv[k][i] in orders && fill < orders[lv[k][i]].remaining
    requires lad' == lad[k := lad[k].(totalQty := lad[k].totalQty - fill)]
    requires orders' == orders[lv[k][i] := orders[lv[k][i]].(remaining := orders[lv[k][i]].remaining - fill,
      status := PARTIAL)]
    ensures BookOk(lad', lv, orders', last, extra)
    ensures Abs(lv, orders', k.side) == Abs(lv, orders, k.side)[k.price :=
      Queue(lv[k], k.price, orders)[i := Rest(lv[k][i], k.price, orders[lv[k][i]].remaining - fill)]]
    ensures Abs(lv, orders', k.side.Opposite()) == Abs(lv, orders, k.side.Opposite())
  {
    hide LevelOk, Abs, Queue, Linked;
    assert LevelOk(lad[k], k, lv[k], orders);
    OneLevel(lad, lv, orders, last, extra, k, lv[k][i]);
    ReduceLevel(lad[k], k, lv[k], orders, i, fill);
    forall c | c in lv
      ensures LevelOk(lad'[c], c, lv[c], orders')
    {
      if c != k { OneLevelChange(lad, lad', lv, lv, orders, orders', last, extra, k, c); }
    }
    forall id | id in orders'
      ensures id in orders && orders'[id].id == orders[id].id
      ensures Resting(lv, orders'[id], id) <==> Resting(lv, orders[id], id)
    {
    }
    OneAbs(lad, lad', lv, lv, orders, orders', last, extra, k);
  }

  // ---------------------------------------------------------------- an order leaves its level

  lemma UnlinkKeepsOthers(lad: Ladders, lv: Levels, orders: Orders, last: nat, extra: Option<nat>, k: Key, i: nat)
    requires BookOk(lad, lv, orders, last, extra)
    requires k in lv && k in lad && i < |lv[k]| && lv[k][i] in orders
    ensures var id := lv[k][i]; var orders' := Unlinked(orders, orders[id]) - {id};
      && OthersKept(lv, orders, orders', k)
      && orders'.Keys == orders.Keys - {id}
      && (forall x :: x in orders' ==> orders'[x] == orders[x].(prev := orders'[x].prev, next := orders'[x].next))
      && (forall x :: x in orders' && x !in lv[k] ==> orders'[x] == orders[x])
  {
    var ids := lv[k];
    assert LevelOk(lad[k], k, ids, orders);
    var u := Unlinked(orders, orders[ids[i]]);
    forall x | x in orders
      ensures x in u && u[x] == orders[x].(prev := u[x].prev, next := u[x].next)
      ensures x !in ids ==> u[x] == orders[x]
    {
      UnlinkedAt(lad[k], k, ids, orders, i, x);
    }
    UnlinkedAt(lad[k], k, ids, orders, i, ids[i]);
    forall x | x in ids
      ensures x in orders && LevelOf(orders[x]) == k
    {
      OneLevel(lad, lv, orders, last, extra, k, x);
    }
  }

  // the level of lad that o leaves
  ghost function Left(lad: Ladders, o: Order): Ladders
    requires LevelOf(o) in lad
  {
    var lvl := LevelWithout(lad[LevelOf(o)], o).(totalQty := lad[LevelOf(o)].totalQty - o.remaining);
    if lvl.orderCount == 0 then lad - {LevelOf(o)} else lad[LevelOf(o) := lvl]
  }

  ghost predicate IsUnlink(lad: Ladders, lad': Ladders, lv: Levels, lv': Levels, orders: Orders, orders': Orders,
                           k: Key, i: nat) {
    && k in lv && k in lad && i < |lv[k]| && lv[k][i] in orders && LevelOf(orders[lv[k][i]]) == k
    && lad' == Left(lad, orders[lv[k][i]]) && lv' == RemoveFrom(lv, k, i)
    && orders' == Unlinked(orders, orders[lv[k][i]]) - {lv[k][i]}
  }

  lemma LevelIn(lad: Ladders, lv: Levels, orders: Orders, last: nat, extra: Option<nat>, k: Key, i: nat)
    requires BookOk(lad, lv, orders, last, extra) && k in lv && i < |lv[k]|
    ensures k in lad && LevelOk(lad[k], k, lv[k], orders) && Linked(lv[k], i, k, orders)
    ensures lad.Keys == lv.Keys && lad[k].orderCount == |lv[k]|
  {
    assert LevelOk(lad[k], k, lv[k], orders);
  }

  lemma UnlinkedLadders(lad: Ladders, lad': Ladders, lv: Levels, lv': Levels, orders: Orders, orders': Orders,
                        last: nat, extra: Option<nat>, k: Key, i: nat)
    requires BookOk(lad, lv, orders, last, extra) && IsUnlink(lad, lad', lv, lv', orders, orders', k, i)
    ensures OneLevelChanged(lad, lad', lv, lv', k)
  {
    LevelIn(lad, lv, orders, last, extra, k, i);
    hide BookOk, LevelOk, Linked, Queue, Unlinked;
  }

  lemma UnlinkedLevel(lad: Ladders, lad': Ladders, lv: Levels, lv': Levels, orders: Orders, orders': Orders,
                      last: nat, extra: Option<nat>, k: Key, i: nat)
    requires BookOk(lad, lv, orders, last, extra) && IsUnlink(lad, lad', lv, lv', orders, orders', k, i)
    ensures OneLevelChanged(lad, lad', lv, lv', k)
    ensures k in lv' ==> LevelOk(lad'[k], k, lv'[k], orders')
    ensures k in lv' ==> Queue(lv'[k], k.price, orders') == RemoveAt(Queue(lv[k], k.price, orders), i)
  {
    UnlinkedLadders(lad, lad', lv, lv', orders, orders', last, extra, k, i);
    LevelIn(lad, lv, orders, last, extra, k, i);
    hide BookOk, LevelOk, Linked, Queue, Unlinked, OneLevelChanged;
    if |lv[k]| > 1 {
      UnlinkLevel(lad[k], k, lv[k], orders, i);
      UnlinkQueue(lad[k], k, lv[k], orders, i);
    }
  }

  lemma UnlinkBook(lad: Ladders, lad': Ladders, lv: Levels, lv': Levels, orders: Orders, orders': Orders,
                   last: nat, extra: Option<nat>, k: Key, i: nat)
    requires BookOk(lad, lv, orders, last, extra) && IsUnlink(lad, lad', lv, lv', orders, orders', k, i)
    ensures BookOk(lad', lv', orders', last, extra)
  {
    UnlinkKeepsOthers(lad, lv, orders, last, extra, k, i);
    UnlinkedLevel(lad, lad', lv, lv', orders, orders', last, extra, k, i);
    forall c | c in lv'
      ensures LevelOk(lad'[c], c, lv'[c], orders') && c.price > 0
    {
      if c != k { OneLevelChange(lad, lad', lv, lv', orders, orders', last, extra, k, c); }
    }
    UnlinkResting(lad, lv, orders, last, extra, k, i);
    forall x | x in orders'
      ensures orders'[x].id == orders[x].id
      ensures Resting(lv', orders'[x], x) <==> Resting(lv, orders[x], x)
    {
    }
    OneLevel(lad, lv, orders, last, extra, k, lv[k][i]);
  }

  lemma UnlinkAbs(lad: Ladders, lad': Ladders, lv: Levels, lv': Levels, orders: Orders, orders': Orders,
                  last: nat, extra: Option<nat>, k: Key, i: nat)
    requires BookOk(lad, lv, orders, last, extra) && IsUnlink(lad, lad', lv, lv', orders, orders', k, i)
    ensures k.price in Abs(lv, orders, k.side) && i < |Abs(lv, orders, k.side)[k.price]|
    ensures Abs(lv', orders', k.side) == RemoveFrom(Abs(lv, orders, k.side), k.price, i)
    ensures Abs(lv', orders', k.side.Opposite()) == Abs(lv, orders, k.side.Opposite())
  {
    UnlinkKeepsOthers(lad, lv, orders, last, extra, k, i);
    UnlinkedLevel(lad, lad', lv, lv', orders, orders', last, extra, k, i);
    OneAbs(lad, lad', lv, lv', orders, orders', last, extra, k);
    assert k.price in Prices(lv, k.side);
  }

  // Who rested before still rests, apart from the order that left.
  lemma UnlinkResting(lad: Ladders, lv: Levels, orders: Orders, last: nat, extra: Option<nat>, k: Key, i: nat)
    requires BookOk(lad, lv, orders, last, extra)
    requires k in lv && i < |lv[k]| && lv[k][i] in orders
    ensures forall x :: x in orders && x != lv[k][i] ==>
      (Resting(RemoveFrom(lv, k, i), orders[x], x) <==> Resting(lv, orders[x], x))
  {
    var ids := lv[k];
    forall x | x != ids[i]
      ensures x in ids <==> x in RemoveAt(ids, i)
    {
      if x in ids {
        var j :| 0 <= j < |ids| && ids[j] == x;
        assert RemoveAt(ids, i)[if j < i then j else j - 1] == x;
      }
    }
    if |ids| == 1 { assert forall x :: x in ids ==> x == ids[i]; }
  }

  // ---------------------------------------------------------------- an order comes to rest

  // level_add_order, including the creation of the level
  ghost function AddedLevel(lad: Ladders, o: Order): PriceLevel {
    var k := LevelOf(o);
    if k in lad then
      lad[k].(tail := o.id, totalQty := lad[k].totalQty + o.remaining, orderCount := lad[k].orderCount + 1)
    else PriceLevel(o.price, o.remaining, 1, o.id, o.id)
  }

  ghost function AddedOrders(lad: Ladders, orders: Orders, o: Order): Orders {
    var k := LevelOf(o);
    if k in lad && lad[k].tail in orders then Appended(orders, lad[k], o) else orders[o.id := o.(prev := 0, next := 0)]
  }

  // an order that joins a level
  lemma RestBehindLevel(lad: Ladders, lv: Levels, orders: Orders, o: Order)
    requires BookOk(lad, lv, orders, o.id, Some(o.id)) && orders[o.id] == o
    requires Fresh(o, LevelOf(o)) && LevelOf(o) in lv
    ensures var orders' := AddedOrders(lad, orders, o); var k := LevelOf(o);
      && LevelOk(AddedLevel(lad, o), k, AddTo(lv, k, o.id)[k], orders')
      && Queue(AddTo(lv, k, o.id)[k], k.price, orders') ==
         AddTo(Abs(lv, orders, k.side), k.price, Rest(o.id, k.price, o.remaining))[k.price]
      && orders'.Keys == orders.Keys && OthersKept(lv, orders, orders', k)
      && (forall x :: x in orders ==> orders'[x] == orders[x].(prev := orders'[x].prev, next := orders'[x].next))
  {
    hide Linked, Queue;
    var k := LevelOf(o);
    var ids := lv[k];
    assert LevelOk(lad[k], k, ids, orders);
    forall i | 0 <= i < |ids|
      ensures ids[i] < o.id && ids[i] in orders
    {
      OneLevel(lad, lv, orders, o.id, Some(o.id), k, ids[i]);
    }
    AppendLevel(lad[k], k, ids, orders, o);
    OneLevel(lad, lv, orders, o.id, Some(o.id), k, ids[|ids| - 1]);
    assert k.price in Prices(lv, k.side);
  }

  // ... or makes one
  lemma RestAtNewLevel(lad: Ladders, lv: Levels, orders: Orders, o: Order)
    requires BookOk(lad, lv, orders, o.id, Some(o.id)) && orders[o.id] == o
    requires Fresh(o, LevelOf(o)) && LevelOf(o) !in lv
    ensures var orders' := AddedOrders(lad, orders, o); var k := LevelOf(o);
      && LevelOk(AddedLevel(lad, o), k, AddTo(lv, k, o.id)[k], orders')
      && Queue(AddTo(lv, k, o.id)[k], k.price, orders') ==
         AddTo(Abs(lv, orders, k.side), k.price, Rest(o.id, k.price, o.remaining))[k.price]
      && orders'.Keys == orders.Keys && OthersKept(lv, orders, orders', k)
      && (forall x :: x in orders ==> orders'[x] == orders[x].(prev := orders'[x].prev, next := orders'[x].next))
  {
    hide Linked, Queue;
    FirstOfLevel(orders, LevelOf(o), o);
    assert LevelOf(o).price !in Prices(lv, LevelOf(o).side);
  }

  lemma RestLevel(lad: Ladders, lv: Levels, orders: Orders, o: Order)
    requires BookOk(lad, lv, orders, o.id, Some(o.id)) && orders[o.id] == o
    requires Fresh(o, LevelOf(o))
    ensures var orders' := AddedOrders(lad, orders, o); var k := LevelOf(o);
      && LevelOk(AddedLevel(lad, o), k, AddTo(lv, k, o.id)[k], orders')
      && Queue(AddTo(lv, k, o.id)[k], k.price, orders') ==
         AddTo(Abs(lv, orders, k.side), k.price, Rest(o.id, k.price, o.remaining))[k.price]
      && orders'.Keys == orders.Keys && OthersKept(lv, orders, orders', k)
      && (forall x :: x in orders ==> orders'[x] == orders[x].(prev := orders'[x].prev, next := orders'[x].next))
  {
    hide *;
    if LevelOf(o) in lv { RestBehindLevel(lad, lv, orders, o); } else { RestAtNewLevel(lad, lv, orders, o); }
  }

  ghost predicate IsRest(lad: Ladders, lad': Ladders, lv: Levels, lv': Levels, orders: Orders, orders': Orders,
                         o: Order) {
    && o.id in orders && orders[o.id] == o && Fresh(o, LevelOf(o))
    && lad' == lad[LevelOf(o) := AddedLevel(lad, o)] && lv' == AddTo(lv, LevelOf(o), o.id)
    && orders' == AddedOrders(lad, orders, o)
  }

  lemma RestBook(lad: Ladders, lad': Ladders, lv: Levels, lv': Levels, orders: Orders, orders': Orders, o: Order)
    requires BookOk(lad, lv, orders, o.id, Some(o.id)) && IsRest(lad, lad', lv, lv', orders, orders', o)
    requires o.price > 0
    ensures BookOk(lad', lv', orders', o.id, None)
  {
    var k := LevelOf(o);
    RestLevel(lad, lv, orders, o);
    forall c | c in lv'
      ensures LevelOk(lad'[c], c, lv'[c], orders') && c.price > 0
    {
      if c != k { OneLevelChange(lad, lad', lv, lv', orders, orders', o.id, Some(o.id), k, c); }
    }
    RestResting(lad, lv, orders, o);
    forall x | x in orders
      ensures orders'[x].id == orders[x].id && Resting(lv', orders'[x], x)
    {
    }
  }

  lemma RestResting(lad: Ladders, lv: Levels, orders: Orders, o: Order)
    requires BookOk(lad, lv, orders, o.id, Some(o.id)) && orders[o.id] == o
    ensures forall x {:trigger orders[x]} :: x in orders ==> Resting(AddTo(lv, LevelOf(o), o.id), orders[x], x)
  {
    var k := LevelOf(o);
    var lv' := AddTo(lv, k, o.id);
    forall x | x in orders
      ensures Resting(lv', orders[x], x)
    {
      if x == o.id {
        assert lv'[k][|lv'[k]| - 1] == x;
      } else {
        assert Resting(lv, orders[x], x);
      }
    }
  }

  lemma RestAbs(lad: Ladders, lad': Ladders, lv: Levels, lv': Levels, orders: Orders, orders': Orders, o: Order)
    requires BookOk(lad, lv, orders, o.id, Some(o.id)) && IsRest(lad, lad', lv, lv', orders, orders', o)
    ensures Abs(lv', orders', o.side) == AddTo(Abs(lv, orders, o.side), o.price, Rest(o.id, o.price, o.remaining))
    ensures Abs(lv', orders', o.side.Opposite()) == Abs(lv, orders, o.side.Opposite())
  {
    RestLevel(lad, lv, orders, o);
    OneAbs(lad, lad', lv, lv', orders, orders', o.id, Some(o.id), LevelOf(o));
  }

  // ---------------------------------------------------------------- a maker trades with the order being matched

  // The oldest order of a level: where it is linked, and that it is not the order being matched.
  lemma HeadFacts(lad: Ladders, lv: Levels, orders: Orders, last: nat, x: nat, k: Key)
    requires BookOk(lad, lv, orders, last, Some(x)) && k in lv
    ensures k in lad && LevelOk(lad[k], k, lv[k], orders)
    ensures var id := lv[k][0];
      && id in orders && id != x && orders[id].id == id && LevelOf(orders[id]) == k
      && orders[id].remaining > 0 && lad[k].head == id
      && orders[id].prev == 0 && orders[id].next != id && orders[id].next != x
      && orders[id].next == (if |lv[k]| == 1 then 0 else lv[k][1])
      && k.price in Abs(lv, orders, k.side) && Abs(lv, orders, k.side)[k.price] == Queue(lv[k], k.price, orders)
      && x !in lv[k]
  {
    var ids := lv[k];
    assert LevelOk(lad[k], k, ids, orders);
    assert Linked(ids, 0, k, orders);
    OneLevel(lad, lv, orders, last, Some(x), k, ids[0]);
    if |ids| > 1 { OneLevel(lad, lv, orders, last, Some(x), k, ids[1]); }
    assert k.price in Prices(lv, k.side);
    if x in ids { OneLevel(lad, lv, orders, last, Some(x), k, x); }
  }

  ghost function Taken(t: Order, fill: int): Order {
    t.(remaining := t.remaining - fill, status := if t.remaining == fill then FILLED else PARTIAL)
  }

  // fill_order on the order map: both lose fill, an exhausted maker is unlinked and dropped.
  ghost function Filled(orders: Orders, m: Order, t: Order, fill: int): Orders {
    (if fill == m.remaining then Unlinked(orders, m) - {m.id}
     else orders[m.id := m.(remaining := m.remaining - fill, status := PARTIAL)])[t.id := Taken(t, fill)]
  }

  // ... and on the ladders
  ghost function FilledLadders(lad: Ladders, m: Order, fill: int): Ladders
    requires LevelOf(m) in lad
  {
    if fill == m.remaining then Left(lad, m)
    else lad[LevelOf(m) := lad[LevelOf(m)].(totalQty := lad[LevelOf(m)].totalQty - fill)]
  }

  // The depth after the oldest order at price p loses fill.
  ghost function FillHead(d: Depth, p: int, fill: int): Depth
    requires p in d && d[p] != []
  {
    if d[p][0].qty == fill then RemoveFrom(d, p, 0)
    else d[p := [d[p][0].(qty := d[p][0].qty - fill)] + d[p][1..]]
  }

  lemma FillBook(lad: Ladders, lad': Ladders, lv: Levels, lv': Levels, orders: Orders, orders': Orders,
                 last: nat, m: Order, t: Order, fill: int)
    requires BookOk(lad, lv, orders, last, Some(t.id)) && t.id in orders && orders[t.id] == t
    requires LevelOf(m) in lv && LevelOf(m) in lad && m.id in orders && orders[m.id] == m
    requires lv[LevelOf(m)] != [] && lv[LevelOf(m)][0] == m.id && 0 < fill <= m.remaining
    requires lad' == FilledLadders(lad, m, fill) && orders' == Filled(orders, m, t, fill)
    requires lv' == if fill == m.remaining then RemoveFrom(lv, LevelOf(m), 0) else lv
    ensures BookOk(lad', lv', orders', last, Some(t.id))
    ensures m.price in Abs(lv, orders, m.side) && Abs(lv, orders, m.side)[m.price] != []
    ensures Abs(lv, orders, m.side)[m.price][0] == Rest(m.id, m.price, m.remaining)
    ensures Abs(lv', orders', m.side) == FillHead(Abs(lv, orders, m.side), m.price, fill)
    ensures Abs(lv', orders', m.side.Opposite()) == Abs(lv, orders, m.side.Opposite())
  {
    var k := LevelOf(m);
    HeadFacts(lad, lv, orders, last, t.id, k);
    var q := Queue(lv[k], k.price, orders);
    if fill == m.remaining {
      var mid := Unlinked(orders, m) - {m.id};
      UnlinkKeepsOthers(lad, lv, orders, last, Some(t.id), k, 0);
      UnlinkBook(lad, lad', lv, lv', orders, mid, last, Some(t.id), k, 0);
      UnlinkAbs(lad, lad', lv, lv', orders, mid, last, Some(t.id), k, 0);
      ChangeExtra(lad', lv', mid, last, t.id, Taken(t, fill));
    } else {
      var mid := orders[m.id := m.(remaining := m.remaining - fill, status := PARTIAL)];
      ReduceBook(lad, lad', lv, orders, mid, last, Some(t.id), k, 0, fill);
      ChangeExtra(lad', lv, mid, last, t.id, Taken(t, fill));
      assert q[0 := Rest(m.id, m.price, m.remaining - fill)] == [Rest(m.id, m.price, m.remaining - fill)] + q[1..];
    }
  }

  // fill_order works in two steps: the quantities first, then the states and links.
  ghost function Settled(orders: Orders, maker: nat, taker: nat): Orders
    requires maker in orders && taker in orders
  {
    var (m, t) := (orders[maker], orders[taker]);
    (if m.remaining == 0 then Unlinked(orders, m) - {maker} else orders[maker := m.(status := PARTIAL)])
      [taker := t.(status := if t.remaining == 0 then FILLED else PARTIAL)]
  }

  function LessRemaining(o: Order, fill: int): Order {
    o.(remaining := o.remaining - fill)
  }

  ghost function LessTotal(lad: Ladders, k: Key, fill: int): Ladders
    requires k in lad
  {
    lad[k := lad[k].(totalQty := lad[k].totalQty - fill)]
  }

  lemma SettledIsFilled(orders: Orders, orders1: Orders, orders2: Orders, m: Order, t: Order, fill: int)
    requires m.id in orders && t.id in orders && m.id != t.id && orders[m.id] == m && orders[t.id] == t
    requires m.prev == 0 && m.next != m.id && m.next != t.id
    requires orders1 == orders[m.id := LessRemaining(m, fill)][t.id := LessRemaining(t, fill)]
    requires orders2 == Settled(orders1, m.id, t.id)
    ensures orders2 == Filled(orders, m, t, fill)
  {
  }

  lemma LeftAfterTake(lad: Ladders, m: Order, fill: int)
    requires LevelOf(m) in lad
    ensures (if fill == m.remaining then Left(LessTotal(lad, LevelOf(m), fill), LessRemaining(m, fill))
             else LessTotal(lad, LevelOf(m), fill)) == FilledLadders(lad, m, fill)
  {
    var k := LevelOf(m);
    var lad0 := LessTotal(lad, k, fill);
    var o := LessRemaining(m, fill);
    var lvl := LevelWithout(lad0[k], o).(totalQty := lad0[k].totalQty - o.remaining);
    assert lad0 - {k} == lad - {k};
    assert lad0[k := lvl] == lad[k := lvl];
  }

  // ---------------------------------------------------------------- one fill, seen by the pure matcher

  // Filling the oldest order at the best price is one step of the matcher.
  lemma MatchStep(d: Depth, taker: Side, p: int, limit: int, want: int, fill: int)
    requires p in d && p == Best(d.Keys, taker.Opposite()) && d[p] != [] && d[p][0].price == p && d[p][0].qty > 0
    requires Accepts(taker, limit, p) && want > 0 && fill == if want < d[p][0].qty then want else d[p][0].qty
    ensures var opp := taker.Opposite();
      var (a, b) := (Match(Flat(d, opp), taker, limit, want),
        Match(Flat(FillHead(d, p, fill), opp), taker, limit, want - fill));
      && a.fills == [Rest(d[p][0].id, p, fill)] + b.fills && a.book == b.book && a.left == b.left
  {
    var opp := taker.Opposite();
    var q := Flat(d, opp);
    PopHead(d, opp, p);
    if fill == d[p][0].qty {
      assert RemoveAt(d[p], 0) == d[p][1..];
      assert q[1..] == Flat(FillHead(d, p, fill), opp);
    } else {
      var r := d[p][0].(qty := d[p][0].qty - fill);
      ReplaceHead(d, opp, p, r);
      assert FillHead(d, p, fill) == d[p := [r] + d[p][1..]];
    }
  }

  // When nothing is left to do, the matcher stops.
  lemma MatchStops(d: Depth, taker: Side, limit: int, want: int)
    requires DepthOk(d)
    requires want <= 0 || d.Keys == {} || !Accepts(taker, limit, Best(d.Keys, taker.Opposite()))
    ensures Match(Flat(d, taker.Opposite()), taker, limit, want) == Matched([], Flat(d, taker.Opposite()), want)
  {
    if d.Keys != {} {
      var p := Best(d.Keys, taker.Opposite());
      PopHead(d, taker.Opposite(), p);
    }
  }

  // A consistent book has positive quantities at the prices of its levels.
  lemma AbsOk(lad: Ladders, lv: Levels, orders: Orders, last: nat, extra: Option<nat>, side: Side)
    requires BookOk(lad, lv, orders, last, extra)
    ensures DepthOk(Abs(lv, orders, side)) && Abs(lv, orders, side).Keys == Prices(lv, side)
  {
    forall p, i | p in Prices(lv, side) && 0 <= i < |lv[Key(side, p)]|
      ensures Rem(orders, lv[Key(side, p)][i]) > 0
    {
      var k := Key(side, p);
      assert LevelOk(lad[k], k, lv[k], orders);
      assert Linked(lv[k], i, k, orders);
    }
    forall p | p in Prices(lv, side)
      ensures lv[Key(side, p)] != []
    {
      var k := Key(side, p);
      assert LevelOk(lad[k], k, lv[k], orders);
    }
  }

  ghost function FillOf(orders: Orders, maker: nat, taker: nat): int
    requires maker in orders && taker in orders
  {
    if orders[taker].remaining < orders[maker].remaining then orders[taker].remaining else orders[maker].remaining
  }

  // One fill, as it shows in the abstract book and in the order being matched.
  ghost predicate StepOf(orders: Orders, lv: Levels, orders': Orders, lv': Levels, taker: nat, k: Key) {
    && k in lv && lv[k] != [] && lv[k][0] in orders && taker in orders && taker in orders'
    && var m := orders[lv[k][0]]; var fill := FillOf(orders, lv[k][0], taker);
       && LevelOf(m) == k && 0 < fill && orders'[taker] == Taken(orders[taker], fill)
       && lv' == (if fill == m.remaining then RemoveFrom(lv, k, 0) else lv)
       && k.price in Abs(lv, orders, k.side) && Abs(lv, orders, k.side)[k.price] != []
       && Abs(lv, orders, k.side)[k.price][0] == Rest(lv[k][0], k.price, m.remaining)
       && Abs(lv', orders', k.side) == FillHead(Abs(lv, orders, k.side), k.price, fill)
       && Abs(lv', orders', k.side.Opposite()) == Abs(lv, orders, k.side.Opposite())
  }

  // The book is consistent and not crossed; one equation, so that it is proved as one fact.
  ghost predicate BookSound(lad: Ladders, lv: Levels, orders: Orders, last: nat, extra: Option<nat>) {
    BookOk(lad, lv, orders, last, extra) && NotCrossed(lv)
  }

  lemma EmptyBook()
    ensures BookSound(map[], map[], map[], 0, None)
    ensures Abs(map[], map[], BUY) == map[] && Abs(map[], map[], SELL) == map[]
  {
    var lv: Levels := map[];
    assert Prices(lv, BUY) == {} && Prices(lv, SELL) == {};
  }

  lemma FewerUncrossed(lv: Levels, lv': Levels)
    requires NotCrossed(lv) && lv'.Keys <= lv.Keys
    ensures NotCrossed(lv')
  {
    forall side, p | p in Prices(lv', side) ensures p in Prices(lv, side) { assert Key(side, p) in lv'; }
  }

  lemma HeadIsMaker(lad: Ladders, lv: Levels, orders: Orders, last: nat, x: nat, k: Key)
    requires BookSound(lad, lv, orders, last, Some(x)) && k in lv
    ensures k in lad && lv[k] != [] && lv[k][0] in orders && LevelOf(orders[lv[k][0]]) == k
  {
    HeadFacts(lad, lv, orders, last, x, k);
  }

  lemma FillStep(lad: Ladders, lad': Ladders, lv: Levels, lv': Levels, orders: Orders, orders': Orders,
                 last: nat, maker: nat, taker: nat, k: Key)
    requires BookSound(lad, lv, orders, last, Some(taker)) && orders[taker].remaining > 0
    requires k in lv && lv[k] != [] && lv[k][0] == maker && maker in orders && LevelOf(orders[maker]) == k && k in lad
    requires orders' == Filled(orders, orders[maker], orders[taker], FillOf(orders, maker, taker))
    requires lad' == FilledLadders(lad, orders[maker], FillOf(orders, maker, taker))
    requires lv' == if FillOf(orders, maker, taker) == orders[maker].remaining then RemoveFrom(lv, k, 0) else lv
    ensures BookSound(lad', lv', orders', last, Some(taker))
    ensures StepOf(orders, lv, orders', lv', taker, k)
  {
    HeadFacts(lad, lv, orders, last, taker, k);
    FillBook(lad, lad', lv, lv', orders, orders', last, orders[maker], orders[taker], FillOf(orders, maker, taker));
    assert lv'.Keys <= lv.Keys;
    FewerUncrossed(lv, lv');
  }

  // ---------------------------------------------------------------- a run of match_order

  ghost function Fills(trades: seq<Trade>): (fs: seq<Rest>)
    ensures |fs| == |trades|
    ensures forall i :: 0 <= i < |fs| ==> fs[i] == Rest(trades[i].makerId, trades[i].price, trades[i].qty)
  {
    seq(|trades|, i requires 0 <= i < |trades| => Rest(trades[i].makerId, trades[i].price, trades[i].qty))
  }

  // the situation in which match_order starts: both sides, the order, the number of the first trade
  datatype Start = Start(opposite: Depth, own: Depth, order: Order, first: nat, volume: int, added: nat, executed: nat,
                         dropped: int, cancelled: nat)

  ghost function Rest0(s: Start, opposite: Depth, left: int): Matched {
    Match(Flat(opposite, s.order.side.Opposite()), s.order.side, s.order.price, left)
  }

  // the trades of a run are numbered consecutively and name the order
  ghost predicate Numbered(s: Start, trades: seq<Trade>) {
    forall i :: 0 <= i < |trades| ==>
      trades[i].id == s.first + i && trades[i].takerId == s.order.id && trades[i].aggressor == s.order.side
  }

  // only the remaining quantity and the state of the order change
  ghost predicate Progress(s: Start, t: Order) {
    && t == s.order.(remaining := t.remaining, status := t.status) && 0 <= t.remaining <= s.order.remaining
    && t.status == (if t.remaining == s.order.remaining then s.order.status else if t.remaining == 0 then FILLED
      else PARTIAL)
  }

  // Trades so far, plus what the pure matcher would still do, is what it does from the start.
  ghost predicate Ran(s: Start, opposite: Depth, own: Depth, t: Order, trades: seq<Trade>, volume: int) {
    && own == s.own && Progress(s, t) && Numbered(s, trades)
    && volume == s.volume + Total(Fills(trades))
    && Rest0(s, s.opposite, s.order.remaining) ==
       Rest0(s, opposite, t.remaining).(fills := Fills(trades) + Rest0(s, opposite, t.remaining).fills)
  }

  lemma RanStart(s: Start)
    requires s.order.remaining > 0
    ensures Ran(s, s.opposite, s.own, s.order, [], s.volume)
  {
    var m := Rest0(s, s.opposite, s.order.remaining);
    assert m.fills == Fills([]) + m.fills;
    assert Total(Fills([])) == 0;
  }

  lemma FillsStep(s: Start, trades: seq<Trade>, trade: Trade)
    requires Numbered(s, trades)
    requires trade.id == s.first + |trades| && trade.takerId == s.order.id && trade.aggressor == s.order.side
    ensures Numbered(s, trades + [trade])
    ensures var r := Rest(trade.makerId, trade.price, trade.qty);
      Fills(trades + [trade]) == Fills(trades) + [r]
        && Total(Fills(trades + [trade])) == Total(Fills(trades)) + trade.qty
  {
    var r := Rest(trade.makerId, trade.price, trade.qty);
    assert Fills(trades + [trade]) == Fills(trades) + [r];
    TotalConcat(Fills(trades), [r]);
    assert Total([r]) == trade.qty + Total([]);
  }

  lemma RanStep(s: Start, d: Depth, own: Depth, t: Order, p: int, fill: int, trades: seq<Trade>, trade: Trade,
                volume: int)
    requires Ran(s, d, own, t, trades, volume) && t.remaining > 0
    requires var opp := s.order.side.Opposite();
      p in d && p == Best(d.Keys, opp) && d[p] != [] && d[p][0].price == p && d[p][0].qty > 0
    requires Accepts(s.order.side, s.order.price, p)
    requires fill == if t.remaining < d[p][0].qty then t.remaining else d[p][0].qty
    requires trade == Trade(s.first + |trades|, d[p][0].id, s.order.id, p, fill, s.order.side)
    ensures Ran(s, FillHead(d, p, fill), own, Taken(t, fill), trades + [trade], volume + fill)
  {
    MatchStep(d, s.order.side, p, s.order.price, t.remaining, fill);
    FillsStep(s, trades, trade);
    var b := Rest0(s, FillHead(d, p, fill), t.remaining - fill);
    var r := Rest(d[p][0].id, p, fill);
    assert Fills(trades) + ([r] + b.fills) == (Fills(trades) + [r]) + b.fills;
  }

  // The oldest order of level k is gone and next is the oldest now, or it is still there and the taker is done.
  ghost predicate HeadGone(lv: Levels, lv': Levels, k: Key, next: nat, done: bool) {
    && lv'.Keys <= lv.Keys
    && (next == 0 ==> k !in lv' || done)
    && (next != 0 ==> (k in lv' && lv'[k] != [] && lv'[k][0] == next) || done)
  }

  lemma RunStep(s: Start, lad: Ladders, lv: Levels, lv': Levels, orders: Orders, orders': Orders, last: nat, k: Key,
                trades: seq<Trade>, trade: Trade, volume: int, next: nat)
    requires BookOk(lad, lv, orders, last, Some(s.order.id)) && orders[s.order.id].remaining > 0
    requires StepOf(orders, lv, orders', lv', s.order.id, k) && k.side == s.order.side.Opposite()
    requires Ran(s, Abs(lv, orders, k.side), Abs(lv, orders, s.order.side), orders[s.order.id], trades, volume)
    requires k.price == Best(Prices(lv, k.side), k.side) && Accepts(s.order.side, s.order.price, k.price)
    requires trade == Trade(s.first + |trades|, lv[k][0], s.order.id, k.price, FillOf(orders, lv[k][0], s.order.id),
      s.order.side)
    requires next == if |lv[k]| == 1 then 0 else lv[k][1]
    ensures Ran(s, Abs(lv', orders', k.side), Abs(lv', orders', s.order.side), orders'[s.order.id], trades + [trade],
      volume + trade.qty)
    ensures HeadGone(lv, lv', k, next, orders'[s.order.id].remaining == 0)
  {
    AbsOk(lad, lv, orders, last, Some(s.order.id), k.side);
    HeadFacts(lad, lv, orders, last, s.order.id, k);
    RanStep(s, Abs(lv, orders, k.side), Abs(lv, orders, s.order.side), orders[s.order.id], k.price, trade.qty, trades,
      trade, volume);
    assert |lv[k]| > 1 ==> Linked(lv[k], 1, k, orders);
  }

  // The trades report the fills of the pure matcher.
  ghost predicate Reports(trades: seq<Trade>, fills: seq<Rest>, first: nat, taker: nat, side: Side) {
    && |trades| == |fills|
    && forall i :: 0 <= i < |trades| ==>
         trades[i] == Trade(first + i, fills[i].id, taker, fills[i].price, fills[i].qty, side)
  }

  // the order after matching: only its remaining quantity and state have changed
  ghost function AfterMatch(t: Order, left: int): Order {
    t.(remaining := left, status := if left == t.remaining then t.status else if left == 0 then FILLED else PARTIAL)
  }

  // When the loop stops, the pure matcher has nothing left to do either.
  lemma NothingLeft(s: Start, lad: Ladders, lv: Levels, orders: Orders, last: nat)
    requires BookOk(lad, lv, orders, last, Some(s.order.id))
    requires var opp := s.order.side.Opposite(); var ps := Prices(lv, opp);
      orders[s.order.id].remaining <= 0 || ps == {} || !Accepts(s.order.side, s.order.price, Best(ps, opp))
    ensures var opp := s.order.side.Opposite(); var d := Abs(lv, orders, opp);
      Rest0(s, d, orders[s.order.id].remaining) == Matched([], Flat(d, opp), orders[s.order.id].remaining)
    ensures var ps := Prices(lv, s.order.side.Opposite());
      orders[s.order.id].remaining > 0 ==> forall p :: p in ps ==> !Accepts(s.order.side, s.order.price, p)
  {
    var opp := s.order.side.Opposite();
    AbsOk(lad, lv, orders, last, Some(s.order.id), opp);
    MatchStops(Abs(lv, orders, opp), s.order.side, s.order.price, orders[s.order.id].remaining);
  }

  lemma RunEnd(s: Start, d: Depth, own: Depth, t: Order, trades: seq<Trade>, volume: int)
    requires Ran(s, d, own, t, trades, volume)
    requires Rest0(s, d, t.remaining) == Matched([], Flat(d, s.order.side.Opposite()), t.remaining)
    ensures var opp := s.order.side.Opposite(); var m := Rest0(s, s.opposite, s.order.remaining);
      && Reports(trades, m.fills, s.first, s.order.id, s.order.side)
      && Flat(d, opp) == m.book && t == AfterMatch(s.order, m.left)
      && volume == s.volume + Total(m.fills)
  {
    assert Fills(trades) + [] == Fills(trades);
  }

  // ---------------------------------------------------------------- an order comes in, an order is dropped

  lemma LaterLast(lad: Ladders, lv: Levels, orders: Orders, last: nat)
    requires BookSound(lad, lv, orders, last, None)
    ensures BookSound(lad, lv, orders, last + 1, None)
  {
  }

  // A new order is registered; it does not rest yet.
  lemma RegisterBook(lad: Ladders, lv: Levels, orders: Orders, orders': Orders, last: nat, o: Order)
    requires BookOk(lad, lv, orders, last, None)
    requires o.id == last + 1 && orders' == orders[o.id := o]
    ensures BookOk(lad, lv, orders', o.id, Some(o.id)) && o.id !in orders
  {
    assert o.id !in orders;
    assert orders' - {o.id} == orders - {o.id};
    forall c | c in lv
      ensures LevelOk(lad[c], c, lv[c], orders') && o.id !in lv[c]
    {
      OffBook(lad, lv, orders, orders', last, None, o.id, c);
    }
    forall id | id in orders
      ensures orders'[id] == orders[id] && Resting(lv, orders'[id], id)
    {
      assert Resting(lv, orders[id], id);
    }
  }

  lemma RegisterAbs(lad: Ladders, lv: Levels, orders: Orders, orders': Orders, last: nat, o: Order)
    requires BookOk(lad, lv, orders, last, None)
    requires o.id == last + 1 && orders' == orders[o.id := o]
    ensures forall side {:trigger Abs(lv, orders', side)} :: Abs(lv, orders', side) == Abs(lv, orders, side)
  {
    assert o.id !in orders;
    assert orders' - {o.id} == orders - {o.id};
    OffBookAbs(lad, lv, orders, orders', last, None, o.id);
  }

  lemma RegisterStep(lad: Ladders, lv: Levels, orders: Orders, o: Order)
    requires o.id > 0 && BookSound(lad, lv, orders, o.id - 1, None)
    ensures BookSound(lad, lv, orders[o.id := o], o.id, Some(o.id)) && o.id !in orders
    ensures forall side {:trigger Abs(lv, orders[o.id := o], side)} ::
      Abs(lv, orders[o.id := o], side) == Abs(lv, orders, side)
  {
    RegisterBook(lad, lv, orders, orders[o.id := o], o.id - 1, o);
    RegisterAbs(lad, lv, orders, orders[o.id := o], o.id - 1, o);
  }

  // The order being matched is dropped.
  lemma DropBook(lad: Ladders, lv: Levels, orders: Orders, orders': Orders, last: nat, x: nat)
    requires BookOk(lad, lv, orders, last, Some(x)) && orders' == orders - {x}
    ensures BookOk(lad, lv, orders', last, None)
  {
    assert orders' - {x} == orders - {x};
    forall c | c in lv
      ensures LevelOk(lad[c], c, lv[c], orders')
    {
      OffBook(lad, lv, orders, orders', last, Some(x), x, c);
    }
    forall id | id in orders'
      ensures Resting(lv, orders'[id], id)
    {
      assert Resting(lv, orders[id], id);
    }
  }

  lemma DropStep(lad: Ladders, lv: Levels, orders: Orders, last: nat, x: nat)
    requires BookSound(lad, lv, orders, last, Some(x))
    ensures BookSound(lad, lv, orders - {x}, last, None)
    ensures forall side {:trigger Abs(lv, orders - {x}, side)} :: Abs(lv, orders - {x}, side) == Abs(lv, orders, side)
    ensures x in orders && orders[x].id == x
  {
    var orders' := orders - {x};
    DropBook(lad, lv, orders, orders', last, x);
    assert orders' - {x} == orders - {x};
    OffBookAbs(lad, lv, orders, orders', last, Some(x), x);
  }

  // An order that no price of the other side accepts can rest without crossing the book.
  lemma RestUncrossed(lv: Levels, o: Order)
    requires NotCrossed(lv)
    requires forall p :: p in Prices(lv, o.side.Opposite()) ==> !Accepts(o.side, o.price, p)
    ensures NotCrossed(AddTo(lv, LevelOf(o), o.id))
  {
    var lv' := AddTo(lv, LevelOf(o), o.id);
    forall b, a | b in Prices(lv', BUY) && a in Prices(lv', SELL)
      ensures b < a
    {
      assert Key(BUY, b) in lv || Key(BUY, b) == LevelOf(o);
      assert Key(SELL, a) in lv || Key(SELL, a) == LevelOf(o);
      assert b in Prices(lv, BUY) <==> Key(BUY, b) in lv;
      assert a in Prices(lv, SELL) <==> Key(SELL, a) in lv;
      match o.side
      case BUY => assert o.side.Opposite() == SELL; assert a in Prices(lv, SELL);
      case SELL => assert o.side.Opposite() == BUY; assert b in Prices(lv, BUY);
    }
  }

  // o may come to rest: no order of the other side would trade with it.
  ghost predicate MayRest(lv: Levels, o: Order) {
    && o.price > 0 && Fresh(o, LevelOf(o))
    && forall p :: p in Prices(lv, o.side.Opposite()) ==> !Accepts(o.side, o.price, p)
  }

  lemma RestStep(lad: Ladders, lv: Levels, orders: Orders, last: nat, o: Order)
    requires BookSound(lad, lv, orders, last, Some(last)) && o.id == last && orders[last] == o
    requires MayRest(lv, o)
    ensures var lad' := lad[LevelOf(o) := AddedLevel(lad, o)];
      var lv' := AddTo(lv, LevelOf(o), last);
      var orders' := AddedOrders(lad, orders, o);
      && BookSound(lad', lv', orders', last, None)
      && Abs(lv', orders', o.side) == AddTo(Abs(lv, orders, o.side), o.price, Rest(last, o.price, o.remaining))
      && Abs(lv', orders', o.side.Opposite()) == Abs(lv, orders, o.side.Opposite())
  {
    var lad' := lad[LevelOf(o) := AddedLevel(lad, o)];
    var lv' := AddTo(lv, LevelOf(o), last);
    var orders' := AddedOrders(lad, orders, o);
    RestBook(lad, lad', lv, lv', orders, orders', o);
    RestAbs(lad, lad', lv, lv', orders, orders', o);
    RestUncrossed(lv, o);
  }

  // the level o would join ends in another order
  ghost predicate TailOk(lad: Ladders, orders: Orders, o: Order) {
    var k := LevelOf(o);
    k in lad ==> lad[k].tail in orders && lad[k].tail != 0 && lad[k].tail != o.id && lad[k].price == k.price
  }

  lemma TailFacts(lad: Ladders, lv: Levels, orders: Orders, last: nat, o: Order)
    requires BookOk(lad, lv, orders, last, Some(o.id))
    ensures TailOk(lad, orders, o) && o.id != 0
  {
    var k := LevelOf(o);
    if k in lv {
      var ids := lv[k];
      assert LevelOk(lad[k], k, ids, orders);
      OneLevel(lad, lv, orders, last, Some(o.id), k, ids[|ids| - 1]);
    }
  }

  // ---------------------------------------------------------------- an order is cancelled

  ghost function IndexOf<T>(s: seq<T>, x: T): (i: nat)
    requires x in s
    ensures i < |s| && s[i] == x
  {
    var i: nat :| i < |s| && s[i] == x;
    i
  }

  predicate Active(o: Order) {
    o.status == NEW || o.status == PARTIAL
  }

  lemma LevelFacts(lad: Ladders, lv: Levels, orders: Orders, last: nat, extra: Option<nat>, k: Key)
    requires BookSound(lad, lv, orders, last, extra) && k in lv
    ensures k in lad && lad[k].price == k.price && lad[k].orderCount == |lv[k]| > 0
    ensures lad[k].totalQty == Total(Queue(lv[k], k.price, orders))
    ensures k.price in Abs(lv, orders, k.side) && Abs(lv, orders, k.side)[k.price] == Queue(lv[k], k.price, orders)
  {
    assert LevelOk(lad[k], k, lv[k], orders);
    assert k.price in Prices(lv, k.side);
  }

  // a registered order, if no order is being matched, rests at its level and is active
  lemma RestingFacts(lad: Ladders, lv: Levels, orders: Orders, last: nat, id: nat)
    requires BookSound(lad, lv, orders, last, None) && id in orders
    ensures var o := orders[id]; var k := LevelOf(o);
      && k in lv && k in lad && id in lv[k] && o.id == id && Active(o) && o.tp == LIMIT && o.remaining > 0
      && (lad[k].orderCount == 1 <==> |lv[k]| == 1)
  {
    var o := orders[id];
    var k := LevelOf(o);
    assert Resting(lv, o, id);
    assert LevelOk(lad[k], k, lv[k], orders);
    assert Linked(lv[k], IndexOf(lv[k], id), k, orders);
  }

  // the total first, then the links
  lemma LeftInSteps(lad: Ladders, o: Order)
    requires LevelOf(o) in lad
    ensures Left(LessTotal(lad, LevelOf(o), o.remaining), o.(remaining := 0)) == Left(lad, o)
  {
    var k := LevelOf(o);
    var lad0 := LessTotal(lad, k, o.remaining);
    var lvl := LevelWithout(lad[k], o).(totalQty := lad[k].totalQty - o.remaining);
    assert lad0 - {k} == lad - {k};
    assert lad0[k := lvl] == lad[k := lvl];
  }

  lemma CancelStep(lad: Ladders, lv: Levels, orders: Orders, last: nat, id: nat, k: Key, i: nat)
    requires BookSound(lad, lv, orders, last, None) && id in orders
    requires k == LevelOf(orders[id]) && k in lad && k in lv && i < |lv[k]| && lv[k][i] == id
    ensures BookSound(Left(lad, orders[id]), RemoveFrom(lv, k, i), Unlinked(orders, orders[id]) - {id}, last, None)
    ensures var lv', orders' := RemoveFrom(lv, k, i), Unlinked(orders, orders[id]) - {id};
      && k.price in Abs(lv, orders, k.side) && i < |Abs(lv, orders, k.side)[k.price]|
      && Abs(lv, orders, k.side)[k.price][i] == Rest(id, k.price, orders[id].remaining)
      && Abs(lv', orders', k.side) == RemoveFrom(Abs(lv, orders, k.side), k.price, i)
      && Abs(lv', orders', k.side.Opposite()) == Abs(lv, orders, k.side.Opposite())
  {
    var lad', lv', orders' := Left(lad, orders[id]), RemoveFrom(lv, k, i), Unlinked(orders, orders[id]) - {id};
    UnlinkBook(lad, lad', lv, lv', orders, orders', last, None, k, i);
    UnlinkAbs(lad, lad', lv, lv', orders, orders', last, None, k, i);
    assert lv'.Keys <= lv.Keys;
    FewerUncrossed(lv, lv');
    assert k.price in Prices(lv, k.side);
  }

  // ---------------------------------------------------------------- what a caller can see

  // both sides of the book and the counters
  datatype View = View(bids: Depth, asks: Depth, lastOrder: nat, lastTrade: nat, volume: int, added: nat,
                       executed: nat) {
    function On(side: Side): Depth {
      match side case BUY => bids case SELL => asks
    }

    function With(side: Side, d: Depth): View {
      match side case BUY => this.(bids := d) case SELL => this.(asks := d)
    }
  }

  // A new order is announced.
  ghost function Announced(b: View): View {
    b.(lastOrder := b.lastOrder + 1, added := b.added + 1)
  }

  // t has been matched: the trades are the fills of the pure matcher on the other side, whose
  // rest is what the matcher leaves; t' is t afterwards.
  ghost predicate MatchedTo(b: View, a: View, t: Order, t': Order, trades: seq<Trade>) {
    var opp := t.side.Opposite();
    var m := Match(Flat(b.On(opp), opp), t.side, t.price, t.remaining);
    && Reports(trades, m.fills, b.lastTrade + 1, t.id, t.side)
    && Flat(a.On(opp), opp) == m.book && a.On(t.side) == b.On(t.side)
    && t' == AfterMatch(t, m.left)
    && a.lastOrder == b.lastOrder && a.lastTrade == b.lastTrade + |trades|
    && a.volume == b.volume + Total(m.fills) && a.added == b.added && a.executed == b.executed + |trades|
  }

  // A run that has come to its end has done what the pure matcher does.
  lemma MatchedByRun(s: Start, b: View, a: View, t: Order, t': Order, trades: seq<Trade>)
    requires var opp := t.side.Opposite();
      && s == Start(b.On(opp), b.On(t.side), t, b.lastTrade + 1, b.volume, b.added, b.executed, s.dropped, s.cancelled)
      && Ran(s, a.On(opp), a.On(t.side), t', trades, a.volume)
      && Rest0(s, a.On(opp), t'.remaining) == Matched([], Flat(a.On(opp), opp), t'.remaining)
    requires a.lastOrder == b.lastOrder && a.lastTrade == b.lastTrade + |trades|
    requires a.added == b.added && a.executed == b.executed + |trades|
    ensures MatchedTo(b, a, t, t', trades)
  {
    RunEnd(s, a.On(t.side.Opposite()), a.On(t.side), t', trades, a.volume);
  }

  lemma LeftMayRest(b: View, a: View, t: Order, t': Order, trades: seq<Trade>, lv: Levels)
    requires MatchedTo(b, a, t, t', trades) && t'.tp == LIMIT && t'.remaining > 0
    requires t.id != 0 && t.status == NEW && t.price > 0
    requires forall p :: p in Prices(lv, t'.side.Opposite()) ==> !Accepts(t'.side, t'.price, p)
    ensures MayRest(lv, t')
  {
  }

  // What remains of t' after matching: it comes to rest if it is a limit order.
  ghost function Finished(b: View, t': Order): View {
    if t'.tp == LIMIT && t'.remaining > 0
    then b.With(t'.side, AddTo(b.On(t'.side), t'.price, Rest(t'.id, t'.price, t'.remaining)))
    else b
  }

  datatype AddResult = AddResult(id: nat, accepted: bool, fills: seq<Trade>)

  // what the pure matcher leaves of order o
  ghost function LeftOver(b: View, o: Order): int {
    Match(Flat(b.On(o.side.Opposite()), o.side.Opposite()), o.side, o.price, o.remaining).left
  }

  lemma LeftOverAnnounced(b: View, o: Order)
    ensures LeftOver(Announced(b), o) == LeftOver(b, o)
  {
    assert Announced(b).On(o.side.Opposite()) == b.On(o.side.Opposite());
  }

  // A registered order o trades as the pure matcher does; what is left of a limit order rests.
  ghost predicate Executed(b: View, a: View, o: Order, r: AddResult) {
    var opp := o.side.Opposite();
    var m := Match(Flat(b.On(opp), opp), o.side, o.price, o.remaining);
    && r.accepted && r.id == o.id
    && Reports(r.fills, m.fills, b.lastTrade + 1, o.id, o.side)
    && Flat(a.On(opp), opp) == m.book
    && a.On(o.side) == (if o.tp == LIMIT && m.left > 0
                        then AddTo(b.On(o.side), o.price, Rest(o.id, o.price, m.left)) else b.On(o.side))
    && a.lastOrder == b.lastOrder && a.lastTrade == b.lastTrade + |r.fills|
    && a.volume == b.volume + Total(m.fills) && a.added == b.added && a.executed == b.executed + |r.fills|
  }

  lemma ExecutedFacts(b: View, a: View, o: Order, r: AddResult)
    requires Executed(b, a, o, r)
    ensures r.accepted && r.id == o.id && a.lastOrder == b.lastOrder
  {
  }

  lemma ExecutedInSteps(b: View, mid: View, a: View, o: Order, o': Order, trades: seq<Trade>)
    requires MatchedTo(b, mid, o, o', trades) && a == Finished(mid, o')
    ensures Executed(b, a, o, AddResult(o.id, true, trades))
  {
    assert o.side.BUY? || o.side.SELL?;
  }

  // The whole of add_order for an accepted order o.
  ghost predicate Entered(b: View, a: View, o: Order, r: AddResult) {
    o.id == b.lastOrder + 1 && Executed(Announced(b), a, o, r)
  }

  // Order o leaves the book and nothing else changes.
  ghost predicate Cancelled(b: View, a: View, o: Order) {
    exists i {:trigger TakenOff(b, a, o, i)} :: TakenOff(b, a, o, i)
  }

  ghost predicate TakenOff(b: View, a: View, o: Order, i: nat) {
    var d := b.On(o.side);
    && o.price in d && i < |d[o.price]| && d[o.price][i] == Rest(o.id, o.price, o.remaining)
    && a == b.With(o.side, RemoveFrom(d, o.price, i))
  }

  // ---------------------------------------------------------------- consequences

  ghost predicate ViewOk(v: View) {
    DepthOk(v.bids) && DepthOk(v.asks)
  }

  lemma ReportedTotal(trades: seq<Trade>, fills: seq<Rest>, first: nat, taker: nat, side: Side)
    requires Reports(trades, fills, first, taker, side)
    ensures Total(Fills(trades)) == Total(fills)
  {
    assert Fills(trades) == fills;
  }

  // The trades of an order run along the opposite queue, best price and oldest first, each at the
  // maker's price and within the limit; all but the last exhaust their maker, the queue loses just
  // them, and what is left of the order meets no acceptable price any more.
  ghost predicate ByPriority(b: View, a: View, o: Order, trades: seq<Trade>) {
    var opp := o.side.Opposite();
    AlongQueue(o, Flat(b.On(opp), opp), Flat(a.On(opp), opp), trades, o.remaining - Total(Fills(trades)))
  }

  // ... the queue having been q and being q' now
  ghost predicate AlongQueue(o: Order, q: seq<Rest>, q': seq<Rest>, trades: seq<Trade>, left: int) {
    var n := |trades|;
    && n <= |q|
    && (forall i :: 0 <= i < n ==>
          && trades[i].makerId == q[i].id && trades[i].takerId == o.id && trades[i].price == q[i].price
          && 0 < trades[i].qty <= q[i].qty && Accepts(o.side, o.price, q[i].price))
    && (forall i :: 0 <= i < n - 1 ==> trades[i].qty == q[i].qty)
    && q' == (if n > 0 && trades[n - 1].qty < q[n - 1].qty
              then [q[n - 1].(qty := q[n - 1].qty - trades[n - 1].qty)] + q[n..] else q[n..])
    && (left > 0 && q' != [] ==> !Accepts(o.side, o.price, q'[0].price))
  }

  lemma MatchAlongQueue(o: Order, q: seq<Rest>, trades: seq<Trade>, first: nat)
    requires AllPositive(q) && Reports(trades, Match(q, o.side, o.price, o.remaining).fills, first, o.id, o.side)
    ensures var m := Match(q, o.side, o.price, o.remaining); AlongQueue(o, q, m.book, trades, m.left)
  {
    hide Match, Accepts;
    FillsFollowPriority(q, o.side, o.price, o.remaining);
    BookAfterFills(q, o.side, o.price, o.remaining);
    RestOnlyIfExhausted(q, o.side, o.price, o.remaining);
  }

  lemma RunsAlongQueue(b: View, a: View, o: Order, r: AddResult)
    requires ViewOk(b) && Executed(b, a, o, r)
    ensures var opp := o.side.Opposite(); AlongQueue(o, Flat(b.On(opp), opp), Flat(a.On(opp), opp), r.fills,
      LeftOver(b, o))
  {
    var opp := o.side.Opposite();
    FlatFacts(b.On(opp), opp);
    hide Flat, Match, ViewOk, AlongQueue, Reports, AllPositive, Prioritized, AddTo, Total;
    MatchAlongQueue(o, Flat(b.On(opp), opp), r.fills, b.lastTrade + 1);
  }

  lemma TradesFollowPriority(b: View, a: View, o: Order, r: AddResult)
    requires ViewOk(b) && Executed(b, a, o, r) && o.remaining > 0
    ensures ByPriority(b, a, o, r.fills)
  {
    hide *;
    RunsAlongQueue(b, a, o, r);
    QuantityConserved(b, a, o, r);
    ByPriorityIf(b, a, o, r.fills, LeftOver(b, o));
  }

  lemma ByPriorityIf(b: View, a: View, o: Order, trades: seq<Trade>, left: int)
    requires var opp := o.side.Opposite(); AlongQueue(o, Flat(b.On(opp), opp), Flat(a.On(opp), opp), trades, left)
    requires left == o.remaining - Total(Fills(trades))
    ensures ByPriority(b, a, o, trades)
  {
  }

  // Nothing is lost: the quantity of an order is its fills, plus what rests of it, plus what is
  // discarded; the other side and the volume change by exactly the fills.
  lemma QuantityConserved(b: View, a: View, o: Order, r: AddResult)
    requires ViewOk(b) && Executed(b, a, o, r) && o.remaining > 0
    ensures var (fills, left, opp) := (Total(Fills(r.fills)), LeftOver(b, o), o.side.Opposite());
      && o.remaining == fills + left && 0 <= left
      && Total(Flat(a.On(opp), opp)) == Total(Flat(b.On(opp), opp)) - fills
      && Total(Flat(a.On(o.side), o.side)) == Total(Flat(b.On(o.side), o.side)) + (if o.tp == LIMIT then left else 0)
      && a.volume == b.volume + fills
  {
    var opp := o.side.Opposite();
    var q := Flat(b.On(opp), opp);
    FlatFacts(b.On(opp), opp);
    MatchConserves(q, o.side, o.price, o.remaining);
    ReportedTotal(r.fills, Match(q, o.side, o.price, o.remaining).fills, b.lastTrade + 1, o.id, o.side);
    if o.tp == LIMIT && LeftOver(b, o) > 0 {
      RestTotal(b.On(o.side), o.side, Rest(o.id, o.price, LeftOver(b, o)));
    }
  }

  lemma RestTotal(d: Depth, side: Side, r: Rest)
    requires DepthOk(d)
    ensures Total(Flat(AddTo(d, r.price, r), side)) == Total(Flat(d, side)) + r.qty
  {
    RestPosition(d, side, r);
    var q, q' := Flat(d, side), Flat(AddTo(d, r.price, r), side);
    var j: nat :| Inserted(q, q', side, r, j);
    TotalConcat(q[..j] + [r], q[j..]);
    TotalConcat(q[..j], [r]);
    TotalConcat(q[..j], q[j..]);
    assert q[..j] + q[j..] == q;
    assert Total([r]) == r.qty + Total([]);
  }

  // a price that the caller of add_order agrees to, having asked for this price
  predicate Agreed(side: Side, tp: OrderType, price: int, p: int) {
    tp == MARKET || match side case BUY => p <= price case SELL => p >= price
  }

  // the first of two prices is at least as good for a taker
  predicate Cheaper(side: Side, p: int, q: int) {
    match side case BUY => p <= q case SELL => p >= q
  }

  // Trades at prices agreed to, the best first, and none better left in the queue q; if quantity
  // is left, the queue has no price agreed to, as far as it fits 64 bits.
  ghost predicate PricesAgreed(side: Side, tp: OrderType, price: int, trades: seq<Trade>, q: seq<Rest>, left: int) {
    && (forall i :: 0 <= i < |trades| ==> Agreed(side, tp, price, trades[i].price))
    && (forall i, j :: 0 <= i < j < |trades| ==> Cheaper(side, trades[i].price, trades[j].price))
    && (forall i, j :: 0 <= i < |trades| && 0 <= j < |q| ==> Cheaper(side, trades[i].price, q[j].price))
    && (left > 0 ==>
          forall j :: 0 <= j < |q| && INT64_MIN <= q[j].price <= INT64_MAX ==> !Agreed(side, tp, price, q[j].price))
  }

  // What the caller of add_order gets, in terms of what it asked for: such trades, and what is left
  // of a limit order behind all others at the price it asked for.
  ghost predicate AsAsked(b: View, a: View, side: Side, tp: OrderType, price: int, qty: int, r: AddResult) {
    var (opp, own, left) := (side.Opposite(), b.On(side), qty - Total(Fills(r.fills)));
    && r.accepted && r.id == b.lastOrder + 1 && left >= 0
    && PricesAgreed(side, tp, price, r.fills, Flat(a.On(opp), opp), left)
    && a.On(side) ==
       if tp != LIMIT || left == 0 then own
       else if price in own then own[price := own[price] + [Rest(r.id, price, left)]]
       else own[price := [Rest(r.id, price, left)]]
  }

  // the limit of an order and the price asked for agree on every price that fits 64 bits
  ghost predicate LimitMeans(o: Order, price: int) {
    && (o.tp == LIMIT ==> o.price == price)
    && (forall p {:trigger Agreed(o.side, o.tp, price, p)} :: Accepts(o.side, o.price, p) ==>
      Agreed(o.side, o.tp, price, p))
    && (forall p {:trigger Agreed(o.side, o.tp, price, p)} ::
          INT64_MIN <= p <= INT64_MAX && Agreed(o.side, o.tp, price, p) ==> Accepts(o.side, o.price, p))
  }

  // Behind the trades the queue is what it was: entry j of the rest was entry j + |q| - |q'|.
  lemma QueueBehind(o: Order, q: seq<Rest>, q': seq<Rest>, trades: seq<Trade>, left: int, j: nat)
    requires AlongQueue(o, q, q', trades, left) && j < |q'|
    ensures var k := j + |q| - |q'|; |trades| - 1 <= k && 0 <= k < |q| && q[k].price == q'[j].price
  {
  }

  lemma CheaperAlongQueue(o: Order, q: seq<Rest>, q': seq<Rest>, trades: seq<Trade>, left: int)
    requires AlongQueue(o, q, q', trades, left) && Prioritized(q, o.side.Opposite())
    ensures forall i, j :: 0 <= i < j < |trades| ==> Cheaper(o.side, trades[i].price, trades[j].price)
    ensures forall i, j :: 0 <= i < |trades| && 0 <= j < |q'| ==> Cheaper(o.side, trades[i].price, q'[j].price)
    ensures forall j :: 0 <= j < |q'| ==> Cheaper(o.side, q'[0].price, q'[j].price)
  {
    QueueCheaper(o.side, q);
    forall j | 0 <= j < |q'|
      ensures var k := j + |q| - |q'|; |trades| - 1 <= k && 0 <= k < |q| && q[k].price == q'[j].price
    {
      QueueBehind(o, q, q', trades, left, j);
    }
    TradesAtFront(o, q, q', trades, left);
    hide AlongQueue, Prioritized, Cheaper;
    forall i, j | 0 <= i < |trades| && 0 <= j < |q'|
      ensures Cheaper(o.side, trades[i].price, q'[j].price)
    {
      assert Cheaper(o.side, q[i].price, q[j + |q| - |q'|].price);
    }
    forall j | 0 <= j < |q'|
      ensures Cheaper(o.side, q'[0].price, q'[j].price)
    {
      assert Cheaper(o.side, q[|q| - |q'|].price, q[j + |q| - |q'|].price);
    }
  }

  lemma QueueCheaper(side: Side, q: seq<Rest>)
    requires Prioritized(q, side.Opposite())
    ensures forall i, j :: 0 <= i <= j < |q| ==> Cheaper(side, q[i].price, q[j].price)
  {
  }

  lemma TradesAtFront(o: Order, q: seq<Rest>, q': seq<Rest>, trades: seq<Trade>, left: int)
    requires AlongQueue(o, q, q', trades, left)
    ensures |trades| <= |q| && forall i :: 0 <= i < |trades| ==> trades[i].price == q[i].price
    ensures forall i :: 0 <= i < |trades| ==> Accepts(o.side, o.price, trades[i].price)
    ensures left > 0 && q' != [] ==> !Accepts(o.side, o.price, q'[0].price)
  {
  }

  // A price that is no better than one refused is refused as well.
  lemma RefusedOnwards(side: Side, limit: int, p: int, p': int)
    requires !Accepts(side, limit, p) && Cheaper(side, p, p')
    ensures !Accepts(side, limit, p')
  {
  }

  lemma AgreedAlongQueue(o: Order, q: seq<Rest>, q': seq<Rest>, price: int, trades: seq<Trade>, left: int)
    requires AlongQueue(o, q, q', trades, left) && LimitMeans(o, price) && Prioritized(q, o.side.Opposite())
    ensures PricesAgreed(o.side, o.tp, price, trades, q', left)
  {
    hide AlongQueue, Prioritized, Cheaper, Accepts, Agreed;
    CheaperAlongQueue(o, q, q', trades, left);
    TradesAtFront(o, q, q', trades, left);
    if left > 0 && q' != [] {
      forall j | 0 <= j < |q'| && INT64_MIN <= q'[j].price <= INT64_MAX
        ensures !Agreed(o.side, o.tp, price, q'[j].price)
      {
        RefusedOnwards(o.side, o.price, q'[0].price, q'[j].price);
      }
    }
  }

  lemma OwnSide(b: View, a: View, o: Order, r: AddResult)
    requires Executed(Announced(b), a, o, r)
    ensures var (own, left) := (b.On(o.side), LeftOver(Announced(b), o));
      && r.accepted && r.id == o.id
      && a.On(o.side) ==
         if o.tp != LIMIT || left <= 0 then own
         else if o.price in own then own[o.price := own[o.price] + [Rest(r.id, o.price, left)]]
         else own[o.price := [Rest(r.id, o.price, left)]]
  {
    hide Flat, Match, Reports, Total;
    assert Announced(b).On(o.side) == b.On(o.side);
  }

  lemma AnnouncedOk(b: View, side: Side)
    requires ViewOk(b)
    ensures ViewOk(Announced(b)) && Prioritized(Flat(Announced(b).On(side), side), side)
  {
    FlatFacts(b.bids, BUY);
    FlatFacts(b.asks, SELL);
  }

  lemma AskedIf(b: View, a: View, o: Order, price: int, r: AddResult, left: int)
    requires left == o.remaining - Total(Fills(r.fills)) && left >= 0 && (o.tp == LIMIT ==> o.price == price)
    requires var opp := o.side.Opposite(); PricesAgreed(o.side, o.tp, price, r.fills, Flat(a.On(opp), opp), left)
    requires r.accepted && r.id == o.id == b.lastOrder + 1
    requires var own := b.On(o.side);
      a.On(o.side) ==
        if o.tp != LIMIT || left <= 0 then own
        else if o.price in own then own[o.price := own[o.price] + [Rest(r.id, o.price, left)]]
        else own[o.price := [Rest(r.id, o.price, left)]]
    ensures AsAsked(b, a, o.side, o.tp, price, o.remaining, r)
  {
    hide Flat, Total, Fills, PricesAgreed;
  }

  // The trades and the rest of an order whose limit means the price asked for.
  lemma ExecutedAsAsked(b: View, a: View, o: Order, price: int, r: AddResult)
    requires ViewOk(b) && Executed(Announced(b), a, o, r) && o.id == b.lastOrder + 1 && o.remaining > 0
    requires LimitMeans(o, price)
    ensures AsAsked(b, a, o.side, o.tp, price, o.remaining, r)
  {
    assert o.tp == LIMIT ==> o.price == price;
    hide *;
    var (b', opp) := (Announced(b), o.side.Opposite());
    AnnouncedOk(b, opp);
    OwnSide(b, a, o, r);
    QuantityConserved(b', a, o, r);
    RunsAlongQueue(b', a, o, r);
    AgreedAlongQueue(o, Flat(b'.On(opp), opp), Flat(a.On(opp), opp), price, r.fills, LeftOver(b', o));
    AskedIf(b, a, o, price, r, LeftOver(b', o));
  }

  // Fill or kill: an order that passes the check is filled to the last unit and leaves nothing behind.
  lemma FillOrKillFillsAll(b: View, a: View, o: Order, r: AddResult)
    requires ViewOk(b) && Executed(b, a, o, r) && o.tp == FOK && o.remaining > 0
    requires FillOrKill(b.On(o.side.Opposite()), o.side, o.price, o.remaining, 0)
    ensures Total(Fills(r.fills)) == o.remaining && LeftOver(b, o) == 0 && a.On(o.side) == b.On(o.side)
  {
    var opp := o.side.Opposite();
    FlatFacts(b.On(opp), opp);
    assert opp.Opposite() == o.side;
    FillOrKillIsSafe(b.On(opp), o.side, o.price, o.remaining, 0);
    AllOrNothing(Flat(b.On(opp), opp), o.side, o.price, o.remaining);
    FillableIffAvailable(Flat(b.On(opp), opp), o.side, o.price, o.remaining);
    QuantityConserved(b, a, o, r);
  }

  // Cancelling takes exactly one order out of the queue of its side, and its quantity with it.
  lemma CancelTakesOne(b: View, a: View, o: Order)
    requires ViewOk(b) && Cancelled(b, a, o)
    ensures exists j :: Removed(Flat(b.On(o.side), o.side), Flat(a.On(o.side), o.side),
      Rest(o.id, o.price, o.remaining), j)
    ensures Total(Flat(a.On(o.side), o.side)) == Total(Flat(b.On(o.side), o.side)) - o.remaining
    ensures a.On(o.side.Opposite()) == b.On(o.side.Opposite())
  {
    var i: nat :| TakenOff(b, a, o, i);
    var d := b.On(o.side);
    assert o.side.BUY? || o.side.SELL?;
    RemovePosition(d, o.side, o.price, i);
    var q := Flat(d, o.side);
    var j: nat :| Removed(q, Flat(a.On(o.side), o.side), d[o.price][i], j);
    assert Removed(q, Flat(a.On(o.side), o.side), d[o.price][i], j);
    TotalSplit(q, j);
    TotalConcat(q[..j], q[j + 1..]);
  }
}
