/**
  The order book and its matching engine (hft_clean/src/order_book.cpp) with the slab pool the
  orders live in (hft_clean/include/memory_pool.hpp), as objects that are updated in place.

  Callbacks, time stamps, exchanges and symbols carry no decisions and are dropped. The level
  that match_order looks up after walking it (line 166) may already be erased (line 204); the
  model saves its price before the walk.
*/
module OrderBook {
  import opened Common
  import opened Int64
  import opened PriceTime
  import opened BookState
  import opened BookLedger
  import opened BookSteps

  const NO_ORDER := Order(0, 0, 0, 0, 0, 0, BUY, LIMIT, NEW)

  class MemoryPool {
    const capacity: nat
    var storage: seq<Order>
    var freeList: seq<nat>
    var freeTop: nat

    ghost var free: set<nat>  // the slots on the free list

    ghost predicate Valid()
      reads this
    {
      && |storage| == |freeList| == capacity && freeTop <= capacity
      && (forall i :: 0 <= i < freeTop ==> freeList[i] in free)
      && (forall i, j :: 0 <= i < j < freeTop ==> freeList[i] != freeList[j])
      && (forall slot :: slot in free ==> slot < capacity)
    }

    constructor (capacity: nat)
      ensures Valid() && freeTop == capacity && this.capacity == capacity
    {
      this.capacity := capacity;
      storage := seq(capacity, _ => NO_ORDER);
      freeList := seq(capacity, i => i);
      freeTop := capacity;
      free := UpTo(capacity);
    }

    method Allocate() returns (slot: Option<nat>)
      requires Valid()
      modifies this
      ensures Valid() && freeList == old(freeList)
      ensures old(freeTop) == 0 ==> slot == None && freeTop == 0 && storage == old(storage) && free == old(free)
      ensures old(freeTop) > 0 ==>
        && freeTop == old(freeTop) - 1 && slot == Some(freeList[freeTop])
        && slot.value in old(free) && free == old(free) - {slot.value}
        && storage == old(storage)[slot.value := NO_ORDER]
    {
      if freeTop == 0 {
        return None;
      }
      freeTop := freeTop - 1;
      var idx := freeList[freeTop];
      free := free - {idx};
      storage := storage[idx := NO_ORDER];
      slot := Some(idx);
    }

    method Deallocate(slot: nat)
      requires Valid() && slot < capacity && slot !in free && freeTop < capacity
      modifies this
      ensures Valid() && storage == old(storage) && freeTop == old(freeTop) + 1
      ensures freeList == old(freeList)[old(freeTop) := slot] && free == old(free) + {slot}
    {
      freeList := freeList[freeTop := slot];
      freeTop := freeTop + 1;
      free := free + {slot};
    }

    // what add_order writes into its slot
    method Store(slot: nat, o: Order)
      requires Valid() && slot < capacity
      modifies this`storage
      ensures Valid() && storage == old(storage)[slot := o]
    {
      storage := storage[slot := o];
    }

    method Reset()
      requires Valid()
      modifies this
      ensures Valid() && freeTop == capacity && storage == old(storage)
    {
      freeList := seq(capacity, i => i);
      freeTop := capacity;
      free := UpTo(capacity);
    }

    function Used(): nat
      requires Valid()
      reads this
    {
      capacity - freeTop
    }
  }

  ghost function UpTo(n: nat): (s: set<nat>)
    ensures forall i: nat {:trigger i in s} :: i in s <==> i < n
  {
    if n == 0 then {} else UpTo(n - 1) + {n - 1}
  }

  datatype Stats = Stats(ordersAdded: nat, ordersCancelled: nat, ordersFilled: nat, tradesExecuted: nat,
                         totalVolume: int)

  datatype CancelResult = CancelResult(found: bool, cancelled: bool)
  datatype ModifyResult = ModifyResult(success: bool, newId: nat, fills: seq<Trade>)

  class OrderBook {
    var bids: Ladder
    var asks: Ladder
    var orderMap: map<nat, nat>
    const pool: MemoryPool
    var orderSeq: nat
    var tradeSeq: nat
    var stats: Stats

    ghost var orders: Orders         // order_map_ with the pool slots looked up
    ghost var owner: map<nat, nat>   // the order in each taken slot
    ghost var ladders: Ladders       // both ladders in one
    ghost var levels: Levels         // the ids that rest at each level, oldest first

    // ------------------------------------------------------------------ representation

    // The registered orders sit in different slots, which are not free.
    ghost predicate Registered()
      reads this`orders, this`orderMap, this`owner, pool
    {
      && pool.Valid()
      && orders.Keys == orderMap.Keys
      && (forall id {:trigger orderMap[id]} :: id in orderMap ==>
            && orderMap[id] < pool.capacity && orderMap[id] !in pool.free
            && orders[id] == pool.storage[orderMap[id]]
            && orderMap[id] in owner && owner[orderMap[id]] == id)
    }

    // ... and no other slot is taken
    ghost predicate SlotsOk()
      reads this`orders, this`orderMap, this`owner, pool
    {
      Registered() && |orderMap| + pool.freeTop == pool.capacity
    }

    // One slot is taken for an order that is not registered yet.
    ghost predicate Reserved(slot: nat)
      reads this`orders, this`orderMap, this`owner, pool
    {
      && Registered() && |orderMap| + pool.freeTop + 1 == pool.capacity
      && slot < pool.capacity && slot !in pool.free
      && (forall id {:trigger orderMap[id]} :: id in orderMap ==> orderMap[id] != slot)
    }

    ghost predicate LaddersOk()
      reads this`bids, this`asks, this`ladders
    {
      && (forall p {:trigger p in bids} {:trigger Key(BUY, p) in ladders} ::
            (p in bids <==> Key(BUY, p) in ladders) && (p in bids ==> bids[p] == ladders[Key(BUY, p)]))
      && (forall p {:trigger p in asks} {:trigger Key(SELL, p) in ladders} ::
            (p in asks <==> Key(SELL, p) in ladders) && (p in asks ==> asks[p] == ladders[Key(SELL, p)]))
    }

    ghost predicate Repr()
      reads this`bids, this`asks, this`ladders, this`orders, this`orderMap, this`owner, pool
    {
      SlotsOk() && LaddersOk()
    }

    // What rests on one side: at each price the orders, oldest first.
    ghost function Side(side: Side): Depth
      reads this`levels, this`orders
    {
      Abs(levels, orders, side)
    }

    ghost function Seen(): View
      reads this`levels, this`orders, this`orderSeq, this`tradeSeq, this`stats
    {
      View(Side(BUY), Side(SELL), orderSeq, tradeSeq, stats.totalVolume, stats.ordersAdded, stats.tradesExecuted)
    }

    ghost predicate Sound(extra: Option<nat>)
      reads this, pool
    {
      Repr() && BookSound(ladders, levels, orders, orderSeq, extra)
    }

    ghost predicate Valid()
      reads this, pool
    {
      Sound(None)
    }

    constructor (capacity: nat)
      ensures Valid() && fresh(pool) && pool.capacity == capacity
      ensures Seen() == View(map[], map[], 0, 0, 0, 0, 0) && orders == map[]
    {
      bids, asks, orderMap, orderSeq, tradeSeq := map[], map[], map[], 0, 0;
      pool := new MemoryPool(capacity);
      stats := Stats(0, 0, 0, 0, 0);
      levels, orders, owner, ladders := map[], map[], map[], map[];
      new;
      hide *;
      NewIsValid();
    }

    lemma NewIsValid()
      requires bids == map[] && asks == map[] && orderMap == map[] && orderSeq == tradeSeq == 0
      requires stats == Stats(0, 0, 0, 0, 0) && pool.Valid() && pool.freeTop == pool.capacity
      requires levels == map[] && orders == map[] && owner == map[] && ladders == map[]
      ensures Valid() && Seen() == View(map[], map[], 0, 0, 0, 0, 0)
    {
      hide BookSound, Abs;
      EmptyBook();
    }

    // ------------------------------------------------------------------ orders by id

    lemma InTheMap(id: nat)
      requires SlotsOk() && id in orders
      ensures id in orderMap
    {
    }

    // the order that order_map_ finds for id
    function OrderOf(id: nat): (o: Order)
      requires SlotsOk() && id in orderMap
      reads this`orders, this`orderMap, this`owner, pool
      ensures id in orders && o == orders[id]
    {
      pool.storage[orderMap[id]]
    }

    // a write through the pointer that order_map_ holds for id
    method SetOrder(id: nat, o: Order)
      requires SlotsOk() && id in orders
      modifies this`orders, pool
      ensures SlotsOk() && orders == old(orders)[id := o]
      ensures pool.freeTop == old(pool.freeTop)
    {
      pool.storage := pool.storage[orderMap[id] := o];
      orders := orders[id := o];
    }

    // order_map_.erase followed by order_pool_.deallocate
    method Retire(id: nat)
      requires SlotsOk() && id in orders
      modifies this`orders, this`orderMap, pool
      ensures SlotsOk() && orders == old(orders) - {id}
      ensures pool.freeTop == old(pool.freeTop) + 1
    {
      var slot := orderMap[id];
      orderMap := orderMap - {id};
      orders := orders - {id};
      assert orderMap.Keys == old(orderMap.Keys) - {id};
      assert |orderMap| == |old(orderMap)| - 1;
      pool.Deallocate(slot);
    }

    // ------------------------------------------------------------------ ladders

    function LevelAt(side: Side, p: int): (lvl: PriceLevel)
      requires LaddersOk() && Key(side, p) in ladders
      reads this`bids, this`asks, this`ladders
      ensures lvl == ladders[Key(side, p)]
    {
      match side case BUY => bids[p] case SELL => asks[p]
    }

    predicate HasLevel(side: Side, p: int)
      requires LaddersOk()
      reads this`bids, this`asks, this`ladders
      ensures HasLevel(side, p) <==> Key(side, p) in ladders
    {
      match side case BUY => p in bids case SELL => p in asks
    }

    method SetLevel(side: Side, p: int, lvl: PriceLevel)
      requires LaddersOk()
      modifies this`bids, this`asks, this`ladders
      ensures LaddersOk() && ladders == old(ladders)[Key(side, p) := lvl]
    {
      if side == BUY {
        bids := bids[p := lvl];
      } else {
        asks := asks[p := lvl];
      }
      ladders := ladders[Key(side, p) := lvl];
    }

    method EraseLevel(side: Side, p: int)
      requires LaddersOk()
      modifies this`bids, this`asks, this`ladders
      ensures LaddersOk() && ladders == old(ladders) - {Key(side, p)}
    {
      if side == BUY {
        bids := bids - {p};
      } else {
        asks := asks - {p};
      }
      ladders := ladders - {Key(side, p)};
    }

    // ------------------------------------------------------------------ level_remove_order_links

    method LevelRemoveOrderLinks(side: Side, p: int, id: nat)
      requires Repr() && id in orders && Key(side, p) in ladders
      modifies this`bids, this`asks, this`ladders, this`orders, pool
      ensures Repr() && orders == Unlinked(old(orders), old(orders)[id])
      ensures ladders == old(ladders)[Key(side, p) := LevelWithout(old(ladders)[Key(side, p)], old(orders)[id])]
      ensures pool.freeTop == old(pool.freeTop)
    {
      var o, lvl := OrderOf(id), LevelAt(side, p);
      if o.prev == 0 {
        lvl := lvl.(head := o.next);
      }
      if o.next == 0 {
        lvl := lvl.(tail := o.prev);
      }
      if lvl.orderCount > 0 {
        lvl := lvl.(orderCount := lvl.orderCount - 1);
      }
      JoinNeighbours(o);
      SetLevel(side, p, lvl);
    }

    // the part of level_remove_order_links that writes to the neighbours of o
    method JoinNeighbours(o: Order)
      requires SlotsOk()
      modifies this`orders, pool
      ensures SlotsOk() && orders == Unlinked(old(orders), o)
      ensures pool.freeTop == old(pool.freeTop)
    {
      if o.prev != 0 && o.prev in orderMap {
        SetOrder(o.prev, OrderOf(o.prev).(next := o.next));
      }
      if o.next != 0 && o.next in orderMap {
        SetOrder(o.next, OrderOf(o.next).(prev := o.prev));
      }
    }

    // an order leaves its level; a level without orders leaves the ladder
    method LeaveLevel(id: nat)
      requires Repr() && id in orders && LevelOf(orders[id]) in ladders
      modifies this`bids, this`asks, this`ladders, this`orders, pool
      ensures Repr() && orders == Unlinked(old(orders), old(orders)[id])
      ensures ladders == Left(old(ladders), old(orders)[id].(remaining := 0))
      ensures pool.freeTop == old(pool.freeTop)
    {
      var o := OrderOf(id);
      LevelRemoveOrderLinks(o.side, o.price, id);
      if LevelAt(o.side, o.price).orderCount == 0 {
        EraseLevel(o.side, o.price);
      }
    }

    // ------------------------------------------------------------------ fill_order

    // the quantities of the maker and the taker, and the total of the maker's level
    method TakeQuantity(maker: nat, taker: nat, fill: int)
      requires Repr() && maker in orders && taker in orders && maker != taker && LevelOf(orders[maker]) in ladders
      modifies this`bids, this`asks, this`ladders, this`orders, pool
      ensures Repr() && pool.freeTop == old(pool.freeTop)
      ensures orders == old(orders)[maker := LessRemaining(old(orders)[maker], fill)]
                                   [taker := LessRemaining(old(orders)[taker], fill)]
      ensures ladders == LessTotal(old(ladders), LevelOf(old(orders)[maker]), fill)
    {
      InTheMap(maker);
      hide Registered, LaddersOk;
      var m := OrderOf(maker);
      TakeFromBoth(maker, taker, fill);
      var lvl := LevelAt(m.side, m.price);
      SetLevel(m.side, m.price, lvl.(totalQty := lvl.totalQty - fill));
    }

    method TakeFromBoth(maker: nat, taker: nat, fill: int)
      requires SlotsOk() && maker in orders && taker in orders && maker != taker
      modifies this`orders, pool
      ensures SlotsOk() && pool.freeTop == old(pool.freeTop)
      ensures orders == old(orders)[maker := LessRemaining(old(orders)[maker], fill)]
                                   [taker := LessRemaining(old(orders)[taker], fill)]
    {
      var m, t := OrderOf(maker), OrderOf(taker);
      SetOrder(maker, LessRemaining(m, fill));
      SetOrder(taker, LessRemaining(t, fill));
    }

    // fill_order: the oldest maker of a level trades with the order being matched
    method FillOrder(maker: nat, taker: nat, fill: int) returns (trade: Trade)
      requires Repr() && maker in orders && taker in orders && maker != taker
      requires orders[maker].id == maker && orders[taker].id == taker && LevelOf(orders[maker]) in ladders
      requires orders[maker].prev == 0 && orders[maker].next != maker && orders[maker].next != taker
      requires 0 < fill <= orders[maker].remaining && fill <= orders[taker].remaining
      modifies this`bids, this`asks, this`ladders, this`orderMap, this`orders, this`tradeSeq, this`stats, pool
      ensures Repr()
      ensures orders == Filled(old(orders), old(orders)[maker], old(orders)[taker], fill)
      ensures ladders == FilledLadders(old(ladders), old(orders)[maker], fill)
      ensures trade == Trade(old(tradeSeq) + 1, maker, taker, old(orders)[maker].price, fill, old(orders)[taker].side)
      ensures tradeSeq == old(tradeSeq) + 1
      ensures stats == Traded(old(stats), fill, old(orders)[maker].remaining == fill)
      ensures pool.freeTop == old(pool.freeTop) + if fill == old(orders)[maker].remaining then 1 else 0
    {
      tradeSeq := tradeSeq + 1;
      var m, t := OrderOf(maker), OrderOf(taker);
      trade := Trade(tradeSeq, m.id, t.id, m.price, fill, t.side);
      stats := Traded(stats, fill, m.remaining == fill);
      Exchange(m, t, fill);
    }

    // what fill_order does to the two orders and the maker's level
    method Exchange(m: Order, t: Order, fill: int)
      requires Repr() && m.id in orders && t.id in orders && m.id != t.id && orders[m.id] == m && orders[t.id] == t
      requires LevelOf(m) in ladders && m.prev == 0 && m.next != m.id && m.next != t.id
      modifies this`bids, this`asks, this`ladders, this`orderMap, this`orders, pool
      ensures Repr() && orders == Filled(old(orders), m, t, fill)
      ensures ladders == FilledLadders(old(ladders), m, fill)
      ensures pool.freeTop == old(pool.freeTop) + if fill == m.remaining then 1 else 0
    {
      ghost var orders0, ladders0 := orders, ladders;
      TakeQuantity(m.id, t.id, fill);
      ghost var orders1 := orders;
      Settle(m.id, t.id);
      SettledIsFilled(orders0, orders1, orders, m, t, fill);
      LeftAfterTake(ladders0, m, fill);
    }

    // the second half of fill_order: an exhausted maker is retired, both states are set
    method Settle(maker: nat, taker: nat)
      requires Repr() && maker in orders && taker in orders && maker != taker && LevelOf(orders[maker]) in ladders
      requires orders[maker].prev == 0 && orders[maker].next != maker && orders[maker].next != taker
      modifies this`bids, this`asks, this`ladders, this`orderMap, this`orders, pool
      ensures Repr() && orders == Settled(old(orders), maker, taker)
      ensures ladders == if old(orders)[maker].remaining == 0 then Left(old(ladders), old(orders)[maker])
        else old(ladders)
      ensures pool.freeTop == old(pool.freeTop) + if old(orders)[maker].remaining == 0 then 1 else 0
    {
      var m, t := OrderOf(maker), OrderOf(taker);
      if m.remaining == 0 {
        RetireMaker(maker);
      } else {
        SetOrder(maker, m.(status := PARTIAL));
      }
      SetOrder(taker, t.(status := if t.remaining == 0 then FILLED else PARTIAL));
    }

    method RetireMaker(maker: nat)
      requires Repr() && maker in orders && LevelOf(orders[maker]) in ladders && orders[maker].remaining == 0
      modifies this`bids, this`asks, this`ladders, this`orders, this`orderMap, pool
      ensures Repr() && pool.freeTop == old(pool.freeTop) + 1
      ensures orders == Unlinked(old(orders), old(orders)[maker]) - {maker}
      ensures ladders == Left(old(ladders), old(orders)[maker])
    {
      hide LaddersOk, Left, Registered;
      LeaveLevel(maker);
      MarkAndRetire(maker);
    }

    method MarkAndRetire(maker: nat)
      requires SlotsOk() && maker in orders
      modifies this`orders, this`orderMap, pool
      ensures SlotsOk() && orders == old(orders) - {maker} && pool.freeTop == old(pool.freeTop) + 1
    {
      SetOrder(maker, OrderOf(maker).(status := FILLED));
      Retire(maker);
    }

    // ------------------------------------------------------------------ match_order

    // one round of the inner loop of match_order: the oldest order at level k is filled
    method MatchHead(taker: nat, maker: nat, ghost k: Key) returns (trade: Trade, next: nat)
      requires Sound(Some(taker)) && orders[taker].remaining > 0
      requires k in levels && levels[k] != [] && levels[k][0] == maker
      modifies this, pool
      ensures Sound(Some(taker)) && orderSeq == old(orderSeq)
      ensures StepOf(old(orders), old(levels), orders, levels, taker, k)
      ensures trade == Trade(old(tradeSeq) + 1, maker, taker, k.price, FillOf(old(orders), maker, taker),
        old(orders)[taker].side)
      ensures tradeSeq == old(tradeSeq) + 1 && next == if |old(levels)[k]| == 1 then 0 else old(levels)[k][1]
      ensures stats == Traded(old(stats), trade.qty, old(orders)[maker].remaining == trade.qty)
      ensures pool.freeTop == old(pool.freeTop) + if old(orders)[maker].remaining == trade.qty then 1 else 0
    {
      hide BookSound, SlotsOk, LaddersOk, StepOf, Filled, FilledLadders;
      HeadIsMaker(ladders, levels, orders, orderSeq, taker, k);
      ghost var orders0, ladders0, levels0 := orders, ladders, levels;
      trade, next := TradeWithHead(taker, maker, k);
      levels := if trade.qty == orders0[maker].remaining then RemoveFrom(levels0, k, 0) else levels0;
      FillStep(ladders0, ladders, levels0, levels, orders0, orders, orderSeq, maker, taker, k);
    }

    method TradeWithHead(taker: nat, maker: nat, ghost k: Key) returns (trade: Trade, next: nat)
      requires Sound(Some(taker)) && orders[taker].remaining > 0
      requires k in levels && levels[k] != [] && levels[k][0] == maker
      modifies this`bids, this`asks, this`ladders, this`orderMap, this`orders, this`tradeSeq, this`stats, pool
      ensures Repr() && maker in old(orders) && LevelOf(old(orders)[maker]) == k
      ensures orders == Filled(old(orders), old(orders)[maker], old(orders)[taker], trade.qty)
      ensures ladders == FilledLadders(old(ladders), old(orders)[maker], trade.qty)
      ensures trade == Trade(old(tradeSeq) + 1, maker, taker, k.price, FillOf(old(orders), maker, taker),
        old(orders)[taker].side)
      ensures tradeSeq == old(tradeSeq) + 1 && next == if |levels[k]| == 1 then 0 else levels[k][1]
      ensures stats == Traded(old(stats), trade.qty, old(orders)[maker].remaining == trade.qty)
      ensures pool.freeTop == old(pool.freeTop) + if old(orders)[maker].remaining == trade.qty then 1 else 0
    {
      hide Filled, FilledLadders, Abs, Queue;
      HeadFacts(ladders, levels, orders, orderSeq, taker, k);
      var m, t := OrderOf(maker), OrderOf(taker);
      next := m.next;
      var fill := if t.remaining < m.remaining then t.remaining else m.remaining;
      trade := FillOrder(maker, taker, fill);
    }

    // The orders added that are neither filled nor cancelled nor in a slot: those that were dropped
    // because they must not rest.
    ghost function Dropped(): int
      reads this`stats, pool
    {
      stats.ordersAdded - stats.ordersFilled - stats.ordersCancelled - (pool.capacity - pool.freeTop)
    }

    // The trades so far and the rest of the book stand for one run of the pure matcher from s.
    ghost predicate Running(s: Start, trades: seq<Trade>)
      reads this, pool
    {
      && Sound(Some(s.order.id)) && orders[s.order.id].side == s.order.side
      && Ran(s, Side(s.order.side.Opposite()), Side(s.order.side), orders[s.order.id], trades, stats.totalVolume)
      && tradeSeq + 1 == s.first + |trades|
      && stats.ordersAdded == s.added && stats.tradesExecuted == s.executed + |trades|
      && Dropped() == s.dropped && stats.ordersCancelled == s.cancelled
    }

    // one round of the inner loop, in terms of the run
    method RunHead(taker: nat, maker: nat, p: int, ghost s: Start, trades: seq<Trade>)
      returns (trades': seq<Trade>, next: nat)
      requires Running(s, trades) && taker == s.order.id && orders[taker].remaining > 0
      requires var opp := s.order.side.Opposite(); var k := Key(opp, p);
        k in levels && levels[k] != [] && levels[k][0] == maker && p == Best(Prices(levels, opp), opp)
      requires Accepts(s.order.side, s.order.price, p)
      modifies this, pool
      ensures Running(s, trades') && orderSeq == old(orderSeq)
      ensures var k := Key(s.order.side.Opposite(), p); HeadGone(old(levels), levels, k, next,
        orders[taker].remaining == 0)
      ensures pool.freeTop > old(pool.freeTop) || (pool.freeTop == old(pool.freeTop) && orders[taker].remaining == 0)
      ensures orders[taker].remaining >= 0
    {
      hide Ran, LaddersOk, SlotsOk, Abs;
      ghost var k := Key(s.order.side.Opposite(), p);
      ghost var ladders0, levels0, orders0, volume0 := ladders, levels, orders, stats.totalVolume;
      var trade;
      trade, next := MatchHead(taker, maker, k);
      trades' := trades + [trade];
      RunStep(s, ladders0, levels0, levels, orders0, orders, orderSeq, k, trades, trade, volume0, next);
    }

    // the inner loop of match_order: the queue of the best level, oldest order first
    method SweepLevel(taker: nat, p: int, ghost s: Start, trades: seq<Trade>) returns (trades': seq<Trade>)
      requires Running(s, trades) && taker == s.order.id && orders[taker].remaining > 0
      requires var opp := s.order.side.Opposite(); Key(opp, p) in levels && p == Best(Prices(levels, opp), opp)
      requires Accepts(s.order.side, s.order.price, p)
      modifies this, pool
      ensures Running(s, trades') && orderSeq == old(orderSeq) && levels.Keys <= old(levels.Keys)
      ensures orders[taker].remaining == 0 || Key(s.order.side.Opposite(), p) !in levels
    {
      hide Ran, Abs, Dropped;
      var opp := OrderOf(taker).side.Opposite();
      ghost var k := Key(opp, p);
      HeadFacts(ladders, levels, orders, orderSeq, taker, k);
      var cur := LevelAt(opp, p).head;
      trades' := trades;
      while cur != 0 && OrderOf(taker).remaining > 0
        invariant Running(s, trades') && orderSeq == old(orderSeq) && levels.Keys <= old(levels.Keys)
        invariant orders[taker].remaining >= 0
        invariant HeadIs(levels, k, cur) || orders[taker].remaining == 0
        decreases pool.capacity - pool.freeTop, orders[taker].remaining
      {
        BestStays(Prices(old(levels), opp), Prices(levels, opp), opp, p);
        trades', cur := RunHead(taker, cur, p, s, trades');
      }
    }

    function LadderKeys(side: Side): (ps: set<int>)
      requires LaddersOk() && ladders.Keys == levels.Keys
      reads this`bids, this`asks, this`ladders, this`levels
      ensures ps == Prices(levels, side)
    {
      match side
      case BUY => assert forall p :: p in bids.Keys <==> Key(BUY, p) in levels; bids.Keys
      case SELL => assert forall p :: p in asks.Keys <==> Key(SELL, p) in levels; asks.Keys
    }

    // Lines 165-168 erase a level that the inner loop has left empty. There is none: fill_order
    // erases a level together with its last order.
    lemma NoEmptyLevel(side: Side, p: int, s: Start, trades: seq<Trade>)
      requires Running(s, trades)
      ensures HasLevel(side, p) ==> LevelAt(side, p).orderCount > 0
    {
      assert Key(side, p) in levels ==> LevelOk(ladders[Key(side, p)], Key(side, p), levels[Key(side, p)], orders);
    }

    // one round of the outer loop
    method SweepBest(taker: nat, p: int, ghost s: Start, trades: seq<Trade>) returns (trades': seq<Trade>)
      requires Running(s, trades) && taker == s.order.id && orders[taker].remaining > 0
      requires var opp := s.order.side.Opposite(); Key(opp, p) in levels && p == Best(Prices(levels, opp), opp)
      requires Accepts(s.order.side, s.order.price, p)
      modifies this, pool
      ensures Running(s, trades') && orderSeq == old(orderSeq) && levels.Keys <= old(levels.Keys)
      ensures levels.Keys < old(levels.Keys) || (levels.Keys == old(levels.Keys) && orders[taker].remaining == 0)
    {
      var opp := OrderOf(taker).side.Opposite();
      trades' := SweepLevel(taker, p, s, trades);
      NoEmptyLevel(opp, p, s, trades');
      KeysShrink(old(levels.Keys), levels.Keys, Key(opp, p));
    }

    // the outer loop of match_order
    method Sweep(taker: nat, ghost s: Start) returns (trades: seq<Trade>)
      requires Running(s, []) && taker == s.order.id
      modifies this, pool
      ensures Running(s, trades) && orderSeq == old(orderSeq) && levels.Keys <= old(levels.Keys)
      ensures var opp := s.order.side.Opposite(); var ps := Prices(levels, opp);
        orders[taker].remaining == 0 || ps == {} || !Accepts(s.order.side, s.order.price, Best(ps, opp))
    {
      var t := OrderOf(taker);
      var opp := t.side.Opposite();
      trades := [];
      while OrderOf(taker).remaining > 0 && LadderKeys(opp) != {}
        invariant Running(s, trades) && orderSeq == old(orderSeq) && levels.Keys <= old(levels.Keys)
        decreases levels.Keys, orders[taker].remaining
      {
        var p := Best(LadderKeys(opp), opp);
        if !Accepts(t.side, t.price, p) {
          break;
        }
        trades := SweepBest(taker, p, s, trades);
      }
    }

    // match_order trades exactly as the pure matcher does with the queue of the opposite side.
    method MatchOrder(taker: nat) returns (trades: seq<Trade>)
      requires Sound(Some(taker)) && orders[taker].remaining > 0
      modifies this, pool
      ensures Sound(Some(taker)) && MatchedTo(old(Seen()), Seen(), old(orders)[taker], orders[taker], trades)
      ensures taker in orders && orders[taker].remaining >= 0 && orderSeq == old(orderSeq)
      ensures Dropped() == old(Dropped()) && stats.ordersCancelled == old(stats.ordersCancelled)
      ensures var t := orders[taker];
        t.remaining > 0 ==> forall p :: p in Prices(levels, t.side.Opposite()) ==> !Accepts(t.side, t.price, p)
    {
      hide MatchedTo, Flat, Rest0, LaddersOk, Abs, Numbered, Fills;
      ghost var b, t := Seen(), OrderOf(taker);
      SidesSeen(t.side);
      ghost var s := Start(b.On(t.side.Opposite()), b.On(t.side), t, tradeSeq + 1, stats.totalVolume, stats.ordersAdded,
        stats.tradesExecuted, Dropped(), stats.ordersCancelled);
      RanStart(s);
      trades := Sweep(taker, s);
      NothingLeft(s, ladders, levels, orders, orderSeq);
      SidesSeen(t.side);
      MatchedByRun(s, b, Seen(), t, orders[taker], trades);
    }

    lemma SidesSeen(side: Side)
      ensures Seen().On(side) == Side(side) && Seen().On(side.Opposite()) == Side(side.Opposite())
    {
      hide Abs;
      match side
      case BUY =>
      case SELL =>
    }

    // ------------------------------------------------------------------ can_fill_fok

    method CanFillFok(side: Side, price: int, qty: int) returns (ok: bool)
      requires LaddersOk() && BookOk(ladders, levels, orders, orderSeq, None) && qty > 0
      ensures ok <==> FillOrKill(Side(side.Opposite()), side, price, qty, 0)
    {
      var opp := side.Opposite();
      var avail, rest := 0, LadderKeys(opp);
      AbsOk(ladders, levels, orders, orderSeq, None, opp);
      ghost var d := Side(opp);  // the levels not looked at yet
      while rest != {}
        invariant rest == d.Keys && d.Keys <= Side(opp).Keys
        invariant forall p :: p in d ==> d[p] == Side(opp)[p]
        invariant avail < qty
        invariant FillOrKill(d, side, price, qty, avail) == FillOrKill(Side(opp), side, price, qty, 0)
      {
        var p := Best(rest, opp);
        if !Accepts(side, price, p) {
          return false;
        }
        assert LevelOk(ladders[Key(opp, p)], Key(opp, p), levels[Key(opp, p)], orders);
        avail := Wrap(avail + Wrap(LevelAt(opp, p).totalQty));
        if avail >= qty {
          return true;
        }
        rest := rest - {p};
        d := d - {p};
      }
      return avail >= qty;
    }

    // ------------------------------------------------------------------ add_order

    // slot is on top of the free list
    static ghost predicate Topmost(freeList: seq<nat>, freeTop: nat, slot: nat) {
      0 < freeTop <= |freeList| && freeList[freeTop - 1] == slot
    }

    method TakeSlot() returns (slot: Option<nat>)
      requires SlotsOk()
      modifies pool
      ensures slot.None? <==> old(pool.freeTop) == 0
      ensures slot.None? ==> SlotsOk() && pool.freeTop == 0
      ensures slot.Some? ==> Reserved(slot.value) && pool.freeTop == old(pool.freeTop) - 1
      ensures pool.freeList == old(pool.freeList)
        && (slot.Some? ==> Topmost(old(pool.freeList), old(pool.freeTop), slot.value))
    {
      slot := pool.Allocate();
    }

    method ReturnSlot(slot: nat)
      requires Reserved(slot)
      modifies pool
      ensures SlotsOk() && pool.freeTop == old(pool.freeTop) + 1
      ensures Topmost(old(pool.freeList), old(pool.freeTop) + 1, slot) ==> pool.freeList == old(pool.freeList)
    {
      pool.Deallocate(slot);
    }

    // order_map_.emplace
    method Register(o: Order, slot: nat)
      requires Reserved(slot) && o.id !in orders
      modifies this`orders, this`orderMap, this`owner, pool
      ensures SlotsOk() && orders == old(orders)[o.id := o] && pool.freeTop == old(pool.freeTop)
    {
      RegisteredOne(orderMap, orders, owner, pool.storage, pool.free, pool.capacity, o, slot);
      pool.Store(slot, o);
      orderMap := orderMap[o.id := slot];
      orders := orders[o.id := o];
      owner := owner[slot := o.id];
    }

    static lemma RegisteredOne(orderMap: map<nat, nat>, orders: Orders, owner: map<nat, nat>, storage: seq<Order>,
                               free: set<nat>, capacity: nat, o: Order, slot: nat)
      requires orders.Keys == orderMap.Keys && |storage| == capacity && o.id !in orderMap && slot < capacity
        && slot !in free
      requires forall id {:trigger orderMap[id]} :: id in orderMap ==>
            && orderMap[id] < capacity && orderMap[id] !in free && orders[id] == storage[orderMap[id]]
            && orderMap[id] in owner && owner[orderMap[id]] == id && orderMap[id] != slot
      ensures var (om, os, sto, ow) := (orderMap[o.id := slot], orders[o.id := o], storage[slot := o],
        owner[slot := o.id]);
        && os.Keys == om.Keys && |om| == |orderMap| + 1
        && forall id {:trigger om[id]} :: id in om ==>
             && om[id] < capacity && om[id] !in free && os[id] == sto[om[id]] && om[id] in ow && ow[om[id]] == id
    {
      assert orderMap[o.id := slot].Keys == orderMap.Keys + {o.id};
    }

    // level_add_order on the level of the order, which is created if it is missing
    method LevelAddOrder(id: nat)
      requires Repr() && id in orders && orders[id].id == id && id != 0 && TailOk(ladders, orders, orders[id])
      modifies this`bids, this`asks, this`ladders, this`orders, pool
      ensures Repr() && orders == AddedOrders(old(ladders), old(orders), old(orders)[id])
      ensures orderSeq == old(orderSeq) && pool.freeTop == old(pool.freeTop)
      ensures ladders == old(ladders)[LevelOf(old(orders)[id]) := AddedLevel(old(ladders), old(orders)[id])]
    {
      var o := OrderOf(id);
      var lvl := if HasLevel(o.side, o.price) then LevelAt(o.side, o.price) else PriceLevel(0, 0, 0, 0, 0);
      var tail := lvl.tail;
      lvl := lvl.(price := o.price, head := if lvl.tail == 0 then o.id else lvl.head, tail := o.id,
                  totalQty := lvl.totalQty + o.remaining, orderCount := lvl.orderCount + 1);
      assert lvl == AddedLevel(ladders, o);
      LinkBehind(o, tail);
      SetLevel(o.side, o.price, lvl);
    }

    // the part of level_add_order that writes to orders
    method LinkBehind(o: Order, tail: nat)
      requires SlotsOk() && o.id in orders && orders[o.id] == o && tail != o.id
      modifies this`orders, pool
      ensures SlotsOk() && pool.freeTop == old(pool.freeTop)
      ensures orders == (if tail != 0 && tail in old(orders) then old(orders)[tail := old(orders)[tail].(next := o.id)]
                         else old(orders))[o.id := o.(prev := tail, next := 0)]
    {
      if tail != 0 && tail in orderMap {
        SetOrder(tail, OrderOf(tail).(next := o.id));
      }
      SetOrder(o.id, o.(prev := tail, next := 0));
    }

    // level_add_order, with the record of who rests where
    method JoinLevel(id: nat)
      requires Repr() && id in orders && orders[id].id == id && id != 0 && TailOk(ladders, orders, orders[id])
      modifies this`bids, this`asks, this`ladders, this`orders, this`levels, pool
      ensures Repr() && orders == AddedOrders(old(ladders), old(orders), old(orders)[id])
      ensures orderSeq == old(orderSeq) && pool.freeTop == old(pool.freeTop)
      ensures ladders == old(ladders)[LevelOf(old(orders)[id]) := AddedLevel(old(ladders), old(orders)[id])]
      ensures levels == AddTo(old(levels), LevelOf(old(orders)[id]), id)
    {
      ghost var k := LevelOf(orders[id]);
      LevelAddOrder(id);
      levels := AddTo(levels, k, id);
    }

    // a limit order that is not filled completely comes to rest behind its level
    method PutToRest(id: nat)
      requires Sound(Some(id)) && id == orderSeq && MayRest(levels, orders[id])
      modifies this`bids, this`asks, this`ladders, this`orders, this`levels, pool
      ensures Repr() && BookSound(ladders, levels, orders, orderSeq, None) && pool.freeTop == old(pool.freeTop)
      ensures var o := old(orders)[id];
        && Side(o.side) == AddTo(old(Side(o.side)), o.price, Rest(id, o.price, o.remaining))
        && Side(o.side.Opposite()) == old(Side(o.side.Opposite()))
    {
      ghost var o := orders[id];
      assert o.id == id;
      TailFacts(ladders, levels, orders, id, o);
      RestStep(ladders, levels, orders, id, o);
      JoinLevel(id);
    }

    // an order that is done, or must not rest, leaves the order map and its slot
    method Drop(id: nat)
      requires Sound(Some(id))
      modifies this`orders, this`orderMap, pool
      ensures Valid() && Seen() == old(Seen()) && pool.freeTop == old(pool.freeTop) + 1
    {
      hide BookSound, LaddersOk, Abs, SlotsOk;
      DropStep(ladders, levels, orders, orderSeq, id);
      Erase(id);
    }

    // A filled order is marked before it is erased.
    method Erase(id: nat)
      requires SlotsOk() && id in orders
      modifies this`orders, this`orderMap, pool
      ensures SlotsOk() && orders == old(orders) - {id} && pool.freeTop == old(pool.freeTop) + 1
    {
      if OrderOf(id).remaining == 0 {
        SetOrder(id, OrderOf(id).(status := FILLED));
      }
      Retire(id);
      assert orders == old(orders) - {id};
    }

    // the fill-or-kill check; a slot that is not needed goes back
    method Screen(side: Side, tp: OrderType, price: int, qty: int, slot: nat) returns (ok: bool)
      requires Reserved(slot) && LaddersOk() && BookSound(ladders, levels, orders, orderSeq, None) && qty > 0
      modifies pool
      ensures ok <==> (tp == FOK ==> FillOrKill(Side(side.Opposite()), side, price, qty, 0))
      ensures if ok then Reserved(slot) && pool.freeTop == old(pool.freeTop)
              else
                && SlotsOk() && pool.freeTop == old(pool.freeTop) + 1
                && (Topmost(old(pool.freeList), old(pool.freeTop) + 1, slot) ==> pool.freeList == old(pool.freeList))
      ensures orders == old(orders) && ladders == old(ladders) && levels == old(levels) && orderSeq == old(orderSeq)
    {
      hide BookOk, LaddersOk, SlotsOk, Reserved, Abs, FillOrKill, Topmost;
      ok := true;
      if tp == FOK {
        ok := CanFillFok(side, price, qty);
        if !ok {
          ReturnSlot(slot);
        }
      }
    }

    // the order is registered and waits to be matched
    method Announce(o: Order, slot: nat)
      requires o.id == orderSeq > 0
      requires Reserved(slot) && LaddersOk() && BookSound(ladders, levels, orders, o.id - 1, None)
      modifies this`orders, this`orderMap, this`owner, pool
      ensures Repr() && BookSound(ladders, levels, orders, orderSeq, Some(o.id)) && orders == old(orders)[o.id := o]
      ensures pool.freeTop == old(pool.freeTop)
      ensures Side(BUY) == old(Side(BUY)) && Side(SELL) == old(Side(SELL))
    {
      RegisterStep(ladders, levels, orders, o);
      Register(o, slot);
    }

    // an order with a slot passes the fill-or-kill check, or leaves no trace
    method Admit(o: Order, slot: nat) returns (ok: bool)
      requires o.id == orderSeq > 0 && o.qty > 0
      requires Reserved(slot) && LaddersOk() && BookSound(ladders, levels, orders, o.id - 1, None)
      modifies this`orders, this`orderMap, this`owner, pool
      ensures ok <==> (o.tp == FOK ==> FillOrKill(old(Side(o.side.Opposite())), o.side, o.price, o.qty, 0))
      ensures Repr() && Seen() == old(Seen())
      ensures if ok then
                && BookSound(ladders, levels, orders, orderSeq, Some(o.id)) && orders == old(orders)[o.id := o]
                && pool.freeTop == old(pool.freeTop)
              else
                && BookSound(ladders, levels, orders, orderSeq, None) && orders == old(orders)
                  && orderMap == old(orderMap)
                && pool.freeTop == old(pool.freeTop) + 1
                && (Topmost(old(pool.freeList), old(pool.freeTop) + 1, slot) ==> pool.freeList == old(pool.freeList))
    {
      hide BookSound, LaddersOk, SlotsOk, Reserved, Abs;
      LaterLast(ladders, levels, orders, o.id - 1);
      ok := Screen(o.side, o.tp, o.price, o.qty, slot);
      if ok {
        Announce(o, slot);
      }
    }

    // The part of add_order before anything is matched: the order is registered, or rejected
    // without a trace.
    method NewOrder(side: Side, tp: OrderType, price: int, qty: int) returns (ok: bool)
      requires Valid()
      modifies this`orders, this`orderMap, this`owner, this`orderSeq, this`stats, pool
      ensures ok <==> Admissible(old(Seen()), old(pool.freeTop), side, tp, price, qty)
      ensures orderSeq == old(orderSeq) + if Sensible(old(pool.freeTop), tp, price, qty) then 1 else 0
      ensures Repr()
      ensures if ok then
                && BookSound(ladders, levels, orders, orderSeq, Some(orderSeq)) && Seen() == Announced(old(Seen()))
                && Dropped() == old(Dropped()) && stats.ordersCancelled == old(stats.ordersCancelled)
                && orders == old(orders)[orderSeq := NewlyMade(orderSeq, side, tp, price, qty)]
              else
                && BookSound(ladders, levels, orders, orderSeq, None) && Seen() == old(Seen()).(lastOrder := orderSeq)
                && orders == old(orders) && orderMap == old(orderMap) && stats == old(stats)
                && pool.freeTop == old(pool.freeTop) && pool.freeList == old(pool.freeList)
    {
      hide BookSound, LaddersOk, SlotsOk, Reserved, Abs, FillOrKill;
      ok := false;
      if qty <= 0 || (tp == LIMIT && price <= 0) {
        return;
      }
      var slot := TakeSlot();
      if slot.None? {
        return;
      }
      orderSeq := orderSeq + 1;
      ok := Admit(NewlyMade(orderSeq, side, tp, price, qty), slot.value);
      if ok {
        stats := stats.(ordersAdded := stats.ordersAdded + 1);
      }
    }

    // The part of add_order after matching: an order that is done, or must not rest, leaves the
    // order map; a limit order rests; a market order that is not done just stays registered.
    method Finish(id: nat)
      requires Sound(Some(id)) && id == orderSeq && orders[id].remaining >= 0
      requires orders[id].tp == LIMIT && orders[id].remaining > 0 ==> MayRest(levels, orders[id])
      modifies this`bids, this`asks, this`ladders, this`levels, this`orders, this`orderMap, this`stats, pool
      ensures var o := old(orders)[id];
        && Seen() == Finished(old(Seen()), o) && stats.ordersCancelled == old(stats.ordersCancelled)
        && Dropped() == old(Dropped()) + (if (o.tp == IOC || o.tp == FOK) && o.remaining > 0 then 1 else 0)
        && Sound(if o.tp == MARKET && o.remaining > 0 then Some(id) else None)
    {
      hide BookSound, LaddersOk, Abs;
      DropStep(ladders, levels, orders, orderSeq, id);
      var o := OrderOf(id);
      if o.remaining == 0 {
        stats := stats.(ordersFilled := stats.ordersFilled + 1);
        Drop(id);
      } else if o.tp == IOC || o.tp == FOK {
        Drop(id);
      } else if o.tp == LIMIT {
        PutToRest(id);
      }
    }

    // add_order: an order is rejected without a trace, or it trades as the pure matcher does and
    // what is left of a limit order comes to rest.
    method AddOrder(side: Side, tp: OrderType, price: int, qty: int) returns (r: AddResult)
      requires Valid()
      modifies this, pool
      ensures r.accepted <==> Admissible(old(Seen()), old(pool.freeTop), side, tp, price, qty)
      ensures orderSeq == old(orderSeq) + if Sensible(old(pool.freeTop), tp, price, qty) then 1 else 0
      ensures if r.accepted then
                var o := NewlyMade(old(orderSeq) + 1, side, tp, price, qty);
                && Entered(old(Seen()), Seen(), o, r) && AsAsked(old(Seen()), Seen(), side, tp, price, qty, r)
                && (if tp == MARKET && LeftOver(old(Seen()), o) > 0 then Sound(Some(r.id)) else Valid())
                && stats.ordersCancelled == old(stats.ordersCancelled)
                && Dropped() == old(Dropped())
                   + if (tp == IOC || tp == FOK) && LeftOver(old(Seen()), o) > 0 then 1 else 0
              else
                && r == AddResult(0, false, []) && Valid() && Seen() == old(Seen()).(lastOrder := orderSeq)
                && stats == old(stats)
                && bids == old(bids) && asks == old(asks) && orders == old(orders) && orderMap == old(orderMap)
                && pool.freeTop == old(pool.freeTop) && pool.freeList == old(pool.freeList)
    {
      hide BookSound, Repr, FillOrKill, Executed, LeftOver, AsAsked, ViewOk, Abs;
      SeenOk();
      var ok := NewOrder(side, tp, price, qty);
      if !ok {
        return AddResult(0, false, []);
      }
      ghost var o := orders[orderSeq];
      LeftOverAnnounced(old(Seen()), o);
      r := Execute(orderSeq);
      ExecutedFacts(Announced(old(Seen())), Seen(), o, r);
      LimitIsPrice(old(Seen()), Seen(), side, tp, price, qty, r);
    }

    // a registered order is matched, and finished
    method Execute(id: nat) returns (r: AddResult)
      requires Repr() && BookSound(ladders, levels, orders, orderSeq, Some(id)) && id == orderSeq
      requires id in orders && orders[id].id == id > 0 && orders[id].status == NEW && orders[id].remaining > 0
      requires orders[id].tp == LIMIT ==> orders[id].price > 0
      modifies this, pool
      ensures var o := old(orders)[id];
        && Executed(old(Seen()), Seen(), o, r)
        && Sound(if o.tp == MARKET && LeftOver(old(Seen()), o) > 0 then Some(id) else None)
        && stats.ordersCancelled == old(stats.ordersCancelled)
        && Dropped() == old(Dropped()) + if (o.tp == IOC || o.tp == FOK) && LeftOver(old(Seen()), o) > 0 then 1 else 0
    {
      hide BookSound, Repr, Flat, Match, Reports, Abs, Seen, Finished;
      ghost var b, o := Seen(), orders[id];
      var trades := MatchOrder(id);
      ghost var mid, o' := Seen(), orders[id];
      if o'.tp == LIMIT && o'.remaining > 0 { LeftMayRest(b, mid, o, o', trades, levels); }
      Finish(id);
      ExecutedInSteps(b, mid, Seen(), o, o', trades);
      r := AddResult(id, true, trades);
    }

    // ------------------------------------------------------------------ cancel_order and modify_order

    // the remaining quantity leaves the total of the level, the order leaves its list
    method RemoveFromLevel(id: nat)
      requires Repr() && id in orders && LevelOf(orders[id]) in ladders
      modifies this`bids, this`asks, this`ladders, this`orders, pool
      ensures Repr() && orders == Unlinked(old(orders), old(orders)[id])
      ensures ladders == Left(old(ladders), old(orders)[id])
    {
      hide Unlinked, Left;
      var o := OrderOf(id);
      var lvl := LevelAt(o.side, o.price);
      LeftInSteps(ladders, o);
      SetLevel(o.side, o.price, lvl.(totalQty := lvl.totalQty - o.remaining));
      LeaveLevel(id);
    }

    // the order leaves the order map and its slot
    method Unregister(id: nat)
      requires SlotsOk() && id in orders
      modifies this`orders, this`orderMap, pool
      ensures SlotsOk() && orders == old(orders) - {id} && pool.freeTop == old(pool.freeTop) + 1
    {
      SetOrder(id, OrderOf(id).(status := CANCELLED));
      Retire(id);
    }

    // the order leaves its level, its ladder and the order map
    method Withdraw(id: nat, ghost k: Key, ghost i: nat)
      requires Repr() && id in orders && k == LevelOf(orders[id]) && k in ladders
      requires k in levels && i < |levels[k]|
      modifies this`bids, this`asks, this`ladders, this`levels, this`orders, this`orderMap, pool
      ensures Repr() && orders == Unlinked(old(orders), old(orders)[id]) - {id}
      ensures ladders == Left(old(ladders), old(orders)[id]) && levels == RemoveFrom(old(levels), k, i)
      ensures pool.freeTop == old(pool.freeTop) + 1 && orderSeq == old(orderSeq)
    {
      hide Left, RemoveFrom, LaddersOk;
      RemoveFromLevel(id);
      Unregister(id);
      levels := RemoveFrom(levels, k, i);
    }

    // cancel_order: exactly the order asked for leaves the book.
    method CancelOrder(id: nat) returns (r: CancelResult)
      requires Valid()
      modifies this, pool
      ensures Valid() && orderSeq == old(orderSeq)
      ensures if id in old(orders) then
                && r == CancelResult(true, true) && Cancelled(old(Seen()), Seen(), old(orders)[id])
                && pool.freeTop == old(pool.freeTop) + 1 && stats.ordersCancelled == old(stats.ordersCancelled) + 1
                && Dropped() == old(Dropped())
              else
                && r == CancelResult(false, false) && Seen() == old(Seen())
                && orders == old(orders) && pool.freeTop == old(pool.freeTop) && stats == old(stats)
    {
      hide BookSound, LaddersOk, Abs, RemoveFrom, Left, Unlinked;
      if id !in orderMap {
        return CancelResult(false, false);
      }
      RestingFacts(ladders, levels, orders, orderSeq, id);
      var o := OrderOf(id);
      r := CancelResult(true, false);
      if Active(o) {
        ghost var k := LevelOf(o);
        ghost var i := IndexOf(levels[k], id);
        CancelStep(ladders, levels, orders, orderSeq, id, k, i);
        Withdraw(id, k, i);
        stats := stats.(ordersCancelled := stats.ordersCancelled + 1);
        r := CancelResult(true, true);
        assert TakenOff(old(Seen()), Seen(), o, i);
      }
    }

    // modify_order: the order leaves the book, and a new one with the same side is added. When the
    // new price or quantity is refused the order is gone all the same.
    method ModifyOrder(id: nat, price: int, qty: int) returns (r: ModifyResult)
      requires Valid()
      modifies this, pool
      ensures Valid()
      ensures if id in old(orders) then
                && r.success == (price > 0 && qty > 0)
                && Modified(old(Seen()), Seen(), old(orders)[id], price, qty, r)
                && Dropped() == old(Dropped()) && stats.ordersCancelled == old(stats.ordersCancelled) + 1
              else
                && r == ModifyResult(false, 0, []) && Seen() == old(Seen())
                && orders == old(orders) && pool.freeTop == old(pool.freeTop) && stats == old(stats)
    {
      hide BookSound, LaddersOk, Abs, Cancelled, Executed, Flat, FillOrKill;
      if id !in orderMap {
        return ModifyResult(false, 0, []);
      }
      RestingFacts(ladders, levels, orders, orderSeq, id);
      var o := OrderOf(id);
      var _ := CancelOrder(id);
      ghost var mid := Seen();
      var add := AddOrder(o.side, o.tp, price, qty);
      r := ModifyResult(add.accepted, add.id, add.fills);
      assert ModifiedVia(old(Seen()), mid, Seen(), o, price, qty, r);
    }

    method Clear()
      requires Valid()
      modifies this, pool
      ensures Valid() && Seen() == View(map[], map[], 0, 0, 0, 0, 0)
      ensures orders == map[] && pool.freeTop == pool.capacity && stats == Stats(0, 0, 0, 0, 0) && Dropped() == 0
    {
      hide BookSound, Abs, SlotsOk, LaddersOk;
      EmptyBook();
      ForgetOrders();
      ForgetLevels();
      orderSeq, tradeSeq := 0, 0;
      stats := Stats(0, 0, 0, 0, 0);
    }

    method ForgetLevels()
      modifies this`bids, this`asks, this`levels, this`ladders
      ensures LaddersOk() && levels == map[] && ladders == map[]
    {
      bids, asks, levels, ladders := map[], map[], map[], map[];
    }

    method ForgetOrders()
      requires SlotsOk()
      modifies this`orders, this`orderMap, this`owner, pool
      ensures SlotsOk() && orders == map[] && pool.freeTop == pool.capacity
    {
      orders, orderMap, owner := map[], map[], map[];
      pool.Reset();
    }

    // ------------------------------------------------------------------ what callers read

    // What rests has positive quantities, at the prices of its levels.
    lemma SeenOk()
      requires Valid()
      ensures ViewOk(Seen())
    {
      AbsOk(ladders, levels, orders, orderSeq, None, BUY);
      AbsOk(ladders, levels, orders, orderSeq, None, SELL);
    }

    lemma SidePrices(side: Side)
      requires Valid()
      ensures DepthOk(Side(side)) && Side(side).Keys == Prices(levels, side) && ladders.Keys == levels.Keys
    {
      AbsOk(ladders, levels, orders, orderSeq, None, side);
    }

    // best_bid and best_ask: the price of the first order in the queue of the side, or 0
    method BestPrice(side: Side) returns (p: int)
      requires Valid()
      ensures var q := Flat(Side(side), side); p == if q == [] then 0 else q[0].price
    {
      SeenOk();
      ghost var d := Side(side);
      FlatFacts(d, side);
      AbsOk(ladders, levels, orders, orderSeq, None, side);
      if LadderKeys(side) == {} {
        return 0;
      }
      p := Best(LadderKeys(side), side);
      PopHead(d, side, p);
    }

    // one entry of the depth: price, total and count of a level
    method Summary(side: Side, p: int) returns (out: DepthLevel)
      requires Valid() && Key(side, p) in levels
      ensures p in Side(side) && out == DepthLevel(p, Wrap(Total(Side(side)[p])), |Side(side)[p]|)
    {
      hide BookSound, SlotsOk, Abs;
      LevelFacts(ladders, levels, orders, orderSeq, None, Key(side, p));
      var lvl := LevelAt(side, p);
      out := DepthLevel(lvl.price, Wrap(lvl.totalQty), lvl.orderCount);
    }

    // bid_depth and ask_depth: the first levels of the ladder, best first. A negative count is a
    // request for more room than a vector can have, and throws.
    method DepthLevels(side: Side, count: int) returns (out: Option<seq<DepthLevel>>)
      requires Valid()
      ensures out == if count < 0 then None else Some(DepthOf(Side(side), side, count))
    {
      if count < 0 {
        return None;
      }
      var found := FirstLevels(side, count);
      return Some(found);
    }

    method FirstLevels(side: Side, count: nat) returns (out: seq<DepthLevel>)
      requires Valid()
      ensures out == DepthOf(Side(side), side, count)
    {
      hide BookSound, SlotsOk, LaddersOk, Total, Abs, DepthOf, Prices, DepthOk;
      SidePrices(side);
      out := [];
      var rest := LadderKeys(side);
      ghost var d := Side(side);  // the levels not reported yet
      while rest != {} && |out| < count
        invariant rest == d.Keys && d.Keys <= Side(side).Keys && |out| <= count
        invariant forall p :: p in d ==> d[p] == Side(side)[p]
        invariant DepthOf(Side(side), side, count) == out + DepthOf(d, side, count - |out|)
      {
        var p := Best(rest, side);
        var entry := Summary(side, p);
        DepthOfStep(d, side, count - |out|);
        ghost var later := DepthOf(d - {p}, side, count - |out| - 1);
        assert out + ([entry] + later) == out + [entry] + later;
        out := out + [entry];
        rest := rest - {p};
        d := d - {p};
      }
      DepthOfEmpty(d, side);
    }

    // order_map_ holds exactly the resting orders, and order_count is their number.
    lemma RegisteredIsResting(id: nat)
      requires Valid()
      ensures id in orderMap <==> exists side, p, i {:trigger At(Seen(), side, p, i, id)} :: At(Seen(), side, p, i, id)
      ensures pool.Used() == |orderMap|
    {
      if id in orderMap {
        RestingFacts(ladders, levels, orders, orderSeq, id);
        var k := LevelOf(orders[id]);
        assert k.price in Prices(levels, k.side);
        assert At(Seen(), k.side, k.price, IndexOf(levels[k], id), id);
      }
      if side, p, i :| At(Seen(), side, p, i, id) {
        assert p in Prices(levels, side);
        OneLevel(ladders, levels, orders, orderSeq, None, Key(side, p), id);
      }
    }

    // Orders at the same price stand in the queue by increasing id, which is by time of arrival.
    lemma QueueOldestFirst(side: Side)
      requires Valid()
      ensures var q := Flat(Side(side), side); forall i, j :: 0 <= i < j < |q| && q[i].price == q[j].price ==>
        q[i].id < q[j].id
    {
      AbsInOrder(ladders, levels, orders, orderSeq, side);
    }

    // Under an id rests exactly what remains of the registered order.
    lemma HeldIs(id: nat)
      requires Valid()
      ensures Held(Seen(), id) == if id in orders then orders[id].remaining else 0
      ensures id in orders ==> orders[id].id == id && orders[id].remaining > 0 && orders[id].tp == LIMIT
    {
      QtyInBook(ladders, levels, orders, orderSeq, BUY, id);
      QtyInBook(ladders, levels, orders, orderSeq, SELL, id);
      if id in orders {
        RestingFacts(ladders, levels, orders, orderSeq, id);
        assert orders[id].side.BUY? || orders[id].side.SELL?;
      }
    }

    // The slots that are free are those that no resting order takes.
    lemma FreeSlots()
      requires Valid()
      ensures pool.freeTop == pool.capacity - OrdersIn(Seen())
    {
      hide BookSound, Abs, Flat, LaddersOk;
      OrdersCount(ladders, levels, orders, orderSeq);
      assert |orders.Keys| == |orderMap.Keys|;
    }

    // The best bid is below the best ask.
    lemma NeverCrossed()
      requires Valid()
      ensures forall i, j :: 0 <= i < |Flat(Side(BUY), BUY)| && 0 <= j < |Flat(Side(SELL), SELL)| ==>
        Flat(Side(BUY), BUY)[i].price < Flat(Side(SELL), SELL)[j].price
    {
      SeenOk();
      FlatFacts(Side(BUY), BUY);
      FlatFacts(Side(SELL), SELL);
    }
  }

  datatype DepthLevel = DepthLevel(price: int, qty: int, count: nat)

  ghost function DepthOf(d: Depth, side: Side, count: nat): seq<DepthLevel>
    decreases count
  {
    if count == 0 || d.Keys == {} then [] else
      var p := Best(d.Keys, side);
      [DepthLevel(p, Wrap(Total(d[p])), |d[p]|)] + DepthOf(d - {p}, side, count - 1)
  }

  lemma DepthOfStep(d: Depth, side: Side, count: nat)
    requires count > 0 && d.Keys != {}
    ensures var p := Best(d.Keys, side);
      DepthOf(d, side, count) == [DepthLevel(p, Wrap(Total(d[p])), |d[p]|)] + DepthOf(d - {p}, side, count - 1)
  {
  }

  lemma DepthOfEmpty(d: Depth, side: Side)
    ensures DepthOf(d, side, 0) == []
    ensures d.Keys == {} ==> forall count :: DepthOf(d, side, count) == []
  {
  }

  // order id is the i-th at price p
  ghost predicate At(v: View, side: Side, p: int, i: nat, id: nat) {
    p in v.On(side) && i < |v.On(side)[p]| && v.On(side)[p][i].id == id
  }

  lemma KeysShrink(before: set<Key>, now: set<Key>, k: Key)
    requires now <= before && k in before
    ensures k !in now ==> now < before
    ensures now < before || now == before
  {
  }

  // cur is the oldest order at level k, or 0 if there is no such level
  ghost predicate HeadIs(lv: Levels, k: Key, cur: nat) {
    if cur == 0 then k !in lv else k in lv && lv[k] != [] && lv[k][0] == cur
  }

  lemma BestStays(before: set<int>, now: set<int>, side: Side, p: int)
    requires now <= before && p in now && before != {} && p == Best(before, side)
    ensures p == Best(now, side)
  {
    var q := Best(now, side);
    assert NotWorse(side, p, q) && NotWorse(side, q, p);
  }

  // market orders get an extreme price
  function LimitOf(side: Side, tp: OrderType, price: int): int {
    if tp != MARKET then price else match side case BUY => INT64_MAX case SELL => INT64_MIN
  }

  // the order add_order makes
  function NewlyMade(id: nat, side: Side, tp: OrderType, price: int, qty: int): Order {
    Order(id, LimitOf(side, tp, price), qty, qty, 0, 0, side, tp, NEW)
  }

  // The limit that an order gets is the price the caller asked for; a market order has none.
  lemma LimitIsPrice(b: View, a: View, side: Side, tp: OrderType, price: int, qty: int, r: AddResult)
    requires ViewOk(b) && qty > 0 && Entered(b, a, NewlyMade(b.lastOrder + 1, side, tp, price, qty), r)
    ensures AsAsked(b, a, side, tp, price, qty, r)
  {
    hide ViewOk, Executed, AsAsked;
    assert LimitMeans(NewlyMade(b.lastOrder + 1, side, tp, price, qty), price);
    ExecutedAsAsked(b, a, NewlyMade(b.lastOrder + 1, side, tp, price, qty), price, r);
  }

  // o leaves the book b, which is mid then; the new order makes a of it.
  ghost predicate ModifiedVia(b: View, mid: View, a: View, o: Order, price: int, qty: int, r: ModifyResult) {
    && Cancelled(b, mid, o)
    && if r.success then
         var add := AddResult(r.newId, true, r.fills);
         && Entered(mid, a, NewlyMade(b.lastOrder + 1, o.side, LIMIT, price, qty), add)
         && AsAsked(mid, a, o.side, LIMIT, price, qty, add)
       else a == mid && r == ModifyResult(false, 0, [])
  }

  ghost predicate Modified(b: View, a: View, o: Order, price: int, qty: int, r: ModifyResult) {
    exists mid {:trigger ModifiedVia(b, mid, a, o, price, qty, r)} :: ModifiedVia(b, mid, a, o, price, qty, r)
  }

  // the order passes the checks that do not look at the book, and uses up an id
  ghost predicate Sensible(slots: nat, tp: OrderType, price: int, qty: int) {
    qty > 0 && (tp == LIMIT ==> price > 0) && slots > 0
  }

  // add_order accepts exactly these orders
  ghost predicate Admissible(b: View, slots: nat, side: Side, tp: OrderType, price: int, qty: int) {
    && Sensible(slots, tp, price, qty)
    && (tp == FOK ==> FillOrKill(b.On(side.Opposite()), side, price, qty, 0))
  }

  function Traded(stats: Stats, fill: int, whole: bool): Stats {
    Stats(stats.ordersAdded, stats.ordersCancelled, stats.ordersFilled + if whole then 1 else 0,
          stats.tradesExecuted + 1, stats.totalVolume + fill)
  }
}
