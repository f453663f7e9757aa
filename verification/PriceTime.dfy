/**
  A pure price-time-priority matcher over one side of an order book, the reference that the
  matching engine of hft_clean/src/order_book.cpp is compared with. One side is a map from prices
  to first-in-first-out queues; in priority order it is one sequence of resting orders.
*/
module PriceTime {
  import opened Common
  import opened Int64

  datatype Side = BUY | SELL {
    function Opposite(): Side { if this == BUY then SELL else BUY }
  }

  // A resting order and a fill, as seen from outside.
  datatype Rest = Rest(id: nat, price: int, qty: int)

  type Depth = map<int, seq<Rest>>

  // ---------------------------------------------------------------- the best price of a ladder

  // p is at least as good for the owner of that side as q: bids best first are high, asks low
  predicate NotWorse(side: Side, p: int, q: int) {
    if side == BUY then p >= q else p <= q
  }

  lemma NonEmpty(s: set<int>)
    requires s != {}
    ensures exists x :: x in s
  {
    assert (forall x :: x !in s) ==> s == {};
  }

  lemma HasBest(s: set<int>, side: Side)
    requires s != {}
    ensures exists m :: m in s && forall x :: x in s ==> NotWorse(side, m, x)
  {
    if side == BUY {
      HasMax(s);
      var m :| m in s && forall x :: x in s ==> x <= m;
      assert forall x :: x in s ==> NotWorse(side, m, x);
    } else {
      var n := set x | x in s :: -x;
      NonEmpty(s);
      var some :| some in s;
      assert -some in n;
      HasMax(n);
      var m :| m in n && forall y :: y in n ==> y <= m;
      var x0 :| x0 in s && m == -x0;
      forall x | x in s ensures NotWorse(side, x0, x) { assert -x in n; }
    }
  }

  // the key that begin() of the ordered map points to
  function Best(s: set<int>, side: Side): (m: int)
    requires s != {}
    ensures m in s && forall x :: x in s ==> NotWorse(side, m, x)
  {
    HasBest(s, side);
    var m :| m in s && forall x :: x in s ==> NotWorse(side, m, x);
    m
  }

  // ---------------------------------------------------------------- priority order

  // All orders of a side, best price first and oldest first at each price.
  ghost function Flat(d: Depth, side: Side): seq<Rest>
    decreases |d|
  {
    if d.Keys == {} then [] else
      var p := Best(d.Keys, side);
      assert |(d - {p}).Keys| < |d.Keys| by { SmallerMap(d, p); }
      d[p] + Flat(d - {p}, side)
  }

  lemma SmallerMap<T>(m: map<int, T>, p: int)
    requires p in m
    ensures |m - {p}| < |m|
  {
    assert (m - {p}).Keys == m.Keys - {p};
    assert |m.Keys - {p}| < |m.Keys|;
  }

  // ---------------------------------------------------------------- the matcher

  predicate Accepts(taker: Side, limit: int, price: int) {
    if taker == BUY then price <= limit else price >= limit
  }

  datatype Matched = Matched(fills: seq<Rest>, book: seq<Rest>, left: int)

  // An order of quantity want meets the queue of the opposite side.
  ghost function Match(q: seq<Rest>, taker: Side, limit: int, want: int): Matched
    decreases |q|
  {
    if want <= 0 || q == [] || !Accepts(taker, limit, q[0].price) then
      Matched([], q, want)
    else if want < q[0].qty then
      Matched([q[0].(qty := want)], [q[0].(qty := q[0].qty - want)] + q[1..], 0)
    else
      var m := Match(q[1..], taker, limit, want - q[0].qty);
      m.(fills := [q[0]] + m.fills)
  }

  ghost function Total(q: seq<Rest>): int {
    if q == [] then 0 else q[0].qty + Total(q[1..])
  }

  // the quantity resting at prices the taker accepts
  ghost function Available(q: seq<Rest>, taker: Side, limit: int): int {
    if q == [] then 0 else
      (if Accepts(taker, limit, q[0].price) then q[0].qty else 0) + Available(q[1..], taker, limit)
  }

  ghost predicate AllPositive(q: seq<Rest>) {
    forall i :: 0 <= i < |q| ==> q[i].qty > 0
  }

  // prices never get better along the queue
  ghost predicate Prioritized(q: seq<Rest>, side: Side) {
    forall i, j :: 0 <= i < j < |q| ==> NotWorse(side, q[i].price, q[j].price)
  }

  // ---------------------------------------------------------------- what matching means

  // The fills run along the front of the queue, at the makers' prices and within the limit;
  // every fill but the last takes all its maker has.
  lemma {:induction false} FillsFollowPriority(q: seq<Rest>, taker: Side, limit: int, want: int)
    requires AllPositive(q)
    ensures var m := Match(q, taker, limit, want);
      && |m.fills| <= |q|
      && (forall i :: 0 <= i < |m.fills| ==>
            && m.fills[i].id == q[i].id && m.fills[i].price == q[i].price
            && 0 < m.fills[i].qty <= q[i].qty && Accepts(taker, limit, q[i].price))
      && (forall i :: 0 <= i < |m.fills| - 1 ==> m.fills[i].qty == q[i].qty)
    decreases |q|
  {
    if want > 0 && q != [] && Accepts(taker, limit, q[0].price) && want >= q[0].qty {
      FillsFollowPriority(q[1..], taker, limit, want - q[0].qty);
    }
  }

  // What is left of the queue: the makers behind the fills, untouched, after at most one maker
  // that was filled in part.
  lemma {:induction false} BookAfterFills(q: seq<Rest>, taker: Side, limit: int, want: int)
    requires AllPositive(q)
    ensures var m := Match(q, taker, limit, want); var n := |m.fills|;
      && n <= |q|
      && (if n > 0 && m.fills[n - 1].qty < q[n - 1].qty
          then m.book == [q[n - 1].(qty := q[n - 1].qty - m.fills[n - 1].qty)] + q[n..] && m.left == 0
          else m.book == q[n..])
      && AllPositive(m.book)
    decreases |q|
  {
    if want > 0 && q != [] && Accepts(taker, limit, q[0].price) && want >= q[0].qty {
      BookAfterFills(q[1..], taker, limit, want - q[0].qty);
      var (m, t) := (Match(q[1..], taker, limit, want - q[0].qty), Match(q, taker, limit, want));
      var n := |t.fills|;
      assert t.fills == [q[0]] + m.fills && t.book == m.book && t.left == m.left;
      assert q[1..][n - 1..] == q[n..];
      if n > 1 { assert t.fills[n - 1] == m.fills[n - 2] && q[1..][n - 2] == q[n - 1]; }
    }
  }

  // Nothing is lost: the order's quantity is fills plus rest, and the queue loses just the fills.
  lemma {:induction false} MatchConserves(q: seq<Rest>, taker: Side, limit: int, want: int)
    requires AllPositive(q)
    ensures var m := Match(q, taker, limit, want);
      && Total(m.fills) + m.left == want
      && Total(m.book) == Total(q) - Total(m.fills)
      && (want >= 0 ==> 0 <= m.left <= want)
    decreases |q|
  {
    if want > 0 && q != [] && Accepts(taker, limit, q[0].price) {
      if want < q[0].qty {
        var m := Match(q, taker, limit, want);
        assert m.book[1..] == q[1..] && m.fills[1..] == [];
      } else {
        MatchConserves(q[1..], taker, limit, want - q[0].qty);
        var m, t := Match(q[1..], taker, limit, want - q[0].qty), Match(q, taker, limit, want);
        assert t.fills[1..] == m.fills;
      }
    }
  }

  // An order that is not filled completely has met everything acceptable.
  lemma {:induction false} RestOnlyIfExhausted(q: seq<Rest>, taker: Side, limit: int, want: int)
    requires AllPositive(q)
    ensures var m := Match(q, taker, limit, want);
      m.left > 0 && m.book != [] ==> !Accepts(taker, limit, m.book[0].price)
    decreases |q|
  {
    if want > 0 && q != [] && Accepts(taker, limit, q[0].price) && want >= q[0].qty {
      RestOnlyIfExhausted(q[1..], taker, limit, want - q[0].qty);
    }
  }

  // An order can be filled completely exactly when enough rests at acceptable prices.
  lemma {:induction false} FillableIffAvailable(q: seq<Rest>, taker: Side, limit: int, want: int)
    requires AllPositive(q) && Prioritized(q, taker.Opposite()) && want >= 0
    ensures 0 <= Available(q, taker, limit)
    ensures Match(q, taker, limit, want).left == 0 <==> want <= Available(q, taker, limit)
    decreases |q|
  {
    if q != [] {
      if Accepts(taker, limit, q[0].price) {
        FillableIffAvailable(q[1..], taker, limit, if want >= q[0].qty then want - q[0].qty else 0);
      } else {
        NoneAvailable(q, taker, limit);
      }
    }
  }

  lemma {:induction false} NoneAvailable(q: seq<Rest>, taker: Side, limit: int)
    requires Prioritized(q, taker.Opposite()) && q != [] && !Accepts(taker, limit, q[0].price)
    ensures Available(q, taker, limit) == 0
    decreases |q|
  {
    if |q| > 1 {
      assert NotWorse(taker.Opposite(), q[0].price, q[1].price);
      NoneAvailable(q[1..], taker, limit);
    }
  }

  // ---------------------------------------------------------------- facts about Flat

  ghost predicate DepthOk(d: Depth) {
    forall p :: p in d ==> d[p] != [] && forall i :: 0 <= i < |d[p]| ==> d[p][i].price == p && d[p][i].qty > 0
  }

  lemma {:induction false} FlatFacts(d: Depth, side: Side)
    requires DepthOk(d)
    ensures AllPositive(Flat(d, side)) && Prioritized(Flat(d, side), side)
    ensures forall i :: 0 <= i < |Flat(d, side)| ==> Flat(d, side)[i].price in d
    ensures Flat(d, side) == [] <==> d.Keys == {}
    decreases |d|
  {
    if d.Keys != {} {
      var p := Best(d.Keys, side);
      SmallerMap(d, p);
      FlatFacts(d - {p}, side);
      var f, g := Flat(d, side), Flat(d - {p}, side);
      assert f == d[p] + g;
      assert forall i :: |d[p]| <= i < |f| ==> f[i] == g[i - |d[p]|] && f[i].price in d;
    }
  }

  // each level's queue by increasing id
  ghost predicate OldestFirst(d: Depth) {
    forall p, i, j {:trigger d[p][i], d[p][j]} :: p in d && 0 <= i < j < |d[p]| ==> d[p][i].id < d[p][j].id
  }

  // In the whole queue, orders at the same price stand by increasing id.
  lemma {:induction false} FlatOldestFirst(d: Depth, side: Side)
    requires DepthOk(d) && OldestFirst(d)
    ensures var q := Flat(d, side); forall i, j :: 0 <= i < j < |q| && q[i].price == q[j].price ==> q[i].id < q[j].id
    decreases |d|
  {
    if d.Keys != {} {
      var p := Best(d.Keys, side);
      SmallerMap(d, p);
      FlatOldestFirst(d - {p}, side);
      FlatFacts(d - {p}, side);
      var (f, g, n) := (Flat(d, side), Flat(d - {p}, side), |d[p]|);
      assert f == d[p] + g;
      forall i, j | 0 <= i < j < |f| && f[i].price == f[j].price
        ensures f[i].id < f[j].id
      {
        if j < n {
          assert d[p][i].id < d[p][j].id;
        } else {
          assert g[j - n].price in d - {p};
          if i >= n { assert g[i - n].id < g[j - n].id; }
        }
      }
    }
  }

  // The head of the best level is the head of the whole queue.
  lemma PopHead(d: Depth, side: Side, p: int)
    requires p in d && p == Best(d.Keys, side) && d[p] != []
    ensures var d' := if |d[p]| == 1 then d - {p} else d[p := d[p][1..]];
      Flat(d, side) == [d[p][0]] + Flat(d', side)
  {
    var d' := if |d[p]| == 1 then d - {p} else d[p := d[p][1..]];
    if |d[p]| > 1 {
      assert d'.Keys == d.Keys;
      assert d' - {p} == d - {p};
      assert d[p] == [d[p][0]] + d[p][1..];
    }
  }

  lemma ReplaceHead(d: Depth, side: Side, p: int, r: Rest)
    requires p in d && p == Best(d.Keys, side) && d[p] != []
    ensures Flat(d[p := [r] + d[p][1..]], side) == [r] + Flat(d, side)[1..]
    ensures Flat(d, side) != []
  {
    var d' := d[p := [r] + d[p][1..]];
    assert d'.Keys == d.Keys;
    assert d' - {p} == d - {p};
  }

  // ---------------------------------------------------------------- what is available, level by level

  lemma {:induction false} AvailableConcat(a: seq<Rest>, b: seq<Rest>, taker: Side, limit: int)
    ensures Available(a + b, taker, limit) == Available(a, taker, limit) + Available(b, taker, limit)
  {
    if a == [] {
      assert a + b == b;
    } else {
      assert (a + b)[1..] == a[1..] + b;
      AvailableConcat(a[1..], b, taker, limit);
    }
  }

  lemma {:induction false} AvailableAtOnePrice(q: seq<Rest>, p: int, taker: Side, limit: int)
    requires forall i :: 0 <= i < |q| ==> q[i].price == p
    ensures Available(q, taker, limit) == if Accepts(taker, limit, p) then Total(q) else 0
  {
    if q != [] { AvailableAtOnePrice(q[1..], p, taker, limit); }
  }

  // The best level adds its total, or nothing and then all the others add nothing either.
  lemma AvailableBestFirst(d: Depth, taker: Side, limit: int)
    requires DepthOk(d) && d.Keys != {}
    ensures var opp := taker.Opposite(); var p := Best(d.Keys, opp);
      Available(Flat(d, opp), taker, limit) ==
        if Accepts(taker, limit, p) then Total(d[p]) + Available(Flat(d - {p}, opp), taker, limit) else 0
    ensures 0 <= Available(Flat(d, taker.Opposite()), taker, limit)
  {
    var opp := taker.Opposite();
    var p := Best(d.Keys, opp);
    SmallerMap(d, p);
    AvailableConcat(d[p], Flat(d - {p}, opp), taker, limit);
    AvailableAtOnePrice(d[p], p, taker, limit);
    FlatFacts(d, opp);
    FillableIffAvailable(Flat(d, opp), taker, limit, 0);
    PopHead(d, opp, p);
    if !Accepts(taker, limit, p) {
      NoneAvailable(Flat(d, opp), taker, limit);
    }
  }

  lemma AvailableNonNegative(d: Depth, taker: Side, limit: int)
    requires DepthOk(d)
    ensures 0 <= Available(Flat(d, taker.Opposite()), taker, limit)
  {
    FlatFacts(d, taker.Opposite());
    FillableIffAvailable(Flat(d, taker.Opposite()), taker, limit, 0);
  }

  // When enough is available, and only then, the fills add up to the whole quantity.
  lemma AllOrNothing(q: seq<Rest>, taker: Side, limit: int, want: int)
    requires AllPositive(q) && Prioritized(q, taker.Opposite()) && want >= 0
    ensures want <= Available(q, taker, limit) <==> Total(Match(q, taker, limit, want).fills) == want
  {
    FillableIffAvailable(q, taker, limit, want);
    MatchConserves(q, taker, limit, want);
  }

  // ---------------------------------------------------------------- fill or kill in 64 bits

  // can_fill_fok: the totals of the levels are added up, best level first, until there is enough
  // or the limit is passed. Totals and their sum are 64-bit numbers.
  ghost predicate FillOrKill(d: Depth, taker: Side, limit: int, want: int, avail: int)
    decreases |d|
  {
    if d.Keys == {} then avail >= want else
      var p := Best(d.Keys, taker.Opposite());
      assert |(d - {p}).Keys| < |d.Keys| by { SmallerMap(d, p); }
      if !Accepts(taker, limit, p) then avail >= want else
        var sum := Wrap(avail + Wrap(Total(d[p])));
        sum >= want || FillOrKill(d - {p}, taker, limit, want, sum)
  }

  // the exact sum at which the loop would stop
  ghost function Reached(d: Depth, taker: Side, limit: int, want: int, avail: int): int
    decreases |d|
  {
    if d.Keys == {} then avail else
      var p := Best(d.Keys, taker.Opposite());
      assert |(d - {p}).Keys| < |d.Keys| by { SmallerMap(d, p); }
      if !Accepts(taker, limit, p) then avail else
        var sum := avail + Total(d[p]);
        if sum >= want then sum else Reached(d - {p}, taker, limit, want, sum)
  }

  lemma {:induction false} TotalPositive(q: seq<Rest>)
    requires AllPositive(q)
    ensures Total(q) >= 0
  {
    if q != [] { TotalPositive(q[1..]); }
  }

  lemma LevelTotal(d: Depth, p: int)
    requires DepthOk(d) && p in d
    ensures Total(d[p]) >= 0
  {
    TotalPositive(d[p]);
  }

  // The exact sum reaches the wanted quantity exactly when so much is available.
  lemma {:induction false} ReachesIffAvailable(d: Depth, taker: Side, limit: int, want: int, avail: int)
    requires DepthOk(d) && avail < want
    ensures var r := Reached(d, taker, limit, want, avail);
      && avail <= r <= avail + Available(Flat(d, taker.Opposite()), taker, limit)
      && (r >= want <==> avail + Available(Flat(d, taker.Opposite()), taker, limit) >= want)
    decreases |d|
  {
    hide Flat, Available, Total, DepthOk, Accepts;
    if d.Keys == {} {
      NothingAvailable(d, taker, limit);
    } else {
      var p := Best(d.Keys, taker.Opposite());
      NextLevel(d, taker, limit);
      if Accepts(taker, limit, p) && avail + Total(d[p]) < want {
        ReachesIffAvailable(d - {p}, taker, limit, want, avail + Total(d[p]));
      }
    }
  }

  lemma NothingAvailable(d: Depth, taker: Side, limit: int)
    requires d.Keys == {}
    ensures Available(Flat(d, taker.Opposite()), taker, limit) == 0
  {
  }

  lemma WrapIsNotAbove(n: int)
    requires n >= INT64_MIN
    ensures Wrap(n) <= n
  {
    if n > INT64_MAX { WrapIsBelow(n); }
  }

  // The sum that the loop holds is the exact one, cut off.
  lemma SumIsWrapped(exact: int, total: int)
    ensures Wrap(Wrap(exact) + Wrap(total)) == Wrap(exact + total)
  {
    WrapAdd(total, Wrap(exact));
    WrapAdd(exact, total);
  }

  // the best level, and the rest of the side
  lemma NextLevel(d: Depth, taker: Side, limit: int)
    requires DepthOk(d) && d.Keys != {}
    ensures var opp := taker.Opposite(); var p := Best(d.Keys, opp);
      && |d - {p}| < |d| && DepthOk(d - {p}) && Total(d[p]) >= 0
      && Available(Flat(d, opp), taker, limit) ==
           (if Accepts(taker, limit, p) then Total(d[p]) + Available(Flat(d - {p}, opp), taker, limit) else 0)
      && 0 <= Available(Flat(d - {p}, opp), taker, limit)
  {
    var p := Best(d.Keys, taker.Opposite());
    SmallerMap(d, p);
    AvailableBestFirst(d, taker, limit);
    AvailableNonNegative(d - {p}, taker, limit);
    LevelTotal(d, p);
  }

  // Whatever overflows, an order that passes the check finds its quantity: a sum that does not
  // fit only looks smaller.
  lemma {:induction false} FillOrKillIsSafe(d: Depth, taker: Side, limit: int, want: int, exact: int)
    requires DepthOk(d) && 0 <= exact && FillOrKill(d, taker, limit, want, Wrap(exact))
    ensures want <= exact + Available(Flat(d, taker.Opposite()), taker, limit)
    decreases |d|
  {
    hide Flat, Available, Total, Wrap, DepthOk, Accepts;
    WrapIsNotAbove(exact);
    if d.Keys == {} {
      NothingAvailable(d, taker, limit);
    } else {
      var p := Best(d.Keys, taker.Opposite());
      NextLevel(d, taker, limit);
      if Accepts(taker, limit, p) {
        var sum := exact + Total(d[p]);
        SumIsWrapped(exact, Total(d[p]));
        WrapIsNotAbove(sum);
        if Wrap(sum) < want { FillOrKillIsSafe(d - {p}, taker, limit, want, sum); }
      }
    }
  }

  // A sum that has passed the range stays negative up to 2^64.
  lemma {:induction false} NeverAgain(d: Depth, taker: Side, limit: int, want: int, exact: int)
    requires DepthOk(d) && want > 0 && exact > INT64_MAX
    requires exact + Available(Flat(d, taker.Opposite()), taker, limit) < TWO_TO_64
    ensures !FillOrKill(d, taker, limit, want, Wrap(exact))
    decreases |d|
  {
    hide Flat, Available, Total, Wrap, DepthOk, Accepts;
    AvailableNonNegative(d, taker, limit);
    WrapIsBelow(exact);
    if d.Keys != {} {
      var p := Best(d.Keys, taker.Opposite());
      NextLevel(d, taker, limit);
      if Accepts(taker, limit, p) {
        var sum := exact + Total(d[p]);
        SumIsWrapped(exact, Total(d[p]));
        WrapIsBelow(sum);
        NeverAgain(d - {p}, taker, limit, want, sum);
      }
    }
  }

  // one round of the loop, cut off
  lemma CutRound(d: Depth, taker: Side, limit: int, want: int, avail: int)
    requires d.Keys != {}
    ensures var p := Best(d.Keys, taker.Opposite()); var cut := Wrap(avail + Wrap(Total(d[p])));
      FillOrKill(d, taker, limit, want, avail) ==
        if Accepts(taker, limit, p) then cut >= want || FillOrKill(d - {p}, taker, limit, want, cut) else avail >= want
  {
    hide Flat, Available, Total, Wrap, DepthOk, Accepts;
  }

  // ... and exact
  lemma ExactRound(d: Depth, taker: Side, limit: int, want: int, avail: int)
    requires d.Keys != {}
    ensures var p := Best(d.Keys, taker.Opposite()); var sum := avail + Total(d[p]);
      Reached(d, taker, limit, want, avail) ==
        if !Accepts(taker, limit, p) then avail else if sum >= want then sum
          else Reached(d - {p}, taker, limit, want, sum)
  {
    hide Flat, Available, Total, Wrap, DepthOk, Accepts;
  }

  lemma NoLevel(d: Depth, taker: Side, limit: int, want: int, avail: int)
    requires d.Keys == {}
    ensures FillOrKill(d, taker, limit, want, avail) == (avail >= want)
      && Reached(d, taker, limit, want, avail) == avail
  {
  }

  // The check passes exactly when enough is available and the sum that shows it is a 64-bit
  // number, on any book with less than 2^64 at acceptable prices.
  lemma {:induction false} FillOrKillIff(d: Depth, taker: Side, limit: int, want: int, exact: int)
    requires DepthOk(d) && 0 <= exact < want <= INT64_MAX
    requires || Reached(d, taker, limit, want, exact) <= INT64_MAX
             || exact + Available(Flat(d, taker.Opposite()), taker, limit) < TWO_TO_64
    ensures FillOrKill(d, taker, limit, want, exact) <==> want <= Reached(d, taker, limit, want, exact) <= INT64_MAX
    decreases |d|
  {
    hide Flat, Available, Total, Wrap, DepthOk, Accepts, FillOrKill, Reached;
    if d.Keys == {} {
      NoLevel(d, taker, limit, want, exact);
    } else {
      CutRound(d, taker, limit, want, exact);
      ExactRound(d, taker, limit, want, exact);
      var p := Best(d.Keys, taker.Opposite());
      NextLevel(d, taker, limit);
      if Accepts(taker, limit, p) {
        var sum := exact + Total(d[p]);
        SumIsWrapped(exact, Total(d[p]));
        if sum < want {
          FillOrKillIff(d - {p}, taker, limit, want, sum);
        } else if sum > INT64_MAX {
          WrapIsBelow(sum);
          NeverAgain(d - {p}, taker, limit, want, sum);
        }
      }
    }
  }

  // the exact sums the loop goes through if nothing stops it before the limit
  ghost function Sums(d: Depth, taker: Side, limit: int, exact: int): seq<int>
    decreases |d|
  {
    if d.Keys == {} then [] else
      var p := Best(d.Keys, taker.Opposite());
      assert |(d - {p}).Keys| < |d.Keys| by { SmallerMap(d, p); }
      if !Accepts(taker, limit, p) then [] else
        [exact + Total(d[p])] + Sums(d - {p}, taker, limit, exact + Total(d[p]))
  }

  lemma SumsRound(d: Depth, taker: Side, limit: int, exact: int)
    requires d.Keys != {}
    ensures var p := Best(d.Keys, taker.Opposite()); var sum := exact + Total(d[p]);
      Sums(d, taker, limit, exact) == if Accepts(taker, limit, p) then [sum] + Sums(d - {p}, taker, limit, sum) else []
  {
    hide Flat, Available, Total, Wrap, DepthOk, Accepts;
  }

  // one of the sums, cut off to 64 bits, is large enough
  ghost predicate SomeReaches(sums: seq<int>, want: int) {
    exists i {:trigger sums[i]} :: 0 <= i < |sums| && Wrap(sums[i]) >= want
  }

  lemma ReachesFirst(sum: int, rest: seq<int>, want: int)
    ensures SomeReaches([sum] + rest, want) <==> Wrap(sum) >= want || SomeReaches(rest, want)
  {
    hide Wrap;
    var sums := [sum] + rest;
    if SomeReaches(sums, want) {
      var i :| 0 <= i < |sums| && Wrap(sums[i]) >= want;
      if i > 0 { assert rest[i - 1] == sums[i]; }
    }
    if Wrap(sum) >= want { assert sums[0] == sum; }
    if SomeReaches(rest, want) {
      var i :| 0 <= i < |rest| && Wrap(rest[i]) >= want;
      assert sums[i + 1] == rest[i];
    }
  }

  // On every book: an order passes exactly when one of the exact sums over the acceptable levels,
  // cut off to 64 bits, is large enough.
  lemma {:induction false} FillOrKillExactly(d: Depth, taker: Side, limit: int, want: int, exact: int)
    requires Wrap(exact) < want
    ensures FillOrKill(d, taker, limit, want, Wrap(exact)) <==> SomeReaches(Sums(d, taker, limit, exact), want)
    decreases |d|
  {
    hide Flat, Available, Total, Wrap, DepthOk, Accepts, FillOrKill, Sums, SomeReaches;
    if d.Keys == {} {
      NoSums(d, taker, limit, want, exact);
    } else {
      var p := Best(d.Keys, taker.Opposite());
      SmallerMap(d, p);
      CutRound(d, taker, limit, want, Wrap(exact));
      SumsRound(d, taker, limit, exact);
      var sum := exact + Total(d[p]);
      SumIsWrapped(exact, Total(d[p]));
      if Accepts(taker, limit, p) {
        ReachesFirst(sum, Sums(d - {p}, taker, limit, sum), want);
        if Wrap(sum) < want { FillOrKillExactly(d - {p}, taker, limit, want, sum); }
      } else {
        NothingReaches(want);
      }
    }
  }

  lemma NoSums(d: Depth, taker: Side, limit: int, want: int, exact: int)
    requires d.Keys == {} && Wrap(exact) < want
    ensures !FillOrKill(d, taker, limit, want, Wrap(exact)) && !SomeReaches(Sums(d, taker, limit, exact), want)
  {
  }

  lemma NothingReaches(want: int)
    ensures !SomeReaches([], want)
  {
  }

  // The check refuses an order, although enough is available, exactly when every one of the sums,
  // cut off to 64 bits, is too small; and it never accepts one that cannot be filled.
  lemma WronglyRefusedExactly(d: Depth, taker: Side, limit: int, want: int)
    requires DepthOk(d) && want > 0
    ensures FillOrKill(d, taker, limit, want, 0) <==> SomeReaches(Sums(d, taker, limit, 0), want)
    ensures SomeReaches(Sums(d, taker, limit, 0), want) ==> want <= Available(Flat(d, taker.Opposite()), taker, limit)
  {
    hide Flat, Available, FillOrKill, Sums, SomeReaches, DepthOk;
    assert Wrap(0) == 0;
    FillOrKillExactly(d, taker, limit, want, 0);
    if FillOrKill(d, taker, limit, want, 0) { FillOrKillIsSafe(d, taker, limit, want, 0); }
  }

  // A third such order makes the total come out as 2^63 - 3, and the check passes again.
  lemma ThirdLargeOrderShows(p: int)
    requires p > 0
    ensures var d: Depth := map[p := [Rest(1, p, INT64_MAX), Rest(2, p, INT64_MAX), Rest(3, p, INT64_MAX)]];
      DepthOk(d) && Wrap(Total(d[p])) == INT64_MAX - 2 && FillOrKill(d, BUY, p, 1, 0)
  {
    var q := [Rest(1, p, INT64_MAX), Rest(2, p, INT64_MAX), Rest(3, p, INT64_MAX)];
    var d: Depth := map[p := q];
    assert q[1..] == [q[1], q[2]] && q[1..][1..] == [q[2]] && q[1..][1..][1..] == [];
    assert Total([q[2]]) == INT64_MAX && Total([q[1], q[2]]) == 2 * INT64_MAX
      && Total(q) == INT64_MAX + Total([q[1], q[2]]);
    assert Wrap(3 * INT64_MAX) == INT64_MAX - 2 by { WrapIsBelow(3 * INT64_MAX); }
    assert d.Keys == {p};
    CutRound(d, BUY, p, 1, 0);
  }

  // A book whose opposite side fits 64 bits: an order passes exactly when enough is available.
  lemma FillOrKillIffAvailable(d: Depth, taker: Side, limit: int, want: int)
    requires DepthOk(d) && 0 < want <= INT64_MAX
    requires Available(Flat(d, taker.Opposite()), taker, limit) <= INT64_MAX
    ensures FillOrKill(d, taker, limit, want, 0) <==> want <= Available(Flat(d, taker.Opposite()), taker, limit)
  {
    ReachesIffAvailable(d, taker, limit, want, 0);
    FillOrKillIff(d, taker, limit, want, 0);
  }

  // Two orders of the largest quantity at one price hide each other: not even one unit is found.
  lemma TwoLargeOrdersHide(p: int)
    requires p > 0
    ensures var d: Depth := map[p := [Rest(1, p, INT64_MAX), Rest(2, p, INT64_MAX)]];
      DepthOk(d) && 1 <= Available(Flat(d, SELL), BUY, p) && !FillOrKill(d, BUY, p, 1, 0)
  {
    var q := [Rest(1, p, INT64_MAX), Rest(2, p, INT64_MAX)];
    var d: Depth := map[p := q];
    assert q[1..] == [q[1]] && q[1..][1..] == [];
    assert Total([q[1]]) == INT64_MAX && Total(q) == INT64_MAX + Total([q[1]]);
    assert d.Keys == {p} && (d - {p}).Keys == {};
    AvailableBestFirst(d, BUY, p);
    NothingAvailable(d - {p}, BUY, p);
    WrapIsBelow(2 * INT64_MAX);
  }

  // ---------------------------------------------------------------- where an order stands in the queue

  ghost function RemoveFrom<K(!new), T>(d: map<K, seq<T>>, k: K, i: nat): map<K, seq<T>>
    requires k in d && i < |d[k]|
  {
    if |d[k]| == 1 then d - {k} else d[k := RemoveAt(d[k], i)]
  }

  ghost function AddTo<K(!new), T>(d: map<K, seq<T>>, k: K, x: T): map<K, seq<T>> {
    d[k := if k in d then d[k] + [x] else [x]]
  }

  // r stands behind every order that is at least as good and before every order that is worse.
  ghost predicate Inserted(q: seq<Rest>, q': seq<Rest>, side: Side, r: Rest, j: nat) {
    && j <= |q| && q' == q[..j] + [r] + q[j..]
    && (forall i :: 0 <= i < j ==> NotWorse(side, q[i].price, r.price))
    && (forall i :: j <= i < |q| ==> !NotWorse(side, q[i].price, r.price))
  }

  lemma BestIs(s: set<int>, side: Side, p: int)
    requires p in s && forall x :: x in s ==> NotWorse(side, p, x)
    ensures Best(s, side) == p
  {
    var b := Best(s, side);
    assert NotWorse(side, p, b) && NotWorse(side, b, p);
  }

  lemma FlatFrom(d: Depth, side: Side, p: int)
    requires p in d && forall x :: x in d ==> NotWorse(side, p, x)
    ensures Flat(d, side) == d[p] + Flat(d - {p}, side)
  {
    BestIs(d.Keys, side, p);
  }

  lemma InsertedBehind(head: seq<Rest>, q: seq<Rest>, q': seq<Rest>, side: Side, r: Rest, j: nat)
    requires Inserted(q, q', side, r, j)
    requires forall i :: 0 <= i < |head| ==> NotWorse(side, head[i].price, r.price)
    ensures Inserted(head + q, head + q', side, r, |head| + j)
  {
    assert (head + q)[..|head| + j] == head + q[..j];
    assert (head + q)[|head| + j..] == q[j..];
    assert head + q' == head + q[..j] + [r] + q[j..];
  }

  // Behind the best level every price is strictly worse.
  lemma StrictlyWorse(d: Depth, side: Side, p: int)
    requires DepthOk(d) && forall x :: x in d ==> NotWorse(side, p, x)
    ensures var q := Flat(d - {p}, side); forall i :: 0 <= i < |q| ==> !NotWorse(side, q[i].price, p)
  {
    FlatFacts(d - {p}, side);
    var q := Flat(d - {p}, side);
    forall i | 0 <= i < |q|
      ensures !NotWorse(side, q[i].price, p)
    {
      assert q[i].price in d - {p};
      assert q[i].price in d && q[i].price != p;
    }
  }

  lemma RestAtBest(d: Depth, side: Side, r: Rest)
    requires DepthOk(d) && forall x :: x in d ==> NotWorse(side, r.price, x)
    ensures exists j: nat :: Inserted(Flat(d, side), Flat(AddTo(d, r.price, r), side), side, r, j)
  {
    var p := r.price;
    var d' := AddTo(d, p, r);
    var tail := Flat(d - {p}, side);
    StrictlyWorse(d, side, p);
    assert [r] + tail == tail[..0] + [r] + tail[0..];
    assert Inserted(tail, [r] + tail, side, r, 0);
    assert d' - {p} == d - {p};
    FlatFrom(d', side, p);
    if p in d {
      FlatFrom(d, side, p);
      InsertedBehind(d[p], tail, [r] + tail, side, r, 0);
      assert Flat(d', side) == d[p] + ([r] + tail);
    } else {
      assert d - {p} == d;
    }
  }

  lemma {:induction false} RestPosition(d: Depth, side: Side, r: Rest)
    requires DepthOk(d)
    ensures exists j: nat :: Inserted(Flat(d, side), Flat(AddTo(d, r.price, r), side), side, r, j)
    decreases |d|
  {
    if forall x :: x in d ==> NotWorse(side, r.price, x) {
      RestAtBest(d, side, r);
    } else {
      var b := Best(d.Keys, side);
      SmallerMap(d, b);
      RestPosition(d - {b}, side, r);
      RestBehind(d, side, r, b);
    }
  }

  lemma RestBehind(d: Depth, side: Side, r: Rest, b: int)
    requires DepthOk(d) && b in d && (forall x :: x in d ==> NotWorse(side, b, x)) && !NotWorse(side, r.price, b)
    requires exists j: nat :: Inserted(Flat(d - {b}, side), Flat(AddTo(d - {b}, r.price, r), side), side, r, j)
    ensures exists j: nat :: Inserted(Flat(d, side), Flat(AddTo(d, r.price, r), side), side, r, j)
  {
    var d', t, t' := AddTo(d, r.price, r), Flat(d - {b}, side), Flat(AddTo(d - {b}, r.price, r), side);
    var j: nat :| Inserted(t, t', side, r, j);
    InsertedBehind(d[b], t, t', side, r, j);
    FlatFrom(d, side, b);
    assert AddTo(d - {b}, r.price, r) == d' - {b};
    FlatFrom(d', side, b);
  }

  // Order j of the queue is x and leaves it.
  ghost predicate Removed(q: seq<Rest>, q': seq<Rest>, x: Rest, j: nat) {
    j < |q| && q[j] == x && q' == RemoveAt(q, j)
  }

  lemma RemovedBehind(head: seq<Rest>, q: seq<Rest>, q': seq<Rest>, x: Rest, j: nat)
    requires Removed(q, q', x, j)
    ensures Removed(head + q, head + q', x, |head| + j)
  {
    assert RemoveAt(head + q, |head| + j) == head + RemoveAt(q, j);
  }

  lemma RemoveAtBest(d: Depth, side: Side, p: int, i: nat)
    requires DepthOk(d) && p in d && i < |d[p]| && forall x :: x in d ==> NotWorse(side, p, x)
    ensures Removed(Flat(d, side), Flat(RemoveFrom(d, p, i), side), d[p][i], i)
  {
    var d', t := RemoveFrom(d, p, i), Flat(d - {p}, side);
    FlatFrom(d, side, p);
    assert RemoveAt(d[p] + t, i) == RemoveAt(d[p], i) + t;
    if |d[p]| > 1 {
      assert d' - {p} == d - {p};
      FlatFrom(d', side, p);
    }
  }

  // Taking order i of a level out takes exactly that order out of the whole queue.
  lemma {:induction false} RemovePosition(d: Depth, side: Side, p: int, i: nat)
    requires DepthOk(d) && p in d && i < |d[p]|
    ensures exists j: nat :: Removed(Flat(d, side), Flat(RemoveFrom(d, p, i), side), d[p][i], j)
    decreases |d|
  {
    if forall x :: x in d ==> NotWorse(side, p, x) {
      RemoveAtBest(d, side, p, i);
    } else {
      var b := Best(d.Keys, side);
      SmallerMap(d, b);
      RemovePosition(d - {b}, side, p, i);
      RemoveBehind(d, side, p, i, b);
    }
  }

  lemma RemoveBehind(d: Depth, side: Side, p: int, i: nat, b: int)
    requires DepthOk(d) && p in d && i < |d[p]| && b in d && b != p && forall x :: x in d ==> NotWorse(side, b, x)
    requires exists j: nat :: Removed(Flat(d - {b}, side), Flat(RemoveFrom(d - {b}, p, i), side), d[p][i], j)
    ensures exists j: nat :: Removed(Flat(d, side), Flat(RemoveFrom(d, p, i), side), d[p][i], j)
  {
    var d', t, t' := RemoveFrom(d, p, i), Flat(d - {b}, side), Flat(RemoveFrom(d - {b}, p, i), side);
    var j: nat :| Removed(t, t', d[p][i], j);
    RemovedBehind(d[b], t, t', d[p][i], j);
    FlatFrom(d, side, b);
    assert RemoveFrom(d - {b}, p, i) == d' - {b};
    FlatFrom(d', side, b);
  }
}
