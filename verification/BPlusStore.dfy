/**
  The pointer structure of the B+ tree (storageTree.hpp:22-50) as a value: a store maps every
  live node to a record of its fields. Three record fields have no counterpart in the program;
  they are what the program's pointers are supposed to mean:
    - ht: the distance of the node from the leaf level;
    - lo, hi: the half-open interval [lo, hi) of keys the node is responsible for.
  With them the whole shape of the tree is a condition on each node and its direct neighbours.
*/
module BPlusStore {
  import opened Common

  datatype Rec<N, V> = Rec(
    keys: seq<int>, values: seq<V>, children: seq<N>, isLeaf: bool,
    next: Option<N>, parent: Option<N>,
    ht: nat, lo: Option<int>, hi: Option<int>)

  type Store<!N, V> = map<N, Rec<N, V>>

  // A split whose new right half is not yet among its parent's children.
  datatype Pending<N> = Done | Split(left: N, right: N)

  // ---------------------------------------------------------------- intervals

  ghost predicate Within(lo: Option<int>, hi: Option<int>, k: int) {
    (lo.Some? ==> lo.value <= k) && (hi.Some? ==> k < hi.value)
  }

  ghost predicate Proper(lo: Option<int>, hi: Option<int>) {
    lo.Some? && hi.Some? ==> lo.value < hi.value
  }

  // every key of the interval ending at hi is below every key of the one starting at lo
  ghost predicate Below(hi: Option<int>, lo: Option<int>) {
    hi.Some? && lo.Some? && hi.value <= lo.value
  }

  ghost predicate Sorted(s: seq<int>) {
    forall i, j :: 0 <= i < j < |s| ==> s[i] < s[j]
  }

  // ---------------------------------------------------------------- shape

  // What a node's own fields must satisfy.
  ghost predicate RecOk<N, V>(r: Rec<N, V>) {
    && Sorted(r.keys)
    && Proper(r.lo, r.hi)
    && (forall i :: 0 <= i < |r.keys| ==> Within(r.lo, r.hi, r.keys[i]))
    && (r.isLeaf <==> r.ht == 0)
    && (if r.isLeaf then |r.values| == |r.keys| && r.children == []
        else |r.children| == |r.keys| + 1 && r.values == [] && r.next.None?
             && (r.lo.Some? && |r.keys| > 0 ==> r.lo.value < r.keys[0]))
  }

  ghost function SepLo<N, V>(r: Rec<N, V>, i: nat): Option<int>
    requires i <= |r.keys|
  {
    if i == 0 then r.lo else Some(r.keys[i - 1])
  }

  ghost function SepHi<N, V>(r: Rec<N, V>, i: nat): Option<int>
    requires i <= |r.keys|
  {
    if i == |r.keys| then r.hi else Some(r.keys[i])
  }

  // The upper end a parent sees: while a split is pending, the left half still stands for both.
  ghost function EffHi<N, V>(s: Store<N, V>, pend: Pending<N>, c: N): Option<int>
    requires c in s && (pend.Split? ==> pend.right in s)
  {
    if pend.Split? && c == pend.left then s[pend.right].hi else s[c].hi
  }

  // Child i of n points back to n, is one level lower and owns exactly its separator interval.
  ghost predicate ChildOk<N, V>(s: Store<N, V>, pend: Pending<N>, n: N, i: nat)
    requires n in s && (pend.Split? ==> pend.right in s)
    requires i < |s[n].children| && |s[n].children| == |s[n].keys| + 1
  {
    var c := s[n].children[i];
    && c in s
    && (pend.Split? ==> c != pend.right)
    && s[c].parent == Some(n)
    && s[c].ht + 1 == s[n].ht
    && s[c].lo == SepLo(s[n], i)
    && EffHi(s, pend, c) == SepHi(s[n], i)
  }

  ghost predicate KidsOk<N, V>(s: Store<N, V>, pend: Pending<N>, n: N)
    requires n in s && (pend.Split? ==> pend.right in s)
    requires RecOk(s[n])
  {
    !s[n].isLeaf ==> forall i {:trigger ChildOk(s, pend, n, i)} :: 0 <= i < |s[n].children| ==> ChildOk(s, pend, n, i)
  }

  // The root is alone on top; every other node is a child of its parent.
  ghost predicate UpOk<N, V>(s: Store<N, V>, root: N, pend: Pending<N>, n: N)
    requires n in s && root in s
  {
    && s[n].ht <= s[root].ht
    && (n == root ==> s[n].parent == None && s[n].lo == None)
    && ((pend.Split? && n == pend.right) || n == root
        || (&& s[n].ht < s[root].ht
            && s[n].parent.Some?
            && s[n].parent.value in s
            && !s[s[n].parent.value].isLeaf
            && n in s[s[n].parent.value].children))
  }

  // The leaf chain: the next leaf starts where this one ends.
  ghost predicate NextOk<N, V>(s: Store<N, V>, n: N)
    requires n in s
  {
    s[n].isLeaf ==>
      match s[n].next
      case None => s[n].hi == None
      case Some(m) => m in s && s[m].isLeaf && s[n].hi.Some? && s[m].lo == s[n].hi
  }

  ghost predicate PendOk<N, V>(s: Store<N, V>, root: N, pend: Pending<N>)
    requires root in s
  {
    match pend
    case Done => s[root].hi == None
    case Split(left, right) =>
      && left in s && right in s && left != right && right != root
      && s[left].ht == s[right].ht
      && s[left].parent == s[right].parent
      && s[left].hi.Some? && s[left].hi == s[right].lo
      && (left == root ==> s[right].hi == None)
      && (left != root ==> s[root].hi == None && s[left].ht < s[root].ht)
  }

  ghost predicate NodeOk<N, V>(s: Store<N, V>, root: N, pend: Pending<N>, n: N)
    requires n in s && root in s && (pend.Split? ==> pend.right in s)
  {
    RecOk(s[n]) && KidsOk(s, pend, n) && UpOk(s, root, pend, n) && NextOk(s, n)
  }

  ghost predicate Shape<N, V>(s: Store<N, V>, root: N, pend: Pending<N>) {
    && root in s
    && PendOk(s, root, pend)
    && forall n {:trigger NodeOk(s, root, pend, n)} :: n in s ==> NodeOk(s, root, pend, n)
  }

  // ---------------------------------------------------------------- occupancy

  ghost function MaxKeys(d: nat): int { 2 * d - 1 }
  ghost function MinKeys(d: nat): int { d - 1 }

  ghost predicate FullEnough<N, V>(s: Store<N, V>, root: N, d: nat, n: N)
    requires n in s && root in s
  {
    && |s[n].keys| <= MaxKeys(d)
    && (n != root ==> MinKeys(d) <= |s[n].keys|)
    && (n == root && !s[n].isLeaf ==> 1 <= |s[n].keys|)
  }

  // All nodes but those in exc hold an admissible number of keys.
  ghost predicate Occupied<N, V>(s: Store<N, V>, root: N, d: nat, exc: set<N>)
    requires root in s
  {
    forall n {:trigger FullEnough(s, root, d, n)} :: n in s && n !in exc ==> FullEnough(s, root, d, n)
  }

  // ---------------------------------------------------------------- contents

  // The leaf record r holds exactly the part of m that lies in its interval.
  ghost predicate Holds<N, V>(r: Rec<N, V>, m: map<int, V>) {
    && |r.keys| == |r.values|
    && (forall i :: 0 <= i < |r.keys| ==> r.keys[i] in m && m[r.keys[i]] == r.values[i])
    && (forall k :: k in m && Within(r.lo, r.hi, k) ==> k in r.keys)
  }

  // m is the finite map the leaves store.
  ghost predicate Stores<N, V>(s: Store<N, V>, m: map<int, V>) {
    forall n {:trigger Holds(s[n], m)} :: n in s && s[n].isLeaf ==> Holds(s[n], m)
  }

  // The store is well shaped and stores m; only the nodes of exc may be over- or underfull.
  ghost predicate Good<N, V>(s: Store<N, V>, root: N, d: nat, m: map<int, V>, exc: set<N>, pend: Pending<N>) {
    && 2 <= d
    && Shape(s, root, pend)
    && Occupied(s, root, d, exc)
    && Stores(s, m)
  }

  lemma GoodNode<N, V>(s: Store<N, V>, root: N, d: nat, m: map<int, V>, exc: set<N>, pend: Pending<N>, n: N)
    requires Good(s, root, d, m, exc, pend) && n in s
    ensures 2 <= d && root in s && Shape(s, root, pend) && NodeOk(s, root, pend, n)
    ensures n !in exc ==> FullEnough(s, root, d, n)
  {
  }

  // ---------------------------------------------------------------- global consequences

  lemma SepMonotone<N, V>(r: Rec<N, V>, i: nat, j: nat)
    requires RecOk(r) && i < j <= |r.keys|
    ensures Below(SepHi(r, i), SepLo(r, j))
  {
  }

  // Children own sub-intervals of their parent's interval.
  lemma ChildInterval<N, V>(r: Rec<N, V>, i: nat, k: int)
    requires RecOk(r) && i <= |r.keys|
    ensures Within(SepLo(r, i), SepHi(r, i), k) ==> Within(r.lo, r.hi, k)
  {
    if i < |r.keys| { assert Within(r.lo, r.hi, r.keys[i]); }
    if i > 0 { assert Within(r.lo, r.hi, r.keys[i - 1]); }
  }

  // Two different nodes on one level own disjoint intervals.
  lemma {:induction false} LevelDisjoint<N, V>(s: Store<N, V>, root: N, n: N, m: N)
    requires Shape(s, root, Done)
    requires n in s && m in s && n != m && s[n].ht == s[m].ht
    ensures Below(s[n].hi, s[m].lo) || Below(s[m].hi, s[n].lo)
    decreases s[root].ht - s[n].ht
  {
    assert NodeOk(s, root, Done, n) && NodeOk(s, root, Done, m);
    var p, q := s[n].parent.value, s[m].parent.value;
    assert NodeOk(s, root, Done, p) && NodeOk(s, root, Done, q);
    var i :| 0 <= i < |s[p].children| && s[p].children[i] == n;
    var j :| 0 <= j < |s[q].children| && s[q].children[j] == m;
    assert ChildOk(s, Done, p, i) && ChildOk(s, Done, q, j);
    if p == q {
      if i < j { SepMonotone(s[p], i, j); } else { SepMonotone(s[p], j, i); }
    } else {
      LevelDisjoint(s, root, p, q);
      assert i < |s[p].keys| ==> Within(s[p].lo, s[p].hi, s[p].keys[i]);
      assert i > 0 ==> Within(s[p].lo, s[p].hi, s[p].keys[i - 1]);
      assert j < |s[q].keys| ==> Within(s[q].lo, s[q].hi, s[q].keys[j]);
      assert j > 0 ==> Within(s[q].lo, s[q].hi, s[q].keys[j - 1]);
    }
  }
}
