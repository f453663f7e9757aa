/**
  What the deletion steps of the B+ tree (storageTree.hpp:162-369) do to a store: removing a key
  from a leaf, moving the boundary between two neighbouring siblings (the four borrow cases),
  and merging two neighbouring siblings. Each keeps the shape and the stored map.
*/
module BPlusDelete {
  import opened Common
  import opened BPlusStore
  import opened BPlusInsert

  // ---------------------------------------------------------------- delete_from_leaf

  ghost function Removed<N, V>(r: Rec<N, V>, pos: nat): Rec<N, V>
    requires pos < |r.keys| == |r.values|
  {
    r.(keys := RemoveAt(r.keys, pos), values := RemoveAt(r.values, pos))
  }

  lemma RemovedHolds<N, V>(r: Rec<N, V>, pos: nat, m: map<int, V>)
    requires Sorted(r.keys) && pos < |r.keys| && Holds(r, m)
    ensures Holds(Removed(r, pos), m - {r.keys[pos]})
  {
    var q, m' := Removed(r, pos), m - {r.keys[pos]};
    forall i | 0 <= i < |q.keys|
      ensures q.keys[i] in m' && m'[q.keys[i]] == q.values[i]
    {
      var j := if i < pos then i else i + 1;
      assert q.keys[i] == r.keys[j] && q.values[i] == r.values[j];
    }
    forall k | k in m' && Within(q.lo, q.hi, k)
      ensures k in q.keys
    {
      var j :| 0 <= j < |r.keys| && r.keys[j] == k;
      assert q.keys[if j < pos then j else j - 1] == k;
    }
  }

  lemma RemoveFromLeaf<N, V>(s: Store<N, V>, root: N, leaf: N, pos: nat, m: map<int, V>)
    requires Shape(s, root, Done) && Stores(s, m)
    requires leaf in s && s[leaf].isLeaf && pos < |s[leaf].keys| == |s[leaf].values|
    ensures Shape(s[leaf := Removed(s[leaf], pos)], root, Done)
    ensures Stores(s[leaf := Removed(s[leaf], pos)], m - {s[leaf].keys[pos]})
  {
    var r, q := s[leaf], Removed(s[leaf], pos);
    assert NodeOk(s, root, Done, leaf);
    assert RecOk(q) by {
      assert forall i :: 0 <= i < |q.keys| ==> q.keys[i] == r.keys[if i < pos then i else i + 1];
    }
    LeafChangeShape(s, s[leaf := q], root, leaf);
    RemovedHolds(r, pos, m);
    assert Within(r.lo, r.hi, r.keys[pos]);
    LeafChangeStores(s, s[leaf := q], root, leaf, m, m - {r.keys[pos]});
  }

  // ---------------------------------------------------------------- neighbours

  ghost predicate Siblings<N, V>(s: Store<N, V>, p: N, a: N, b: N, pos: nat) {
    && p in s && !s[p].isLeaf && pos < |s[p].keys| && |s[p].children| == |s[p].keys| + 1
    && s[p].children[pos] == a && s[p].children[pos + 1] == b
  }

  lemma SiblingFacts<N, V>(s: Store<N, V>, root: N, p: N, a: N, b: N, pos: nat)
    requires Shape(s, root, Done) && Siblings(s, p, a, b, pos)
    ensures a in s && b in s && a != b && p != a && p != b && a != root && b != root
    ensures s[a].parent == Some(p) && s[b].parent == Some(p)
    ensures s[a].ht + 1 == s[p].ht && s[b].ht == s[a].ht && s[a].isLeaf == s[b].isLeaf
    ensures s[a].hi == Some(s[p].keys[pos]) && s[b].lo == Some(s[p].keys[pos])
    ensures RecOk(s[a]) && RecOk(s[b]) && RecOk(s[p])
    ensures SepLo(s[p], pos) == s[a].lo && SepHi(s[p], pos + 1) == s[b].hi
  {
    assert NodeOk(s, root, Done, p) && NodeOk(s, root, Done, root);
    assert ChildOk(s, Done, p, pos) && ChildOk(s, Done, p, pos + 1);
    assert NodeOk(s, root, Done, a) && NodeOk(s, root, Done, b);
  }

  lemma ParentHeight<N, V>(s: Store<N, V>, root: N, n: N)
    requires Shape(s, root, Done) && n in s && n != root
    ensures s[n].parent.Some? && s[n].parent.value in s && s[s[n].parent.value].ht == s[n].ht + 1
  {
    assert NodeOk(s, root, Done, n);
    var q := s[n].parent.value;
    assert NodeOk(s, root, Done, q);
    var i :| 0 <= i < |s[q].children| && s[q].children[i] == n;
    assert ChildOk(s, Done, q, i);
  }

  // Along the leaf chain a leaf is followed exactly by the leaf that starts where it ends.
  lemma NextUnique<N, V>(s: Store<N, V>, root: N, a: N, b: N, x: N)
    requires Shape(s, root, Done)
    requires a in s && b in s && s[a].isLeaf && s[b].isLeaf && s[a].hi.Some? && s[a].hi == s[b].lo
    requires x in s && s[x].isLeaf
    ensures s[a].next == Some(b)
    ensures s[x].next == Some(b) ==> x == a
    ensures s[x].next == Some(a) ==> x != b
  {
    assert NodeOk(s, root, Done, a) && NodeOk(s, root, Done, b) && NodeOk(s, root, Done, x);
    var m := s[a].next.value;
    assert NodeOk(s, root, Done, m);
    if m != b { LevelDisjoint(s, root, m, b); }
    if s[x].next == Some(b) && x != a { LevelDisjoint(s, root, x, a); }
  }

  // ---------------------------------------------------------------- borrowing

  // The boundary between siblings a and b moves to sep; their children are dealt out anew.
  ghost predicate Resplit<N, V>(s: Store<N, V>, s': Store<N, V>, p: N, a: N, b: N, pos: nat, sep: int) {
    && Siblings(s, p, a, b, pos)
    && s'.Keys == s.Keys && a in s && b in s
    && s'[p] == s[p].(keys := s[p].keys[pos := sep])
    && s'[a] == s[a].(keys := s'[a].keys, values := s'[a].values, children := s'[a].children, hi := Some(sep))
    && s'[b] == s[b].(keys := s'[b].keys, values := s'[b].values, children := s'[b].children, lo := Some(sep))
    && RecOk(s'[a]) && RecOk(s'[b])
    && (forall x :: x in s && x != a && x != b && x != p ==>
          && s'[x] == s[x].(parent := s'[x].parent)
          && (s[x].parent != Some(a) && s[x].parent != Some(b) ==> s'[x].parent == s[x].parent)
          && (s[x].parent == Some(a) || s[x].parent == Some(b) ==>
                x in s'[a].children || x in s'[b].children))
    && KidsOk(s', Done, a) && KidsOk(s', Done, b)
  }

  lemma ResplitParentRec<N, V>(r: Rec<N, V>, lo: Option<int>, hi: Option<int>, pos: nat, sep: int)
    requires RecOk(r) && !r.isLeaf && pos < |r.keys|
    requires SepLo(r, pos) == lo && SepHi(r, pos + 1) == hi
    requires Proper(lo, Some(sep)) && Proper(Some(sep), hi)
    ensures RecOk(r.(keys := r.keys[pos := sep]))
  {
    var q := r.(keys := r.keys[pos := sep]);
    assert Within(r.lo, r.hi, r.keys[pos]);
    assert pos > 0 ==> r.keys[pos - 1] < sep;
    assert pos + 1 < |r.keys| ==> sep < r.keys[pos + 1];
    forall i | 0 <= i < |q.keys|
      ensures Within(q.lo, q.hi, q.keys[i])
    {
      assert Within(r.lo, r.hi, r.keys[i]);
      if pos > 0 { assert Within(r.lo, r.hi, r.keys[pos - 1]); }
      if pos + 1 < |r.keys| { assert Within(r.lo, r.hi, r.keys[pos + 1]); }
    }
    forall i, j | 0 <= i < j < |q.keys|
      ensures q.keys[i] < q.keys[j]
    {
      assert i == pos && j > pos + 1 ==> r.keys[pos + 1] < r.keys[j];
      assert j == pos && i + 1 < pos ==> r.keys[i] < r.keys[pos - 1];
    }
  }

  lemma ResplitParentKid<N, V>(s: Store<N, V>, s': Store<N, V>, p: N, a: N, b: N, pos: nat, sep: int, i: nat)
    requires Siblings(s, p, a, b, pos) && a in s && b in s && a != b && p != a && p != b && RecOk(s[p])
    requires s'.Keys == s.Keys && s'[p] == s[p].(keys := s[p].keys[pos := sep])
    requires s'[a].lo == s[a].lo && s'[a].hi == Some(sep) && s'[a].parent == s[a].parent && s'[a].ht == s[a].ht
    requires s'[b].lo == Some(sep) && s'[b].hi == s[b].hi && s'[b].parent == s[b].parent && s'[b].ht == s[b].ht
    requires ChildOk(s, Done, p, pos) && ChildOk(s, Done, p, pos + 1)
    requires i < |s[p].children| && ChildOk(s, Done, p, i)
    requires var c := s[p].children[i]; c != a && c != b ==> c != p && s'[c] == s[c]
    requires Proper(s[a].lo, s[a].hi) && Proper(s[b].lo, s[b].hi)
    ensures ChildOk(s', Done, p, i)
  {
    if i < pos {
      SepMonotone(s[p], i, pos); SepMonotone(s[p], i, pos + 1);
    } else if i > pos + 1 {
      SepMonotone(s[p], pos, i); SepMonotone(s[p], pos + 1, i);
    }
  }

  lemma ResplitParent<N, V>(s: Store<N, V>, s': Store<N, V>, root: N, p: N, a: N, b: N, pos: nat, sep: int)
    requires Shape(s, root, Done) && Resplit(s, s', p, a, b, pos, sep)
    ensures RecOk(s'[p]) && KidsOk(s', Done, p)
  {
    SiblingFacts(s, root, p, a, b, pos);
    ResplitParentRec(s[p], s[a].lo, s[b].hi, pos, sep);
    assert NodeOk(s, root, Done, p);
    forall i | 0 <= i < |s'[p].children|
      ensures ChildOk(s', Done, p, i)
    {
      assert ChildOk(s, Done, p, i) && ChildOk(s, Done, p, pos) && ChildOk(s, Done, p, pos + 1);
      ResplitParentKid(s, s', p, a, b, pos, sep, i);
    }
  }

  lemma ResplitOther<N, V>(s: Store<N, V>, s': Store<N, V>, root: N, p: N, a: N, b: N, pos: nat, sep: int, n: N)
    requires Shape(s, root, Done) && Resplit(s, s', p, a, b, pos, sep)
    requires n in s && n != a && n != b && n != p && !s[n].isLeaf
    ensures RecOk(s'[n]) && KidsOk(s', Done, n)
  {
    SiblingFacts(s, root, p, a, b, pos);
    assert NodeOk(s, root, Done, n);
    forall i | 0 <= i < |s'[n].children|
      ensures ChildOk(s', Done, n, i)
    {
      assert ChildOk(s, Done, n, i);
      var c := s[n].children[i];
      assert c != a && c != b;
      assert s'[c].parent == s[c].parent;
    }
  }

  lemma ResplitUp<N, V>(s: Store<N, V>, s': Store<N, V>, root: N, p: N, a: N, b: N, pos: nat, sep: int, n: N)
    requires Shape(s, root, Done) && Resplit(s, s', p, a, b, pos, sep)
    requires n in s
    ensures UpOk(s', root, Done, n)
  {
    SiblingFacts(s, root, p, a, b, pos);
    assert NodeOk(s, root, Done, n) && NodeOk(s, root, Done, root);
    if n == a {
      assert s'[p].children[pos] == a;
    } else if n == b {
      assert s'[p].children[pos + 1] == b;
    } else if n == p {
      if p != root { ParentHeight(s, root, p); }
    } else if s[n].parent == Some(a) || s[n].parent == Some(b) {
      if n in s'[a].children {
        var i :| 0 <= i < |s'[a].children| && s'[a].children[i] == n;
        assert ChildOk(s', Done, a, i);
      } else {
        var i :| 0 <= i < |s'[b].children| && s'[b].children[i] == n;
        assert ChildOk(s', Done, b, i);
      }
    }
  }

  lemma ResplitNext<N, V>(s: Store<N, V>, s': Store<N, V>, root: N, p: N, a: N, b: N, pos: nat, sep: int, n: N)
    requires Shape(s, root, Done) && Resplit(s, s', p, a, b, pos, sep)
    requires n in s
    ensures NextOk(s', n)
  {
    SiblingFacts(s, root, p, a, b, pos);
    assert NodeOk(s, root, Done, n);
    if s[n].isLeaf && s[a].isLeaf { NextUnique(s, root, a, b, n); }
  }

  lemma ResplitShape<N, V>(s: Store<N, V>, s': Store<N, V>, root: N, p: N, a: N, b: N, pos: nat, sep: int)
    requires Shape(s, root, Done) && Resplit(s, s', p, a, b, pos, sep)
    ensures Shape(s', root, Done)
  {
    SiblingFacts(s, root, p, a, b, pos);
    ResplitParent(s, s', root, p, a, b, pos, sep);
    forall n | n in s'
      ensures NodeOk(s', root, Done, n)
    {
      assert NodeOk(s, root, Done, n);
      if n != a && n != b && n != p {
        if !s[n].isLeaf { ResplitOther(s, s', root, p, a, b, pos, sep, n); }
      }
      ResplitUp(s, s', root, p, a, b, pos, sep, n);
      ResplitNext(s, s', root, p, a, b, pos, sep, n);
    }
  }

  // ---------------------------------------------------------------- merging

  // Siblings a and b become one node a; b leaves the store, its children move to a.
  ghost predicate Merge<N, V>(s: Store<N, V>, s': Store<N, V>, p: N, a: N, b: N, pos: nat) {
    && Siblings(s, p, a, b, pos)
    && a in s && b in s
    && s'.Keys == s.Keys - {b}
    && p in s' && a in s'
    && s'[p] == s[p].(keys := RemoveAt(s[p].keys, pos), children := RemoveAt(s[p].children, pos + 1))
    && s'[a] == s[a].(keys := s'[a].keys, values := s'[a].values, children := s'[a].children,
                      next := s[b].next, hi := s[b].hi)
    && RecOk(s'[a])
    && (forall x :: x in s && x != a && x != b && x != p ==>
          s'[x] == if s[x].parent == Some(b) then s[x].(parent := Some(a)) else s[x])
    && (forall x :: x in s && (s[x].parent == Some(a) || s[x].parent == Some(b)) ==> x in s'[a].children)
    && KidsOk(s', Done, a)
  }

  lemma MergeParentRec<N, V>(r: Rec<N, V>, pos: nat)
    requires RecOk(r) && !r.isLeaf && pos < |r.keys|
    ensures RecOk(r.(keys := RemoveAt(r.keys, pos), children := RemoveAt(r.children, pos + 1)))
  {
    var q := r.(keys := RemoveAt(r.keys, pos), children := RemoveAt(r.children, pos + 1));
    forall i | 0 <= i < |q.keys|
      ensures q.keys[i] == r.keys[if i < pos then i else i + 1]
      ensures Within(q.lo, q.hi, q.keys[i])
    {
      assert Within(r.lo, r.hi, r.keys[if i < pos then i else i + 1]);
    }
    if |q.keys| > 0 { assert q.keys[0] >= r.keys[0]; }
  }

  lemma MergeParentKid<N, V>(s: Store<N, V>, s': Store<N, V>, root: N, p: N, a: N, b: N, pos: nat, i: nat)
    requires Shape(s, root, Done) && Merge(s, s', p, a, b, pos)
    requires i < |s'[p].children| && |s'[p].children| == |s'[p].keys| + 1
    ensures ChildOk(s', Done, p, i)
  {
    SiblingFacts(s, root, p, a, b, pos);
    assert NodeOk(s, root, Done, p);
    var j := if i <= pos then i else i + 1;
    assert ChildOk(s, Done, p, j);
    MergedSeparators(s[p], pos, i);
    if i != pos {
      assert s[p].children[j] != a && s[p].children[j] != b by {
        assert ChildOk(s, Done, p, pos) && ChildOk(s, Done, p, pos + 1);
        if j < pos {
          SepMonotone(s[p], j, pos); SepMonotone(s[p], j, pos + 1);
        } else {
          SepMonotone(s[p], pos, j); SepMonotone(s[p], pos + 1, j);
        }
      }
    }
  }

  lemma MergedSeparators<N, V>(r: Rec<N, V>, pos: nat, i: nat)
    requires |r.children| == |r.keys| + 1 && pos < |r.keys| && i < |r.keys|
    ensures var q := r.(keys := RemoveAt(r.keys, pos), children := RemoveAt(r.children, pos + 1));
      var j := if i <= pos then i else i + 1;
      && q.children[i] == r.children[j]
      && SepLo(q, i) == SepLo(r, j)
      && SepHi(q, i) == SepHi(r, if i == pos then pos + 1 else j)
  {
  }

  lemma MergeParent<N, V>(s: Store<N, V>, s': Store<N, V>, root: N, p: N, a: N, b: N, pos: nat)
    requires Shape(s, root, Done) && Merge(s, s', p, a, b, pos)
    ensures RecOk(s'[p]) && KidsOk(s', Done, p)
  {
    SiblingFacts(s, root, p, a, b, pos);
    MergeParentRec(s[p], pos);
    forall i | 0 <= i < |s'[p].children|
      ensures ChildOk(s', Done, p, i)
    {
      MergeParentKid(s, s', root, p, a, b, pos, i);
    }
  }

  lemma MergeOther<N, V>(s: Store<N, V>, s': Store<N, V>, root: N, p: N, a: N, b: N, pos: nat, n: N)
    requires Shape(s, root, Done) && Merge(s, s', p, a, b, pos)
    requires n in s && n != a && n != b && n != p && !s[n].isLeaf
    ensures RecOk(s'[n]) && KidsOk(s', Done, n)
  {
    SiblingFacts(s, root, p, a, b, pos);
    assert NodeOk(s, root, Done, n);
    forall i | 0 <= i < |s'[n].children|
      ensures ChildOk(s', Done, n, i)
    {
      assert ChildOk(s, Done, n, i);
      assert s[n].children[i] != a && s[n].children[i] != b;
    }
  }

  lemma MergedChildren<N>(kids: seq<N>, pos: nat, n: N)
    requires pos + 1 < |kids| && n in kids && n != kids[pos + 1]
    ensures n in RemoveAt(kids, pos + 1)
  {
    var i :| 0 <= i < |kids| && kids[i] == n;
    assert RemoveAt(kids, pos + 1)[if i <= pos then i else i - 1] == n;
  }

  lemma MergeUp<N, V>(s: Store<N, V>, s': Store<N, V>, root: N, p: N, a: N, b: N, pos: nat, n: N)
    requires Shape(s, root, Done) && Merge(s, s', p, a, b, pos)
    requires n in s && n != b
    ensures root in s' && UpOk(s', root, Done, n)
  {
    hide RecOk;
    SiblingFacts(s, root, p, a, b, pos);
    assert s'[root].ht == s[root].ht;
    assert UpOk(s, root, Done, n) && UpOk(s, root, Done, root) by {
      assert NodeOk(s, root, Done, n) && NodeOk(s, root, Done, root);
    }
    if n != root {
      ParentHeight(s, root, n);
      if s[n].parent == Some(p) {
        MergedChildren(s[p].children, pos, n);
      }
    }
  }

  lemma MergeNext<N, V>(s: Store<N, V>, s': Store<N, V>, root: N, p: N, a: N, b: N, pos: nat, n: N)
    requires Shape(s, root, Done) && Merge(s, s', p, a, b, pos)
    requires n in s && n != b
    ensures NextOk(s', n)
  {
    SiblingFacts(s, root, p, a, b, pos);
    assert NodeOk(s, root, Done, n) && NodeOk(s, root, Done, b);
    if s[n].isLeaf && s[a].isLeaf {
      NextUnique(s, root, a, b, n);
      NextUnique(s, root, a, b, b);
    }
  }

  lemma MergeShape<N, V>(s: Store<N, V>, s': Store<N, V>, root: N, p: N, a: N, b: N, pos: nat)
    requires Shape(s, root, Done) && Merge(s, s', p, a, b, pos)
    ensures Shape(s', root, Done)
  {
    SiblingFacts(s, root, p, a, b, pos);
    MergeParent(s, s', root, p, a, b, pos);
    forall n | n in s'
      ensures NodeOk(s', root, Done, n)
    {
      assert NodeOk(s, root, Done, n);
      if n != a && n != p && !s[n].isLeaf { MergeOther(s, s', root, p, a, b, pos, n); }
      MergeUp(s, s', root, p, a, b, pos, n);
      MergeNext(s, s', root, p, a, b, pos, n);
    }
  }

  // An empty root hands over to its only child.
  lemma CollapseShape<N, V>(s: Store<N, V>, s': Store<N, V>, root: N, child: N)
    requires Shape(s, root, Done) && !s[root].isLeaf && s[root].keys == [] && s[root].children == [child]
    requires child in s && child != root && s' == (s - {root})[child := s[child].(parent := None)]
    ensures Shape(s', child, Done)
  {
    assert NodeOk(s, root, Done, root);
    assert ChildOk(s, Done, root, 0);
    assert NodeOk(s, root, Done, child);
    forall n | n in s'
      ensures NodeOk(s', child, Done, n)
    {
      assert NodeOk(s, root, Done, n);
      if n != child {
        ParentHeight(s, root, n);
        assert NodeOk(s, root, Done, s[n].parent.value);
      }
      assert KidsOk(s', Done, n) by {
        forall i | !s'[n].isLeaf && 0 <= i < |s'[n].children|
          ensures ChildOk(s', Done, n, i)
        {
          assert ChildOk(s, Done, n, i);
        }
      }
    }
  }
}
