/**
  What the insertion steps of the B+ tree (storageTree.hpp:67-160) do to a store, and that each
  of them keeps the shape and the stored map.
*/
module BPlusInsert {
  import opened Common
  import opened BPlusStore

  function InsertAt<T>(s: seq<T>, i: nat, x: T): seq<T>
    requires i <= |s|
  {
    s[..i] + [x] + s[i..]
  }

  // ---------------------------------------------------------------- changing one leaf

  // Changing only the keys and values of a leaf, within its interval, keeps the shape.
  lemma LeafChangeShape<N, V>(s: Store<N, V>, s': Store<N, V>, root: N, leaf: N)
    requires Shape(s, root, Done) && leaf in s && leaf in s'
    requires s' == s[leaf := s[leaf].(keys := s'[leaf].keys, values := s'[leaf].values)]
    requires s[leaf].isLeaf && RecOk(s'[leaf])
    ensures Shape(s', root, Done)
  {
    forall n | n in s'
      ensures NodeOk(s', root, Done, n)
    {
      assert NodeOk(s, root, Done, n);
      assert KidsOk(s', Done, n) by {
        forall i | !s'[n].isLeaf && 0 <= i < |s'[n].children|
          ensures ChildOk(s', Done, n, i)
        {
          assert ChildOk(s, Done, n, i);
        }
      }
    }
  }

  // If the leaf holds its part of m', and m' differs from m only inside the leaf's interval,
  // the whole store holds m'.
  lemma LeafChangeStores<N, V>(s: Store<N, V>, s': Store<N, V>, root: N, leaf: N, m: map<int, V>, m': map<int, V>)
    requires Shape(s, root, Done) && Stores(s, m) && leaf in s && leaf in s'
    requires s' == s[leaf := s[leaf].(keys := s'[leaf].keys, values := s'[leaf].values)]
    requires s[leaf].isLeaf && Holds(s'[leaf], m')
    requires forall k :: !Within(s[leaf].lo, s[leaf].hi, k) ==> (k in m <==> k in m')
    requires forall k :: !Within(s[leaf].lo, s[leaf].hi, k) && k in m ==> m[k] == m'[k]
    ensures Stores(s', m')
  {
    forall n | n in s' && s'[n].isLeaf
      ensures Holds(s'[n], m')
    {
      if n != leaf {
        assert NodeOk(s, root, Done, n) && NodeOk(s, root, Done, leaf);
        LevelDisjoint(s, root, n, leaf);
        assert Holds(s[n], m);
        forall i | 0 <= i < |s[n].keys|
          ensures s[n].keys[i] in m' && m'[s[n].keys[i]] == s[n].values[i]
        {
          assert Within(s[n].lo, s[n].hi, s[n].keys[i]);
        }
      }
    }
  }

  // ---------------------------------------------------------------- insert_into_leaf

  ghost function Added<N, V>(r: Rec<N, V>, pos: nat, key: int, value: V): Rec<N, V>
    requires pos <= |r.keys| == |r.values|
  {
    r.(keys := InsertAt(r.keys, pos, key), values := InsertAt(r.values, pos, value))
  }

  ghost predicate IsLowerBound(keys: seq<int>, pos: nat, key: int) {
    && pos <= |keys|
    && (forall j :: 0 <= j < pos ==> keys[j] < key)
    && (forall j :: pos <= j < |keys| ==> key <= keys[j])
  }

  lemma AddedIsSorted(keys: seq<int>, pos: nat, key: int)
    requires Sorted(keys) && IsLowerBound(keys, pos, key) && key !in keys
    ensures Sorted(InsertAt(keys, pos, key))
  {
    var t := InsertAt(keys, pos, key);
    forall i, j | 0 <= i < j < |t|
      ensures t[i] < t[j]
    {
      if j > pos { assert t[j] == keys[j - 1]; }
      if i > pos { assert t[i] == keys[i - 1]; }
    }
  }

  lemma AddedHolds<N, V>(r: Rec<N, V>, pos: nat, key: int, value: V, m: map<int, V>)
    requires Sorted(r.keys) && IsLowerBound(r.keys, pos, key) && key !in r.keys
    requires Holds(r, m)
    ensures Holds(Added(r, pos, key, value), m[key := value])
  {
    var q, m' := Added(r, pos, key, value), m[key := value];
    forall i | 0 <= i < |q.keys|
      ensures q.keys[i] in m' && m'[q.keys[i]] == q.values[i]
    {
      if i < pos {
        assert q.keys[i] == r.keys[i] && q.values[i] == r.values[i];
      } else if i > pos {
        assert q.keys[i] == r.keys[i - 1] && q.values[i] == r.values[i - 1];
      }
    }
    forall k | k in m' && Within(q.lo, q.hi, k)
      ensures k in q.keys
    {
      if k == key {
        assert q.keys[pos] == k;
      } else {
        var j :| 0 <= j < |r.keys| && r.keys[j] == k;
        assert q.keys[if j < pos then j else j + 1] == k;
      }
    }
  }

  lemma AddToLeaf<N, V>(s: Store<N, V>, root: N, leaf: N, pos: nat, key: int, value: V, m: map<int, V>)
    requires Shape(s, root, Done) && Stores(s, m)
    requires leaf in s && s[leaf].isLeaf && Within(s[leaf].lo, s[leaf].hi, key)
    requires IsLowerBound(s[leaf].keys, pos, key) && key !in s[leaf].keys
    requires |s[leaf].keys| == |s[leaf].values|
    ensures Shape(s[leaf := Added(s[leaf], pos, key, value)], root, Done)
    ensures Stores(s[leaf := Added(s[leaf], pos, key, value)], m[key := value])
  {
    var q := Added(s[leaf], pos, key, value);
    assert NodeOk(s, root, Done, leaf);
    AddedIsSorted(s[leaf].keys, pos, key);
    assert RecOk(q) by {
      forall i | 0 <= i < |q.keys|
        ensures Within(q.lo, q.hi, q.keys[i])
      {
        if i > pos { assert q.keys[i] == s[leaf].keys[i - 1]; }
      }
    }
    LeafChangeShape(s, s[leaf := q], root, leaf);
    AddedHolds(s[leaf], pos, key, value, m);
    LeafChangeStores(s, s[leaf := q], root, leaf, m, m[key := value]);
  }

  // The key is already present: only its value changes.
  lemma OverwriteInLeaf<N, V>(s: Store<N, V>, root: N, leaf: N, pos: nat, value: V, m: map<int, V>)
    requires Shape(s, root, Done) && Stores(s, m)
    requires leaf in s && s[leaf].isLeaf && pos < |s[leaf].keys| == |s[leaf].values|
    ensures Shape(s[leaf := s[leaf].(values := s[leaf].values[pos := value])], root, Done)
    ensures Stores(s[leaf := s[leaf].(values := s[leaf].values[pos := value])], m[s[leaf].keys[pos] := value])
  {
    var q := s[leaf].(values := s[leaf].values[pos := value]);
    assert NodeOk(s, root, Done, leaf);
    assert Within(q.lo, q.hi, q.keys[pos]);
    LeafChangeShape(s, s[leaf := q], root, leaf);
    assert Holds(s[leaf], m);
    assert Holds(q, m[q.keys[pos] := value]) by {
      assert forall i :: 0 <= i < |q.keys| && i != pos ==> q.keys[i] != q.keys[pos];
    }
    LeafChangeStores(s, s[leaf := q], root, leaf, m, m[q.keys[pos] := value]);
  }

  // The leaf after insert_into_leaf: the value is overwritten or the pair is added.
  ghost function Put<N, V>(r: Rec<N, V>, pos: nat, key: int, value: V): Rec<N, V>
    requires pos <= |r.keys| == |r.values|
  {
    if pos < |r.keys| && r.keys[pos] == key then r.(values := r.values[pos := value]) else Added(r, pos, key, value)
  }

  lemma PutGood<N, V>(s: Store<N, V>, s': Store<N, V>, root: N, d: nat, m: map<int, V>, leaf: N, pos: nat, key: int,
                      value: V)
    requires Good(s, root, d, m, {}, Done)
    requires leaf in s && s[leaf].isLeaf && Within(s[leaf].lo, s[leaf].hi, key)
    requires IsLowerBound(s[leaf].keys, pos, key) && |s[leaf].keys| == |s[leaf].values|
    requires s' == s[leaf := Put(s[leaf], pos, key, value)]
    ensures Good(s', root, d, m[key := value], {leaf}, Done)
    ensures |s[leaf].keys| <= |s'[leaf].keys| <= 2 * d
    ensures |s'[leaf].keys| < 2 * d ==> Good(s', root, d, m[key := value], {}, Done)
  {
    assert NodeOk(s, root, Done, leaf);
    if pos < |s[leaf].keys| && s[leaf].keys[pos] == key {
      OverwriteInLeaf(s, root, leaf, pos, value, m);
    } else {
      AddToLeaf(s, root, leaf, pos, key, value, m);
    }
    assert FullEnough(s, root, d, leaf);
    assert forall n :: n in s' && n != leaf ==> FullEnough(s, root, d, n);
  }

  // ---------------------------------------------------------------- split_leaf

  ghost function LeafLeft<N, V>(r: Rec<N, V>, mid: nat, right: N): Rec<N, V>
    requires mid < |r.keys| == |r.values|
  {
    r.(keys := r.keys[..mid], values := r.values[..mid], next := Some(right), hi := Some(r.keys[mid]))
  }

  ghost function LeafRight<N, V>(r: Rec<N, V>, mid: nat): Rec<N, V>
    requires mid < |r.keys| == |r.values|
  {
    Rec(r.keys[mid..], r.values[mid..], [], true, r.next, r.parent, 0, Some(r.keys[mid]), r.hi)
  }

  lemma SplitLeafRecs<N, V>(r: Rec<N, V>, mid: nat, right: N)
    requires RecOk(r) && r.isLeaf && 0 < mid < |r.keys|
    ensures RecOk(LeafLeft(r, mid, right)) && RecOk(LeafRight(r, mid))
  {
    assert Within(r.lo, r.hi, r.keys[mid]) && Within(r.lo, r.hi, r.keys[0]) && r.keys[0] < r.keys[mid];
    var q := LeafRight(r, mid);
    forall i | 0 <= i < |q.keys|
      ensures Within(q.lo, q.hi, q.keys[i])
    {
      assert q.keys[i] == r.keys[mid + i];
      assert Within(r.lo, r.hi, r.keys[mid + i]);
    }
    var p := LeafLeft(r, mid, right);
    forall i | 0 <= i < |p.keys|
      ensures Within(p.lo, p.hi, p.keys[i])
    {
      assert Within(r.lo, r.hi, r.keys[i]);
    }
  }

  ghost predicate IsLeafSplit<N, V>(s: Store<N, V>, s': Store<N, V>, root: N, leaf: N, right: N, mid: nat) {
    && Shape(s, root, Done) && leaf in s && s[leaf].isLeaf && right !in s
    && 0 < mid < |s[leaf].keys| == |s[leaf].values|
    && s' == s[leaf := LeafLeft(s[leaf], mid, right)][right := LeafRight(s[leaf], mid)]
  }

  lemma SplitLeafKids<N, V>(s: Store<N, V>, s': Store<N, V>, root: N, leaf: N, right: N, mid: nat, n: N)
    requires IsLeafSplit(s, s', root, leaf, right, mid)
    requires n in s && !s[n].isLeaf
    ensures RecOk(s'[n]) && KidsOk(s', Split(leaf, right), n)
  {
    assert NodeOk(s, root, Done, n);
    assert s'[n] == s[n];
    forall i | 0 <= i < |s'[n].children|
      ensures ChildOk(s', Split(leaf, right), n, i)
    {
      assert ChildOk(s, Done, n, i);
    }
  }

  lemma SplitLeafShape<N, V>(s: Store<N, V>, s': Store<N, V>, root: N, leaf: N, right: N, mid: nat)
    requires IsLeafSplit(s, s', root, leaf, right, mid)
    ensures Shape(s', root, Split(leaf, right))
  {
    var pend := Split(leaf, right);
    assert NodeOk(s, root, Done, leaf) && NodeOk(s, root, Done, root);
    SplitLeafRecs(s[leaf], mid, right);
    forall n | n in s'
      ensures NodeOk(s', root, pend, n)
    {
      if n == right {
      } else {
        assert NodeOk(s, root, Done, n);
        if !s[n].isLeaf { SplitLeafKids(s, s', root, leaf, right, mid, n); }
        if n != leaf { assert s'[n] == s[n]; }
        assert UpOk(s', root, pend, n);
      }
    }
  }

  lemma SplitLeafHolds<N, V>(r: Rec<N, V>, mid: nat, right: N, m: map<int, V>)
    requires RecOk(r) && r.isLeaf && 0 < mid < |r.keys| && Holds(r, m)
    ensures Holds(LeafLeft(r, mid, right), m) && Holds(LeafRight(r, mid), m)
  {
    var p, q := LeafLeft(r, mid, right), LeafRight(r, mid);
    assert Within(r.lo, r.hi, r.keys[mid]);
    forall k | k in m && Within(r.lo, r.hi, k)
      ensures Within(p.lo, p.hi, k) ==> k in p.keys
      ensures Within(q.lo, q.hi, k) ==> k in q.keys
    {
      var j :| 0 <= j < |r.keys| && r.keys[j] == k;
      if j < mid {
        assert p.keys[j] == k;
      } else {
        assert q.keys[j - mid] == k;
      }
    }
    forall i | 0 <= i < |q.keys|
      ensures q.keys[i] in m && m[q.keys[i]] == q.values[i]
    {
      assert q.keys[i] == r.keys[mid + i] && q.values[i] == r.values[mid + i];
    }
    forall i | 0 <= i < |p.keys|
      ensures p.keys[i] in m && m[p.keys[i]] == p.values[i]
    {
      assert p.keys[i] == r.keys[i] && p.values[i] == r.values[i];
    }
  }

  lemma SplitLeafStores<N, V>(s: Store<N, V>, s': Store<N, V>, root: N, leaf: N, right: N, mid: nat, m: map<int, V>)
    requires IsLeafSplit(s, s', root, leaf, right, mid)
    requires Stores(s, m)
    ensures Stores(s', m)
  {
    assert NodeOk(s, root, Done, leaf);
    SplitLeafHolds(s[leaf], mid, right, m);
  }

  // ---------------------------------------------------------------- insert_into_parent

  // A new root above the two halves of the old one.
  ghost predicate IsNewRoot<N, V>(s: Store<N, V>, s': Store<N, V>, root: N, right: N, top: N) {
    && Shape(s, root, Split(root, right)) && top !in s
    && s' == s[top := Rec([s[right].lo.value], [], [root, right], false, None, None, s[root].ht + 1, None, None)]
              [root := s[root].(parent := Some(top))]
              [right := s[right].(parent := Some(top))]
  }

  lemma NewRootKids<N, V>(s: Store<N, V>, s': Store<N, V>, root: N, right: N, top: N, n: N)
    requires IsNewRoot(s, s', root, right, top)
    requires n in s && !s[n].isLeaf
    ensures RecOk(s'[n]) && KidsOk(s', Done, n)
  {
    var pend := Split(root, right);
    assert NodeOk(s, root, pend, n);
    forall i | 0 <= i < |s'[n].children|
      ensures ChildOk(s', Done, n, i)
    {
      assert ChildOk(s, pend, n, i);
      assert s'[n].children[i] != root by { assert s[root].ht >= s[n].ht; }
    }
  }

  lemma NewRootShape<N, V>(s: Store<N, V>, s': Store<N, V>, root: N, right: N, top: N)
    requires IsNewRoot(s, s', root, right, top)
    ensures Shape(s', top, Done)
  {
    var pend := Split(root, right);
    assert NodeOk(s, root, pend, root) && NodeOk(s, root, pend, right);
    forall n | n in s'
      ensures NodeOk(s', top, Done, n)
    {
      if n == top {
        assert ChildOk(s', Done, top, 0);
        assert ChildOk(s', Done, top, 1);
      } else {
        assert NodeOk(s, root, pend, n);
        if !s[n].isLeaf { NewRootKids(s, s', root, right, top, n); }
        assert s'[top].children[0] == root && s'[top].children[1] == right;
        assert UpOk(s', top, Done, n);
      }
    }
  }

  // Where the separator goes: directly behind the left half.
  lemma SeparatorPosition<N, V>(s: Store<N, V>, root: N, left: N, right: N, pos: nat)
    requires Shape(s, root, Split(left, right)) && left != root
    requires var p := s[left].parent; p.Some? && p.value in s && IsLowerBound(s[p.value].keys, pos, s[right].lo.value)
    ensures var r := s[s[left].parent.value];
      pos < |r.children| && r.children[pos] == left && s[right].lo.value !in r.keys && s[left].parent != Some(right)
  {
    var pend := Split(left, right);
    assert NodeOk(s, root, pend, left) && NodeOk(s, root, pend, right);
    var p := s[left].parent.value;
    assert NodeOk(s, root, pend, p);
    var i :| 0 <= i < |s[p].children| && s[p].children[i] == left;
    assert ChildOk(s, pend, p, i);
  }

  ghost function InsertedRec<N, V>(r: Rec<N, V>, pos: nat, key: int, right: N): Rec<N, V>
    requires pos <= |r.keys| && pos < |r.children|
  {
    r.(keys := InsertAt(r.keys, pos, key), children := InsertAt(r.children, pos + 1, right))
  }

  ghost predicate IsParentInsert<N, V>(s: Store<N, V>, s': Store<N, V>, root: N, left: N, right: N, p: N, pos: nat) {
    && Shape(s, root, Split(left, right)) && left != root
    && s[left].parent == Some(p) && p in s
    && IsLowerBound(s[p].keys, pos, s[right].lo.value)
    && pos < |s[p].children|
    && s' == s[p := InsertedRec(s[p], pos, s[right].lo.value, right)][right := s[right].(parent := Some(p))]
  }

  lemma ParentInsertRec<N, V>(s: Store<N, V>, s': Store<N, V>, root: N, left: N, right: N, p: N, pos: nat)
    requires IsParentInsert(s, s', root, left, right, p, pos)
    ensures p != right && p != left && !s[p].isLeaf && RecOk(s'[p])
    ensures s[p].children[pos] == left && ChildOk(s, Split(left, right), p, pos)
  {
    var pend := Split(left, right);
    assert NodeOk(s, root, pend, left) && NodeOk(s, root, pend, right) && NodeOk(s, root, pend, p);
    SeparatorPosition(s, root, left, right, pos);
    var key := s[right].lo.value;
    AddedIsSorted(s[p].keys, pos, key);
    assert ChildOk(s, pend, p, pos);
    var q := s'[p];
    assert q.keys == InsertAt(s[p].keys, pos, key);
    ChildInterval(s[p], pos, key);
    forall i | 0 <= i < |q.keys|
      ensures Within(q.lo, q.hi, q.keys[i])
    {
      if i < pos {
        assert q.keys[i] == s[p].keys[i];
      } else if i > pos {
        assert q.keys[i] == s[p].keys[i - 1];
      }
    }
  }

  // Seen from the parent: the separators of the children before and behind the new one.
  lemma InsertedSeparators<N, V>(r: Rec<N, V>, pos: nat, key: int, right: N, i: nat)
    requires pos <= |r.keys| && |r.children| == |r.keys| + 1 && i <= |r.keys| && i != pos
    ensures var q := InsertedRec(r, pos, key, right); var j := if i < pos then i else i + 1;
      && q.children[j] == r.children[i]
      && SepLo(q, j) == SepLo(r, i) && SepHi(q, j) == SepHi(r, i)
  {
    var q := InsertedRec(r, pos, key, right);
    var j := if i < pos then i else i + 1;
    assert q.children[j] == r.children[i];
    if 0 < i { assert q.keys[j - 1] == r.keys[i - 1]; }
    if i < |r.keys| { assert q.keys[j] == r.keys[i]; }
  }

  lemma ParentInsertKid<N, V>(s: Store<N, V>, s': Store<N, V>, left: N, right: N, p: N, pos: nat, i: nat)
    requires p in s && right in s && left in s && pos <= |s[p].keys| && |s[p].children| == |s[p].keys| + 1
    requires p != left && p != right && left != right && s[right].lo.Some?
    requires s' == s[p := InsertedRec(s[p], pos, s[right].lo.value, right)][right := s[right].(parent := Some(p))]
    requires RecOk(s[p]) && Proper(s[left].lo, s[left].hi)
    requires i < |s[p].children| && i != pos && ChildOk(s, Split(left, right), p, i)
    requires ChildOk(s, Split(left, right), p, pos) && s[p].children[pos] == left
    ensures p in s' && |s'[p].children| == |s'[p].keys| + 1
    ensures ChildOk(s', Done, p, if i < pos then i else i + 1)
  {
    InsertedSeparators(s[p], pos, s[right].lo.value, right, i);
    assert s[p].children[i] != left by {
      if i < pos { SepMonotone(s[p], i, pos); } else { SepMonotone(s[p], pos, i); }
    }
  }

  lemma ParentInsertKids<N, V>(s: Store<N, V>, s': Store<N, V>, root: N, left: N, right: N, p: N, pos: nat)
    requires IsParentInsert(s, s', root, left, right, p, pos)
    requires !s[p].isLeaf && RecOk(s'[p])
    ensures KidsOk(s', Done, p)
  {
    var pend := Split(left, right);
    ParentInsertRec(s, s', root, left, right, p, pos);
    assert NodeOk(s, root, pend, p) && NodeOk(s, root, pend, left);
    forall i | 0 <= i < |s'[p].children|
      ensures ChildOk(s', Done, p, i)
    {
      if i < pos {
        assert ChildOk(s, pend, p, i);
        ParentInsertKid(s, s', left, right, p, pos, i);
      } else if i > pos + 1 {
        assert ChildOk(s, pend, p, i - 1);
        ParentInsertKid(s, s', left, right, p, pos, i - 1);
      } else if i == pos {
        assert s'[p].children[i] == left;
        assert s'[p].keys[i] == s[right].lo.value;
      } else {
        assert s'[p].children[i] == right;
      }
    }
  }

  lemma ParentInsertOther<N, V>(s: Store<N, V>, s': Store<N, V>, root: N, left: N, right: N, p: N, pos: nat, n: N)
    requires IsParentInsert(s, s', root, left, right, p, pos)
    requires n in s && n != p && !s[n].isLeaf
    ensures RecOk(s'[n]) && KidsOk(s', Done, n)
  {
    var pend := Split(left, right);
    assert NodeOk(s, root, pend, n) && NodeOk(s, root, pend, p);
    ParentInsertRec(s, s', root, left, right, p, pos);
    forall i | 0 <= i < |s'[n].children|
      ensures ChildOk(s', Done, n, i)
    {
      assert ChildOk(s, pend, n, i);
      assert s'[n].children[i] != left;
    }
  }

  lemma ParentInsertUp<N, V>(s: Store<N, V>, s': Store<N, V>, root: N, left: N, right: N, p: N, pos: nat, n: N)
    requires IsParentInsert(s, s', root, left, right, p, pos)
    requires n in s
    ensures UpOk(s', root, Done, n)
  {
    var pend := Split(left, right);
    ParentInsertRec(s, s', root, left, right, p, pos);
    assert NodeOk(s, root, pend, n) && NodeOk(s, root, pend, left) && NodeOk(s, root, pend, p);
    if n == right {
      assert s'[p].children[pos + 1] == right;
    } else if n != root && s[n].parent.value == p {
      var i :| 0 <= i < |s[p].children| && s[p].children[i] == n;
      assert s'[p].children[if i <= pos then i else i + 1] == n;
    }
  }

  lemma ParentInsertShape<N, V>(s: Store<N, V>, s': Store<N, V>, root: N, left: N, right: N, p: N, pos: nat)
    requires IsParentInsert(s, s', root, left, right, p, pos)
    ensures Shape(s', root, Done)
  {
    var pend := Split(left, right);
    ParentInsertRec(s, s', root, left, right, p, pos);
    ParentInsertKids(s, s', root, left, right, p, pos);
    forall n | n in s'
      ensures NodeOk(s', root, Done, n)
    {
      assert NodeOk(s, root, pend, n);
      if n != p && !s[n].isLeaf { ParentInsertOther(s, s', root, left, right, p, pos, n); }
      ParentInsertUp(s, s', root, left, right, p, pos, n);
    }
  }

  // ---------------------------------------------------------------- split_internal

  ghost function InnerLeft<N, V>(r: Rec<N, V>, mid: nat): Rec<N, V>
    requires mid < |r.keys| && |r.children| == |r.keys| + 1
  {
    r.(keys := r.keys[..mid], children := r.children[..mid + 1], hi := Some(r.keys[mid]))
  }

  ghost function InnerRight<N, V>(r: Rec<N, V>, mid: nat): Rec<N, V>
    requires mid < |r.keys| && |r.children| == |r.keys| + 1
  {
    Rec(r.keys[mid + 1..], [], r.children[mid + 1..], false, None, r.parent, r.ht, Some(r.keys[mid]), r.hi)
  }

  // Every node of kids gets p as its parent.
  ghost function Reparent<N, V>(s: Store<N, V>, kids: seq<N>, p: N): Store<N, V> {
    map n | n in s :: if n in kids then s[n].(parent := Some(p)) else s[n]
  }

  lemma ReparentOne<N, V>(s: Store<N, V>, kids: seq<N>, i: nat, p: N)
    requires i < |kids| && kids[i] in s
    ensures var t := Reparent(s, kids[..i], p);
      t[kids[i] := t[kids[i]].(parent := Some(p))] == Reparent(s, kids[..i + 1], p)
  {
    assert kids[..i + 1] == kids[..i] + [kids[i]];
  }

  ghost predicate IsInnerSplit<N, V>(s: Store<N, V>, s': Store<N, V>, root: N, node: N, right: N, mid: nat) {
    && Shape(s, root, Done) && node in s && !s[node].isLeaf && right !in s
    && 0 < mid < |s[node].keys| && |s[node].children| == |s[node].keys| + 1
    && s' == Reparent(s[node := InnerLeft(s[node], mid)][right := InnerRight(s[node], mid)],
                      s[node].children[mid + 1..], right)
  }

  lemma InnerSplitRecs<N, V>(r: Rec<N, V>, mid: nat)
    requires RecOk(r) && !r.isLeaf && 0 < mid < |r.keys|
    ensures RecOk(InnerLeft(r, mid)) && RecOk(InnerRight(r, mid))
  {
    assert Within(r.lo, r.hi, r.keys[mid]) && Within(r.lo, r.hi, r.keys[0]) && r.keys[0] < r.keys[mid];
    var p, q := InnerLeft(r, mid), InnerRight(r, mid);
    forall i | 0 <= i < |q.keys|
      ensures Within(q.lo, q.hi, q.keys[i])
    {
      assert q.keys[i] == r.keys[mid + 1 + i];
      assert Within(r.lo, r.hi, r.keys[mid + 1 + i]);
    }
    forall i | 0 <= i < |p.keys|
      ensures Within(p.lo, p.hi, p.keys[i])
    {
      assert Within(r.lo, r.hi, r.keys[i]);
    }
  }

  // Exactly the children of the new right half change their parent.
  lemma InnerSplitFrame<N, V>(s: Store<N, V>, s': Store<N, V>, root: N, node: N, right: N, mid: nat)
    requires IsInnerSplit(s, s', root, node, right, mid)
    ensures s'[node] == InnerLeft(s[node], mid) && s'[right] == InnerRight(s[node], mid)
    ensures forall n :: n in s && n != node ==>
      s'[n] == if n in s[node].children[mid + 1..] then s[n].(parent := Some(right)) else s[n]
    ensures forall n :: n in s && n in s[node].children[mid + 1..] ==>
      s[n].parent == Some(node) && n != root && n != node
  {
    assert NodeOk(s, root, Done, node) && NodeOk(s, root, Done, root);
    forall c | c in s[node].children
      ensures c in s && s[c].parent == Some(node) && c != node && c != right && c != root
    {
      var i :| 0 <= i < |s[node].children| && s[node].children[i] == c;
      assert ChildOk(s, Done, node, i);
    }
    assert forall c :: c in s[node].children[mid + 1..] ==> c in s[node].children;
  }

  // Child i of node ends up on the side its index says.
  lemma InnerSplitSide<N, V>(s: Store<N, V>, s': Store<N, V>, root: N, node: N, right: N, mid: nat, i: nat)
    requires IsInnerSplit(s, s', root, node, right, mid)
    requires i < |s[node].children|
    ensures ChildOk(s, Done, node, i)
    ensures s[node].children[i] in s[node].children[mid + 1..] <==> i > mid
  {
    assert NodeOk(s, root, Done, node);
    assert ChildOk(s, Done, node, i);
    if i > mid {
      assert s[node].children[mid + 1..][i - mid - 1] == s[node].children[i];
    } else if s[node].children[i] in s[node].children[mid + 1..] {
      var j :| mid + 1 <= j < |s[node].children| && s[node].children[j] == s[node].children[i];
      assert ChildOk(s, Done, node, j);
      SepMonotone(s[node], i, j);
    }
  }

  lemma InnerSplitKidsLeft<N, V>(s: Store<N, V>, s': Store<N, V>, root: N, node: N, right: N, mid: nat)
    requires IsInnerSplit(s, s', root, node, right, mid)
    requires right in s' && node in s' && RecOk(s'[node])
    ensures KidsOk(s', Split(node, right), node)
  {
    InnerSplitFrame(s, s', root, node, right, mid);
    forall i | 0 <= i < |s'[node].children|
      ensures ChildOk(s', Split(node, right), node, i)
    {
      InnerSplitSide(s, s', root, node, right, mid, i);
      assert s'[node].children[i] == s[node].children[i];
    }
  }

  lemma InnerRightSeparators<N, V>(r: Rec<N, V>, mid: nat, i: nat)
    requires |r.children| == |r.keys| + 1 && mid < |r.keys| && i + mid + 1 <= |r.keys|
    ensures var q := InnerRight(r, mid);
      && q.children[i] == r.children[mid + 1 + i]
      && SepLo(q, i) == SepLo(r, mid + 1 + i) && SepHi(q, i) == SepHi(r, mid + 1 + i)
  {
  }

  lemma InnerSplitKidRight<N, V>(s: Store<N, V>, s': Store<N, V>, node: N, right: N, mid: nat, i: nat)
    requires node in s && |s[node].children| == |s[node].keys| + 1 && mid + 1 + i <= |s[node].keys|
    requires right in s' && s'[right] == InnerRight(s[node], mid)
    requires ChildOk(s, Done, node, mid + 1 + i)
    requires var c := s[node].children[mid + 1 + i];
      c != node && c != right && c in s' && s'[c] == s[c].(parent := Some(right))
    ensures ChildOk(s', Split(node, right), right, i)
  {
    InnerRightSeparators(s[node], mid, i);
  }

  lemma InnerSplitKidsRight<N, V>(s: Store<N, V>, s': Store<N, V>, root: N, node: N, right: N, mid: nat)
    requires IsInnerSplit(s, s', root, node, right, mid)
    requires right in s' && RecOk(s'[right])
    ensures KidsOk(s', Split(node, right), right)
  {
    InnerSplitFrame(s, s', root, node, right, mid);
    forall i | 0 <= i < |s'[right].children|
      ensures ChildOk(s', Split(node, right), right, i)
    {
      InnerSplitSide(s, s', root, node, right, mid, mid + 1 + i);
      InnerSplitKidRight(s, s', node, right, mid, i);
    }
  }

  lemma InnerSplitKids<N, V>(s: Store<N, V>, s': Store<N, V>, root: N, node: N, right: N, mid: nat, n: N)
    requires IsInnerSplit(s, s', root, node, right, mid)
    requires n in s && n != node && !s[n].isLeaf && n in s' && RecOk(s'[n])
    ensures right in s' && KidsOk(s', Split(node, right), n)
  {
    InnerSplitFrame(s, s', root, node, right, mid);
    assert NodeOk(s, root, Done, n);
    forall i | 0 <= i < |s'[n].children|
      ensures ChildOk(s', Split(node, right), n, i)
    {
      assert ChildOk(s, Done, n, i);
      var c := s[n].children[i];
      assert s[c].parent != Some(node);
    }
  }

  lemma InnerSplitUp<N, V>(s: Store<N, V>, s': Store<N, V>, root: N, node: N, right: N, mid: nat, n: N)
    requires IsInnerSplit(s, s', root, node, right, mid)
    requires n in s
    ensures UpOk(s', root, Split(node, right), n)
  {
    assert NodeOk(s, root, Done, node) && NodeOk(s, root, Done, n);
    InnerSplitFrame(s, s', root, node, right, mid);
    if n != root && s[n].parent == Some(node) && n !in s[node].children[mid + 1..] {
      var i :| 0 <= i < |s[node].children| && s[node].children[i] == n;
      InnerSplitSide(s, s', root, node, right, mid, i);
      assert s'[node].children[i] == n;
    }
  }

  lemma InnerSplitShape<N, V>(s: Store<N, V>, s': Store<N, V>, root: N, node: N, right: N, mid: nat)
    requires IsInnerSplit(s, s', root, node, right, mid)
    ensures Shape(s', root, Split(node, right))
  {
    assert NodeOk(s, root, Done, node) && NodeOk(s, root, Done, root);
    InnerSplitRecs(s[node], mid);
    InnerSplitFrame(s, s', root, node, right, mid);
    InnerSplitKidsLeft(s, s', root, node, right, mid);
    InnerSplitKidsRight(s, s', root, node, right, mid);
    forall n | n in s'
      ensures NodeOk(s', root, Split(node, right), n)
    {
      if n != right {
        assert NodeOk(s, root, Done, n);
        if n != node && !s[n].isLeaf { InnerSplitKids(s, s', root, node, right, mid, n); }
        InnerSplitUp(s, s', root, node, right, mid, n);
      }
    }
  }
}
