/**
  The B+ tree of storageTree.hpp as linked node objects that are updated in place, without the
  mutexes. Locks aside, each method makes the program's assignments in the program's order.

  The destructor of the program's Node deletes all children (storageTree.hpp:36-42), although the
  nodes deleted after a merge or a root collapse (lines 322, 329, 360 and 367) have just handed
  their children over. The model drops only the emptied node, which is what the code is after.
*/
module BPlusTree {
  import opened Common
  import opened BPlusStore
  import opened BPlusInsert
  import opened BPlusDelete
  import opened BPlusRebalance
  import opened BPlusSteps

  class Node<V> {
    var keys: seq<int>
    var values: seq<V>
    var children: seq<Node<V>>
    var isLeaf: bool
    var next: Node?<V>
    var parent: Node?<V>
    ghost var ht: nat
    ghost var lo: Option<int>
    ghost var hi: Option<int>

    constructor (leaf: bool)
      ensures keys == [] && values == [] && children == [] && isLeaf == leaf && next == null && parent == null
    {
      keys, values, children, isLeaf, next, parent := [], [], [], leaf, null, null;
      ht, lo, hi := 0, None, None;
    }

    ghost function View(): Rec<Node<V>, V>
      reads this
    {
      Rec(keys, values, children, isLeaf, Opt(next), Opt(parent), ht, lo, hi)
    }

    // The vector operations of the borrow and merge steps, with the interval they leave behind.

    method PopBackPair() returns (key: int, value: V)
      requires 1 <= |keys| == |values|
      modifies this
      ensures key == old(keys)[|old(keys)| - 1] && value == old(values)[|old(keys)| - 1]
      ensures View() == LeafLow(old(View()), old(keys)[..|old(keys)| - 1], old(values)[..|old(keys)| - 1], key)
    {
      key, value := keys[|keys| - 1], values[|values| - 1];
      keys := keys[..|keys| - 1];
      values := values[..|values| - 1];
      hi := Some(key);
    }

    method PushFrontPair(key: int, value: V)
      modifies this
      ensures View() == LeafHigh(old(View()), [key] + old(keys), [value] + old(values), key)
    {
      keys := [key] + keys;
      values := [value] + values;
      lo := Some(key);
    }

    method PopFrontPair() returns (key: int, value: V)
      requires 2 <= |keys| == |values|
      modifies this
      ensures key == old(keys)[0] && value == old(values)[0]
      ensures View() == LeafHigh(old(View()), old(keys)[1..], old(values)[1..], old(keys)[1])
    {
      key, value := keys[0], values[0];
      keys := keys[1..];
      values := values[1..];
      lo := Some(keys[0]);
    }

    method PushBackPair(key: int, value: V, ghost end: int)
      modifies this
      ensures View() == LeafLow(old(View()), old(keys) + [key], old(values) + [value], end)
    {
      keys := keys + [key];
      values := values + [value];
      hi := Some(end);
    }

    method PopBackChild() returns (key: int, child: Node<V>)
      requires 1 <= |keys| && |children| == |keys| + 1
      modifies this
      ensures key == old(keys)[|old(keys)| - 1] && child == old(children)[|old(keys)|]
      ensures View() == InnerLow(old(View()), old(keys)[..|old(keys)| - 1], old(children)[..|old(keys)|], key)
    {
      key, child := keys[|keys| - 1], children[|children| - 1];
      keys := keys[..|keys| - 1];
      children := children[..|children| - 1];
      hi := Some(key);
    }

    method PushFrontChild(key: int, child: Node<V>, ghost begin: int)
      modifies this
      ensures View() == InnerHigh(old(View()), [key] + old(keys), [child] + old(children), begin)
    {
      keys := [key] + keys;
      children := [child] + children;
      lo := Some(begin);
    }

    method PopFrontChild() returns (key: int, child: Node<V>)
      requires 1 <= |keys| && |children| == |keys| + 1
      modifies this
      ensures key == old(keys)[0] && child == old(children)[0]
      ensures View() == InnerHigh(old(View()), old(keys)[1..], old(children)[1..], key)
    {
      key, child := keys[0], children[0];
      keys := keys[1..];
      children := children[1..];
      lo := Some(key);
    }

    method PushBackChild(key: int, child: Node<V>, ghost end: int)
      modifies this
      ensures View() == InnerLow(old(View()), old(keys) + [key], old(children) + [child], end)
    {
      keys := keys + [key];
      children := children + [child];
      hi := Some(end);
    }

    method SetSeparator(pos: nat, key: int)
      requires pos < |keys|
      modifies this
      ensures View() == old(View()).(keys := old(keys)[pos := key])
    {
      keys := keys[pos := key];
    }

    method AbsorbLeaf(b: Node<V>)
      requires this != b
      modifies this
      ensures View() == old(View()).(keys := old(keys) + b.keys, values := old(values) + b.values,
                                     next := Opt(b.next), hi := b.hi)
    {
      keys := keys + b.keys;
      values := values + b.values;
      next := b.next;
      hi := b.hi;
    }

    method AbsorbInternal(sep: int, b: Node<V>)
      requires this != b
      modifies this
      ensures View() == old(View()).(keys := old(keys) + [sep] + b.keys, children := old(children) + b.children,
        hi := b.hi)
    {
      keys := keys + [sep];
      keys := keys + b.keys;
      children := children + b.children;
      hi := b.hi;
    }

    method DropChild(pos: nat)
      requires pos < |keys| && |children| == |keys| + 1
      modifies this
      ensures View() == old(View()).(keys := RemoveAt(old(keys), pos), children := RemoveAt(old(children), pos + 1))
    {
      keys := RemoveAt(keys, pos);
      children := RemoveAt(children, pos + 1);
    }
  }

  function Opt<V>(n: Node?<V>): Option<Node<V>> {
    if n == null then None else Some(n)
  }

  // std::lower_bound
  method LowerBound(keys: seq<int>, key: int) returns (pos: nat)
    requires Sorted(keys)
    ensures IsLowerBound(keys, pos, key)
  {
    pos := 0;
    while pos < |keys| && keys[pos] < key
      invariant pos <= |keys|
      invariant forall j :: 0 <= j < pos ==> keys[j] < key
    {
      pos := pos + 1;
    }
  }

  // std::find
  method FindIndex<T(==)>(s: seq<T>, x: T) returns (pos: nat)
    ensures pos <= |s|
    ensures pos < |s| ==> s[pos] == x
    ensures x !in s[..pos]
    ensures pos == |s| ==> x !in s
  {
    pos := 0;
    while pos < |s| && s[pos] != x
      invariant pos <= |s|
      invariant x !in s[..pos]
    {
      pos := pos + 1;
    }
  }

  class Tree<V> {
    const degree: nat
    var root: Node<V>
    ghost var repr: set<Node<V>>
    ghost var contents: map<int, V>

    ghost function Heap(): Store<Node<V>, V>
      reads this`repr, repr
    {
      map n | n in repr :: n.View()
    }

    // Two changed (or new) nodes are two changed entries of the store.
    twostate lemma HeapStep(new a: Node<V>, new b: Node<V>)
      requires a in repr && repr == old(repr) + {b}
      requires forall n :: n in old(repr) && n != a && n != b ==> n.View() == old(n.View())
      ensures Heap() == old(Heap())[a := a.View()][b := b.View()]
    {
    }

    // The same for three or four changed nodes.
    twostate lemma HeapStep3(new a: Node<V>, new b: Node<V>, new c: Node<V>)
      requires a in repr && b in repr && c in repr && repr == old(repr)
      requires forall n :: n in repr && n != a && n != b && n != c ==> n.View() == old(n.View())
      ensures Heap() == old(Heap())[a := a.View()][b := b.View()][c := c.View()]
    {
    }

    twostate lemma HeapStep4(new a: Node<V>, new b: Node<V>, new c: Node<V>, new d: Node<V>)
      requires a in repr && b in repr && c in repr && d in repr && repr == old(repr)
      requires forall n :: n in repr && n != a && n != b && n != c && n != d ==> n.View() == old(n.View())
      ensures Heap() == old(Heap())[a := a.View()][b := b.View()][c := c.View()][d := d.View()]
    {
    }

    ghost predicate Sound(exc: set<Node<V>>, pend: Pending<Node<V>>)
      reads this, repr
    {
      Good(Heap(), root, degree, contents, exc, pend)
    }

    ghost predicate Valid()
      reads this, repr
    {
      Sound({}, Done)
    }

    constructor (degree: nat)
      requires 2 <= degree
      ensures Valid() && fresh(repr)
      ensures contents == map[] && this.degree == degree && root.ht == 0
    {
      this.degree := degree;
      root := new Node<V>(true);
      contents := map[];
      new;
      root.ht, root.lo, root.hi := 0, None, None;
      repr := {root};
      assert Heap() == map[root := root.View()];
      assert NodeOk(Heap(), root, Done, root);
    }

    // ------------------------------------------------------------------ find_leaf, search

    method FindLeaf(key: int) returns (leaf: Node<V>)
      requires Valid()
      ensures leaf in repr && leaf.isLeaf && Within(leaf.lo, leaf.hi, key)
    {
      leaf := root;
      assert NodeOk(Heap(), root, Done, root);
      while !leaf.isLeaf
        invariant leaf in repr && Within(leaf.lo, leaf.hi, key)
        decreases leaf.ht
      {
        assert NodeOk(Heap(), root, Done, leaf);
        assert Heap()[leaf] == leaf.View();
        var i := 0;
        while i < |leaf.keys| && key >= leaf.keys[i]
          invariant i <= |leaf.keys|
          invariant forall j :: 0 <= j < i ==> leaf.keys[j] <= key
        {
          i := i + 1;
        }
        assert ChildOk(Heap(), Done, leaf, i);
        leaf := leaf.children[i];
      }
    }

    method Search(key: int) returns (value: Option<V>)
      requires Valid()
      ensures value == if key in contents then Some(contents[key]) else None
    {
      var leaf := FindLeaf(key);
      var pos := FindIndex(leaf.keys, key);
      assert Heap()[leaf] == leaf.View();
      assert Holds(Heap()[leaf], contents);
      if pos < |leaf.keys| {
        value := Some(leaf.values[pos]);
      } else {
        value := None;
      }
    }

    // ------------------------------------------------------------------ insert

    method InsertIntoLeaf(leaf: Node<V>, key: int, value: V)
      requires Valid() && leaf in repr && leaf.isLeaf && Within(leaf.lo, leaf.hi, key)
      modifies this`contents, leaf
      ensures Sound({leaf}, Done) && leaf.ht == old(leaf.ht) && leaf.isLeaf
      ensures contents == old(contents)[key := value]
      ensures |leaf.keys| <= 2 * degree && (|leaf.keys| < 2 * degree ==> Valid())
    {
      hide Good;
      ghost var s := Heap();
      GoodNode(s, root, degree, contents, {}, Done, leaf);
      assert s[leaf] == leaf.View();
      var pos := PutIntoLeaf(leaf, key, value);
      PutGood(s, Heap(), root, degree, contents, leaf, pos, key, value);
      assert Heap()[leaf] == leaf.View();
      contents := contents[key := value];
    }

    method PutIntoLeaf(leaf: Node<V>, key: int, value: V) returns (pos: nat)
      requires leaf in repr && Sorted(leaf.keys) && |leaf.keys| == |leaf.values|
      modifies leaf
      ensures IsLowerBound(old(leaf.keys), pos, key)
      ensures Heap() == old(Heap())[leaf := Put(old(leaf.View()), pos, key, value)]
    {
      pos := LowerBound(leaf.keys, key);
      if pos < |leaf.keys| && leaf.keys[pos] == key {
        leaf.values := leaf.values[pos := value];
      } else {
        leaf.keys := InsertAt(leaf.keys, pos, key);
        leaf.values := InsertAt(leaf.values, pos, value);
      }
    }

    // No node changes its level; the tree grows only by a new root.
    twostate predicate Grown()
      reads this, repr, root
    {
      && old(repr) <= repr
      && (forall n :: n in old(repr) ==> n.ht == old(n.ht))
      && (root == old(root) || (root !in old(repr) && root.ht == old(root.ht) + 1))
    }

    method Insert(key: int, value: V)
      requires Valid()
      modifies this, repr
      ensures Valid() && fresh(repr - old(repr)) && Grown()
      ensures contents == old(contents)[key := value]
    {
      var leaf := FindLeaf(key);
      InsertIntoLeaf(leaf, key, value);
      if |leaf.keys| > 2 * degree - 1 {
        SplitLeaf(leaf);
      }
    }

    // ------------------------------------------------------------------ split_leaf

    method SplitLeaf(leaf: Node<V>)
      requires Sound({leaf}, Done) && leaf in repr && leaf.isLeaf && |leaf.keys| == 2 * degree
      modifies this, repr
      ensures Valid() && fresh(repr - old(repr)) && Grown()
      ensures contents == old(contents)
    {
      ghost var s := Heap();
      assert NodeOk(s, root, Done, leaf) && s[leaf] == leaf.View();
      var newLeaf, promoteKey := CutLeaf(leaf);
      SplitLeafGood(s, Heap(), root, degree, contents, leaf, newLeaf);
      assert Heap()[leaf] == leaf.View() && Heap()[newLeaf] == newLeaf.View();
      InsertIntoParent(leaf, promoteKey, newLeaf);
    }

    method CutLeaf(leaf: Node<V>) returns (newLeaf: Node<V>, promoteKey: int)
      requires leaf in repr && leaf.isLeaf && |leaf.keys| == |leaf.values| == 2 * degree && 2 <= degree
      modifies this`repr, leaf
      ensures fresh(newLeaf) && repr == old(repr) + {newLeaf}
      ensures promoteKey == old(leaf.keys)[degree]
      ensures Heap() == old(Heap())[leaf := LeafLeft(old(leaf.View()), degree, newLeaf)]
                                   [newLeaf := LeafRight(old(leaf.View()), degree)]
      ensures forall n :: n in old(repr) ==> n.ht == old(n.ht)
    {
      newLeaf := new Node<V>(true);
      var mid := (|leaf.keys| + 1) / 2;
      newLeaf.keys := leaf.keys[mid..];
      newLeaf.values := leaf.values[mid..];
      newLeaf.ht, newLeaf.lo, newLeaf.hi := 0, Some(leaf.keys[mid]), leaf.hi;
      leaf.hi := Some(leaf.keys[mid]);
      leaf.keys := leaf.keys[..mid];
      leaf.values := leaf.values[..mid];
      newLeaf.next := leaf.next;
      leaf.next := newLeaf;
      newLeaf.parent := leaf.parent;
      promoteKey := newLeaf.keys[0];
      repr := repr + {newLeaf};
      assert newLeaf.View() == LeafRight(old(leaf.View()), degree);
      assert leaf.View() == LeafLeft(old(leaf.View()), degree, newLeaf);
      HeapStep(leaf, newLeaf);
    }

    // ------------------------------------------------------------------ insert_into_parent

    method InsertIntoParent(left: Node<V>, key: int, right: Node<V>)
      requires Sound({}, Split(left, right)) && left in repr && right in repr
      requires right.lo == Some(key) && MinKeys(degree) <= |left.keys|
      modifies this, repr
      ensures Valid() && fresh(repr - old(repr)) && Grown()
      ensures contents == old(contents)
      decreases root.ht - left.ht, 0
    {
      hide Good, Shape;
      ghost var s := Heap();
      GoodNode(s, root, degree, contents, {}, Split(left, right), left);
      assert s[left] == left.View() && s[right] == right.View();
      if left == root {
        GrowRoot(right, key);
        NewRootGood(s, Heap(), left, degree, contents, right, root);
        return;
      }
      var parent := AttachRight(left, key, right);
      if |parent.keys| > 2 * degree - 1 {
        SplitInternal(parent);
      }
    }

    // the part of insert_into_parent that works on an existing parent
    method AttachRight(left: Node<V>, key: int, right: Node<V>) returns (parent: Node<V>)
      requires Sound({}, Split(left, right)) && left in repr && right in repr && left != root
      requires right.lo == Some(key)
      modifies repr
      ensures parent in repr && Sound({parent}, Done) && !parent.isLeaf
      ensures |parent.keys| <= 2 * degree && (|parent.keys| < 2 * degree ==> Valid())
      ensures forall n :: n in repr ==> n.ht == old(n.ht)
      ensures parent.ht == left.ht + 1
    {
      hide Good;
      ghost var s := Heap();
      GoodNode(s, root, degree, contents, {}, Split(left, right), left);
      assert s[left] == left.View() && s[right] == right.View();
      parent := left.parent;
      GoodNode(s, root, degree, contents, {}, Split(left, right), parent);
      assert s[parent] == parent.View();
      var pos := LowerBound(parent.keys, key);
      SeparatorPosition(s, root, left, right, pos);
      LinkRight(parent, pos, key, right);
      ParentInsertGood(s, Heap(), root, degree, contents, left, right, parent, pos);
      assert Heap()[parent] == parent.View();
    }

    method GrowRoot(right: Node<V>, key: int)
      requires root in repr && right in repr && right != root
      requires right.lo == Some(key)
      modifies this`root, this`repr, root, right
      ensures fresh(root) && repr == old(repr) + {root} && root.ht == old(root.ht) + 1
      ensures Heap() == old(Heap())
        [root := Rec([key], [], [old(root), right], false, None, None, old(root.ht) + 1, None, None)]
        [old(root) := old(root.View()).(parent := Some(root))]
        [right := old(right.View()).(parent := Some(root))]
      ensures forall n :: n in old(repr) ==> n.ht == old(n.ht)
    {
      var newRoot := MakeRoot(key, right);
      SetParents(root, right, newRoot);
      root := newRoot;
    }

    method MakeRoot(key: int, right: Node<V>) returns (newRoot: Node<V>)
      requires root in repr
      modifies this`repr
      ensures fresh(newRoot) && repr == old(repr) + {newRoot} && newRoot.ht == root.ht + 1
      ensures Heap() == old(Heap())
        [newRoot := Rec([key], [], [root, right], false, None, None, root.ht + 1, None, None)]
    {
      newRoot := new Node<V>(false);
      newRoot.keys := newRoot.keys + [key];
      newRoot.children := newRoot.children + [root];
      newRoot.children := newRoot.children + [right];
      newRoot.ht, newRoot.lo, newRoot.hi := root.ht + 1, None, None;
      repr := repr + {newRoot};
      assert newRoot.View() == Rec([key], [], [root, right], false, None, None, root.ht + 1, None, None);
    }

    method SetParents(left: Node<V>, right: Node<V>, p: Node<V>)
      requires left in repr && right in repr && left != right
      modifies left, right
      ensures Heap() == old(Heap())[left := old(left.View()).(parent := Some(p))]
                                   [right := old(right.View()).(parent := Some(p))]
      ensures forall n :: n in repr ==> n.ht == old(n.ht)
    {
      left.parent := p;
      right.parent := p;
      HeapStep(left, right);
    }

    method LinkRight(parent: Node<V>, pos: nat, key: int, right: Node<V>)
      requires parent in repr && right in repr && parent != right
      requires pos <= |parent.keys| && pos < |parent.children|
      modifies parent, right
      ensures Heap() == old(Heap())[parent := InsertedRec(old(parent.View()), pos, key, right)]
                                   [right := old(right.View()).(parent := Some(parent))]
      ensures forall n :: n in repr ==> n.ht == old(n.ht)
    {
      hide InsertAt;
      parent.keys := InsertAt(parent.keys, pos, key);
      parent.children := InsertAt(parent.children, pos + 1, right);
      right.parent := parent;
      HeapStep(parent, right);
    }

    // ------------------------------------------------------------------ split_internal

    method SplitInternal(node: Node<V>)
      requires Sound({node}, Done) && node in repr && !node.isLeaf && |node.keys| == 2 * degree
      modifies this, repr
      ensures Valid() && fresh(repr - old(repr)) && Grown()
      ensures contents == old(contents)
      decreases root.ht - node.ht, 1
    {
      hide Good;
      var newNode, promoteKey := CutInTwo(node);
      InsertIntoParent(node, promoteKey, newNode);
    }

    // the split itself, after which only the parent is wrong
    method CutInTwo(node: Node<V>) returns (newNode: Node<V>, promoteKey: int)
      requires Sound({node}, Done) && node in repr && !node.isLeaf && |node.keys| == 2 * degree
      modifies this`repr, repr
      ensures fresh(newNode) && repr == old(repr) + {newNode}
      ensures Sound({}, Split(node, newNode)) && newNode.lo == Some(promoteKey) && MinKeys(degree) <= |node.keys|
      ensures forall n :: n in old(repr) ==> n.ht == old(n.ht)
    {
      hide Good, Shape;
      ghost var s := Heap();
      GoodNode(s, root, degree, contents, {node}, Done, node);
      assert s[node] == node.View();
      assert node !in node.children && (forall c :: c in node.children ==> c in repr) by {
        ChildrenLive(s, root, node);
      }
      newNode, promoteKey := CutInternal(node);
      InnerSplitGood(s, Heap(), root, degree, contents, node, newNode);
      assert Heap()[node] == node.View() && Heap()[newNode] == newNode.View();
    }

    method CutInternal(node: Node<V>) returns (newNode: Node<V>, promoteKey: int)
      requires node in repr && !node.isLeaf && |node.children| == |node.keys| + 1
      requires |node.keys| == 2 * degree && 2 <= degree
      requires node !in node.children && forall c :: c in node.children ==> c in repr
      modifies this`repr, repr
      ensures fresh(newNode) && repr == old(repr) + {newNode}
      ensures promoteKey == old(node.keys)[degree]
      ensures Heap() == Reparent(old(Heap())[node := InnerLeft(old(node.View()), degree)]
                                            [newNode := InnerRight(old(node.View()), degree)],
                                 old(node.children)[degree + 1..], newNode)
      ensures forall n :: n in old(repr) ==> n.ht == old(n.ht)
    {
      newNode, promoteKey := HalveInternal(node);
      AdoptAll(newNode.children, newNode);
    }

    method HalveInternal(node: Node<V>) returns (newNode: Node<V>, promoteKey: int)
      requires node in repr && !node.isLeaf && |node.children| == |node.keys| + 1
      requires |node.keys| == 2 * degree && 2 <= degree
      modifies this`repr, node
      ensures fresh(newNode) && repr == old(repr) + {newNode}
      ensures promoteKey == old(node.keys)[degree] && newNode.children == old(node.children)[degree + 1..]
      ensures Heap() == old(Heap())[node := InnerLeft(old(node.View()), degree)]
                                   [newNode := InnerRight(old(node.View()), degree)]
      ensures forall n :: n in old(repr) ==> n.ht == old(n.ht)
    {
      newNode := new Node<V>(false);
      var mid := |node.keys| / 2;
      promoteKey := node.keys[mid];
      newNode.keys := node.keys[mid + 1..];
      newNode.children := node.children[mid + 1..];
      newNode.ht, newNode.lo, newNode.hi := node.ht, Some(promoteKey), node.hi;
      newNode.parent := node.parent;
      node.hi := Some(promoteKey);
      node.keys := node.keys[..mid];
      node.children := node.children[..mid + 1];
      repr := repr + {newNode};
      assert newNode.View() == InnerRight(old(node.View()), degree);
      assert node.View() == InnerLeft(old(node.View()), degree);
      HeapStep(node, newNode);
    }

    twostate lemma Adopted(new kid: Node<V>, new p: Node<V>)
      requires repr == old(repr) && kid in repr && kid.View() == old(Heap())[kid].(parent := Some(p))
      requires forall n :: n in repr && n != kid ==> n.View() == old(n.View())
      ensures Heap() == old(Heap())[kid := old(Heap())[kid].(parent := Some(p))]
      ensures forall n :: n in repr ==> n.ht == old(n.ht)
    {
      Levels([kid]);
    }

    // the loop that gives each of kids a new parent
    method AdoptAll(kids: seq<Node<V>>, p: Node<V>)
      requires forall c :: c in kids ==> c in repr
      modifies set c | c in kids
      ensures Heap() == Reparent(old(Heap()), kids, p)
      ensures forall n :: n in repr ==> n.ht == old(n.ht)
    {
      var i := 0;
      while i < |kids|
        invariant i <= |kids|
        invariant Heap() == Reparent(old(Heap()), kids[..i], p)
        invariant forall n :: n in repr ==> n.ht == old(n.ht)
      {
        label before:
        kids[i].parent := p;
        Adopted@before(kids[i], p);
        ReparentOne(old(Heap()), kids, i, p);
        i := i + 1;
      }
      assert kids[..i] == kids;
    }

    // ------------------------------------------------------------------ remove

    // No surviving node changes its level; the tree shrinks only by its root.
    twostate predicate Shrunk()
      reads this, repr, root
    {
      && repr <= old(repr)
      && (forall n :: n in repr ==> n.ht == old(n.ht))
      && (root == old(root) || (old(root) !in repr && root.ht + 1 == old(root.ht)))
    }

    method Remove(key: int) returns (found: bool)
      requires Valid()
      modifies this, repr
      ensures Valid() && Shrunk()
      ensures found <==> key in old(contents)
      ensures contents == old(contents) - {key}
    {
      var leaf := FindLeaf(key);
      found := DeleteFromLeaf(leaf, key);
    }

    method DeleteFromLeaf(leaf: Node<V>, key: int) returns (found: bool)
      requires Valid() && leaf in repr && leaf.isLeaf && Within(leaf.lo, leaf.hi, key)
      modifies this, repr
      ensures Valid() && Shrunk()
      ensures found <==> key in old(contents)
      ensures contents == old(contents) - {key}
    {
      hide Good, Removed;
      ghost var s := Heap();
      assert s[leaf] == leaf.View();
      LeafHolds(s, root, degree, contents, leaf, key);
      var pos := FindIndex(leaf.keys, key);
      if pos == |leaf.keys| {
        assert contents == contents - {key};
        return false;
      }
      EraseFromLeaf(leaf, pos);
      RemoveGood(s, Heap(), root, degree, contents, leaf, pos);
      contents := contents - {key};
      assert Heap()[leaf] == leaf.View();
      if leaf != root && |leaf.keys| < degree - 1 {
        HandleUnderflow(leaf);
      }
      found := true;
    }

    method EraseFromLeaf(leaf: Node<V>, pos: nat)
      requires leaf in repr && pos < |leaf.keys| == |leaf.values|
      modifies leaf
      ensures Heap() == old(Heap())[leaf := Removed(old(leaf.View()), pos)]
      ensures forall n :: n in repr ==> n.ht == old(n.ht)
    {
      leaf.keys := RemoveAt(leaf.keys, pos);
      leaf.values := RemoveAt(leaf.values, pos);
    }

    // ------------------------------------------------------------------ handle_underflow

    method HandleUnderflow(node: Node<V>)
      requires Sound({node}, Done) && node in repr
      requires if node == root then Valid() else |node.keys| == MinKeys(degree) - 1
      modifies this, repr
      ensures Valid() && Shrunk()
      ensures contents == old(contents)
      decreases root.ht - node.ht, 1
    {
      hide Good;
      ghost var s := Heap();
      assert s[node] == node.View();
      RootHasNoParent(s, root, degree, contents, node);
      var parent := node.parent;
      if parent == null {
        return;
      }
      UnderflowFacts(s, root, degree, contents, node, parent);
      assert s[parent] == parent.View();
      var pos := FindIndex(parent.children, node);
      if pos > 0 {
        var leftSibling := parent.children[pos - 1];
        SiblingIsFull(s, root, degree, contents, parent, leftSibling, node, pos - 1, node);
        assert s[leftSibling] == leftSibling.View();
        if |leftSibling.keys| > degree - 1 {
          BorrowFromLeft(node, leftSibling, pos - 1);
          return;
        }
      }
      if pos < |parent.children| - 1 {
        var rightSibling := parent.children[pos + 1];
        SiblingIsFull(s, root, degree, contents, parent, node, rightSibling, pos, node);
        assert s[rightSibling] == rightSibling.View();
        if |rightSibling.keys| > degree - 1 {
          BorrowFromRight(node, rightSibling, pos);
          return;
        }
      }
      if pos > 0 {
        MergeWithLeft(node, parent.children[pos - 1], pos - 1);
      } else {
        MergeWithRight(node, parent.children[pos + 1], pos);
      }
    }

    // ------------------------------------------------------------------ borrow_from_left

    method BorrowFromLeft(node: Node<V>, leftSibling: Node<V>, pos: nat)
      requires node in repr && leftSibling in repr && node.parent != null && Sound({node}, Done)
      requires Siblings(Heap(), node.parent, leftSibling, node, pos)
      requires |node.keys| == MinKeys(degree) - 1 && MinKeys(degree) < |leftSibling.keys| <= MaxKeys(degree)
      modifies repr
      ensures Valid() && forall n :: n in repr ==> n.ht == old(n.ht)
    {
      if node.isLeaf {
        BorrowPairFromLeft(node, leftSibling, pos);
      } else {
        BorrowChildFromLeft(node, leftSibling, pos);
      }
    }

    method BorrowPairFromLeft(node: Node<V>, leftSibling: Node<V>, pos: nat)
      requires node in repr && leftSibling in repr && node.parent != null && Sound({node}, Done) && node.isLeaf
      requires Siblings(Heap(), node.parent, leftSibling, node, pos)
      requires |node.keys| == MinKeys(degree) - 1 && MinKeys(degree) < |leftSibling.keys| <= MaxKeys(degree)
      modifies repr
      ensures Valid() && forall n :: n in repr ==> n.ht == old(n.ht)
    {
      ghost var s := Heap();
      var parent := node.parent;
      SiblingFacts(s, root, parent, leftSibling, node, pos);
      assert s[node] == node.View() && s[leftSibling] == leftSibling.View() && s[parent] == parent.View();
      LastPairToFront(node, leftSibling, parent, pos, |leftSibling.keys| - 1);
      LeafBorrowGood(s, Heap(), root, degree, contents, parent, leftSibling, node, pos, |s[leftSibling].keys| - 1,
        node);
    }

    method BorrowChildFromLeft(node: Node<V>, leftSibling: Node<V>, pos: nat)
      requires node in repr && leftSibling in repr && node.parent != null && Sound({node}, Done) && !node.isLeaf
      requires Siblings(Heap(), node.parent, leftSibling, node, pos)
      requires |node.keys| == MinKeys(degree) - 1 && MinKeys(degree) < |leftSibling.keys| <= MaxKeys(degree)
      modifies repr
      ensures Valid() && forall n :: n in repr ==> n.ht == old(n.ht)
    {
      ghost var s, n := Heap(), |leftSibling.keys| - 1;
      var parent := node.parent;
      SiblingFacts(s, root, parent, leftSibling, node, pos);
      assert s[node] == node.View() && s[leftSibling] == leftSibling.View() && s[parent] == parent.View();
      ChildrenLive(s, root, leftSibling);
      CutSides(s, root, parent, leftSibling, node, pos, 0);
      LastChildToFront(node, leftSibling, parent, pos);
      LastToFront(s, Heap(), root, parent, leftSibling, node, pos, n);
      InnerBorrowGood(s, Heap(), root, degree, contents, parent, leftSibling, node, pos, n, node);
    }

    method LastPairToFront(node: Node<V>, leftSibling: Node<V>, parent: Node<V>, pos: nat, ghost cut: nat)
      requires node in repr && leftSibling in repr && parent in repr
      requires node != leftSibling && node != parent && leftSibling != parent
      requires node.isLeaf && leftSibling.isLeaf && Siblings(Heap(), parent, leftSibling, node, pos)
      requires |node.keys| == |node.values| && cut + 1 == |leftSibling.keys| == |leftSibling.values| && 1 <= cut
      modifies node, leftSibling, parent
      ensures IsLeafRecut(old(Heap()), Heap(), parent, leftSibling, node, pos, cut)
      ensures forall n :: n in repr ==> n.ht == old(n.ht)
    {
      ghost var ks, vs := leftSibling.keys + node.keys, leftSibling.values + node.values;
      assert ks[..cut] == leftSibling.keys[..cut] && ks[cut..] == [leftSibling.keys[cut]] + node.keys;
      assert vs[..cut] == leftSibling.values[..cut] && vs[cut..] == [leftSibling.values[cut]] + node.values;
      var borrowedKey, borrowedValue := leftSibling.PopBackPair();
      node.PushFrontPair(borrowedKey, borrowedValue);
      parent.SetSeparator(pos, borrowedKey);
      HeapStep3(leftSibling, node, parent);
      Levels([leftSibling, node, parent]);
    }

    // A changed node whose view kept its level kept its level.
    twostate lemma Levels(new changed: seq<Node<V>>)
      requires repr <= old(repr)
      requires forall n :: n in repr && n !in changed ==> n.View() == old(n.View())
      requires forall n :: n in repr && n in changed ==> n.View().ht == old(n.View()).ht
      ensures forall n :: n in repr ==> n.ht == old(n.ht)
    {
      forall n | n in repr
        ensures n.ht == old(n.ht)
      {
        assert n.ht == n.View().ht && old(n.ht) == old(n.View()).ht;
      }
    }

    method LastChildToFront(node: Node<V>, leftSibling: Node<V>, parent: Node<V>, pos: nat)
      requires node in repr && leftSibling in repr && parent in repr
      requires node != leftSibling && node != parent && leftSibling != parent
      requires Siblings(Heap(), parent, leftSibling, node, pos)
      requires 1 <= |leftSibling.keys| && |leftSibling.children| == |leftSibling.keys| + 1
      requires forall c :: c in leftSibling.children ==> c in repr && c != node && c != leftSibling && c != parent
      modifies repr
      ensures var (a, b, p) := (old(leftSibling.View()), old(node.View()), old(parent.View()));
        var (n, c) := (|a.keys| - 1, old(leftSibling.children[|leftSibling.keys|].View()));
        Heap() == old(Heap())[leftSibling := InnerLow(a, a.keys[..n], a.children[..n + 1], a.keys[n])]
                             [node := InnerHigh(b, [p.keys[pos]] + b.keys, [a.children[n + 1]] + b.children, a.keys[n])]
                             [parent := p.(keys := p.keys[pos := a.keys[n]])]
                             [a.children[n + 1] := c.(parent := Some(node))]
      ensures forall n :: n in repr ==> n.ht == old(n.ht)
    {
      var parentKey := parent.keys[pos];
      ghost var last := leftSibling.children[|leftSibling.keys|];
      var borrowedKey, borrowedChild := leftSibling.PopBackChild();
      assert borrowedChild == last;
      node.PushFrontChild(parentKey, borrowedChild, borrowedKey);
      borrowedChild.parent := node;
      parent.SetSeparator(pos, borrowedKey);
      HeapStep4(leftSibling, node, parent, borrowedChild);
      Levels([leftSibling, node, parent, borrowedChild]);
    }

    // ------------------------------------------------------------------ borrow_from_right

    method BorrowFromRight(node: Node<V>, rightSibling: Node<V>, pos: nat)
      requires node in repr && rightSibling in repr && node.parent != null && Sound({node}, Done)
      requires Siblings(Heap(), node.parent, node, rightSibling, pos)
      requires |node.keys| == MinKeys(degree) - 1 && MinKeys(degree) < |rightSibling.keys| <= MaxKeys(degree)
      modifies repr
      ensures Valid() && forall n :: n in repr ==> n.ht == old(n.ht)
    {
      hide Shape, Occupied, Stores, NodeOk;
      ghost var s := Heap();
      var parent := node.parent;
      SiblingFacts(s, root, parent, node, rightSibling, pos);
      assert s[node] == node.View() && s[rightSibling] == rightSibling.View() && s[parent] == parent.View();
      if node.isLeaf {
        FirstPairToBack(node, rightSibling, parent, pos);
        LeafBorrowGood(s, Heap(), root, degree, contents, parent, node, rightSibling, pos, |s[node].keys| + 1, node);
      } else {
        BorrowChildFromRight(node, rightSibling, parent, pos);
      }
    }

    // the branch for inner nodes
    method BorrowChildFromRight(node: Node<V>, rightSibling: Node<V>, parent: Node<V>, pos: nat)
      requires node in repr && rightSibling in repr && node.parent == parent && Sound({node}, Done) && !node.isLeaf
      requires Siblings(Heap(), parent, node, rightSibling, pos)
      requires |node.keys| == MinKeys(degree) - 1 && MinKeys(degree) < |rightSibling.keys| <= MaxKeys(degree)
      modifies repr
      ensures Valid() && forall n :: n in repr ==> n.ht == old(n.ht)
    {
      hide Shape, Occupied, Stores, NodeOk;
      ghost var s := Heap();
      SiblingFacts(s, root, parent, node, rightSibling, pos);
      assert s[node] == node.View() && s[rightSibling] == rightSibling.View() && s[parent] == parent.View();
      ChildrenLive(s, root, rightSibling);
      CutSides(s, root, parent, node, rightSibling, pos, 0);
      FirstChildToBack(node, rightSibling, parent, pos);
      FirstToBack(s, Heap(), root, parent, node, rightSibling, pos);
      InnerBorrowGood(s, Heap(), root, degree, contents, parent, node, rightSibling, pos, |s[node].keys| + 1, node);
    }

    method FirstPairToBack(node: Node<V>, rightSibling: Node<V>, parent: Node<V>, pos: nat)
      requires node in repr && rightSibling in repr && parent in repr
      requires node != rightSibling && node != parent && rightSibling != parent
      requires node.isLeaf && rightSibling.isLeaf && Siblings(Heap(), parent, node, rightSibling, pos)
      requires |node.keys| == |node.values| && 2 <= |rightSibling.keys| == |rightSibling.values|
      modifies node, rightSibling, parent
      ensures IsLeafRecut(old(Heap()), Heap(), parent, node, rightSibling, pos, |old(node.keys)| + 1)
      ensures forall n :: n in repr ==> n.ht == old(n.ht)
    {
      ghost var cut := |node.keys| + 1;
      ghost var ks, vs := node.keys + rightSibling.keys, node.values + rightSibling.values;
      assert ks[..cut] == node.keys + [rightSibling.keys[0]] && ks[cut..] == rightSibling.keys[1..];
      assert vs[..cut] == node.values + [rightSibling.values[0]] && vs[cut..] == rightSibling.values[1..];
      assert ks[cut] == rightSibling.keys[1];
      var borrowedKey, borrowedValue := rightSibling.PopFrontPair();
      assert rightSibling.View().keys == ks[cut..];
      node.PushBackPair(borrowedKey, borrowedValue, ks[cut]);
      parent.SetSeparator(pos, rightSibling.keys[0]);
      HeapStep3(node, rightSibling, parent);
      Levels([rightSibling, node, parent]);
    }

    method FirstChildToBack(node: Node<V>, rightSibling: Node<V>, parent: Node<V>, pos: nat)
      requires node in repr && rightSibling in repr && parent in repr
      requires node != rightSibling && node != parent && rightSibling != parent
      requires Siblings(Heap(), parent, node, rightSibling, pos)
      requires 1 <= |rightSibling.keys| && |rightSibling.children| == |rightSibling.keys| + 1
      requires forall c :: c in rightSibling.children ==> c in repr && c != node && c != rightSibling && c != parent
      modifies repr
      ensures var (a, b, p) := (old(node.View()), old(rightSibling.View()), old(parent.View()));
        Heap() == old(Heap())[rightSibling := InnerHigh(b, b.keys[1..], b.children[1..], b.keys[0])]
                             [node := InnerLow(a, a.keys + [p.keys[pos]], a.children + [b.children[0]], b.keys[0])]
                             [parent := p.(keys := p.keys[pos := b.keys[0]])]
                             [b.children[0] := old(rightSibling.children[0].View()).(parent := Some(node))]
      ensures forall n :: n in repr ==> n.ht == old(n.ht)
    {
      var parentKey := parent.keys[pos];
      ghost var first := rightSibling.children[0];
      var borrowedKey, borrowedChild := rightSibling.PopFrontChild();
      assert borrowedChild == first;
      node.PushBackChild(parentKey, borrowedChild, borrowedKey);
      borrowedChild.parent := node;
      parent.SetSeparator(pos, borrowedKey);
      HeapStep4(rightSibling, node, parent, borrowedChild);
      Levels([rightSibling, node, parent, borrowedChild]);
    }

    // ------------------------------------------------------------------ merge_with_left, merge_with_right

    method MergeWithLeft(node: Node<V>, leftSibling: Node<V>, pos: nat)
      requires node in repr && leftSibling in repr && node.parent != null && Sound({node}, Done)
      requires Siblings(Heap(), node.parent, leftSibling, node, pos)
      requires |node.keys| == MinKeys(degree) - 1 && |leftSibling.keys| == MinKeys(degree)
      modifies this, repr
      ensures Valid() && Shrunk() && contents == old(contents)
      decreases root.ht - node.ht, 0
    {
      var parent := node.parent;
      MergeSiblings(leftSibling, node, parent, pos, node);
      Repair(parent, leftSibling);
    }

    method MergeWithRight(node: Node<V>, rightSibling: Node<V>, pos: nat)
      requires node in repr && rightSibling in repr && node.parent != null && Sound({node}, Done)
      requires Siblings(Heap(), node.parent, node, rightSibling, pos)
      requires |node.keys| == MinKeys(degree) - 1 && |rightSibling.keys| == MinKeys(degree)
      modifies this, repr
      ensures Valid() && Shrunk() && contents == old(contents)
      decreases root.ht - node.ht, 0
    {
      var parent := node.parent;
      MergeSiblings(node, rightSibling, parent, pos, node);
      Repair(parent, node);
    }

    // the common part of the two merges: b empties into a
    method MergeSiblings(a: Node<V>, b: Node<V>, parent: Node<V>, pos: nat, ghost node: Node<V>)
      requires a in repr && b in repr && Sound({node}, Done) && (node == a || node == b)
      requires Siblings(Heap(), parent, a, b, pos)
      requires |a.keys| + |b.keys| + 1 == 2 * MinKeys(degree)
      modifies this`repr, repr
      ensures repr == old(repr) - {b} && a in repr && parent in repr && parent.ht == old(a.ht) + 1 == old(parent.ht)
      ensures Sound({parent}, Done) && !parent.isLeaf && a.ht == old(a.ht)
      ensures parent != root ==> MinKeys(degree) - 1 <= |parent.keys|
      ensures |parent.keys| <= MaxKeys(degree) && parent.ht <= root.ht && root.ht == old(root.ht)
      ensures |parent.keys| + 1 == |old(parent.keys)| && |parent.children| == |parent.keys| + 1
      ensures parent.keys == [] ==> parent.children == [a]
      ensures b != root && a != root && parent != a && old(b.ht) == old(a.ht)
      ensures forall n :: n in repr ==> n.ht == old(n.ht)
    {
      hide Stores;
      ghost var s := Heap();
      SiblingFacts(s, root, parent, a, b, pos);
      assert s[a] == a.View() && s[b] == b.View() && s[parent] == parent.View() && s[root] == root.View();
      assert NodeOk(s, root, Done, parent) && FullEnough(s, root, degree, parent);
      if a.isLeaf {
        JoinLeaves(a, b, parent, pos);
        LeafMergeGood(s, Heap(), root, degree, contents, parent, a, b, pos, node);
      } else {
        MergedChildrenOfB(s, root, parent, a, b, pos);
        JoinInternal(a, b, parent, pos);
        InnerMergeGood(s, Heap(), root, degree, contents, parent, a, b, pos, node);
      }
      assert Heap()[parent] == parent.View() && Heap()[a] == a.View();
    }

    method JoinLeaves(a: Node<V>, b: Node<V>, parent: Node<V>, pos: nat)
      requires a in repr && b in repr && parent in repr && a != b && a != parent && b != parent
      requires a.isLeaf && b.isLeaf && Siblings(Heap(), parent, a, b, pos)
      modifies this`repr, a, parent
      ensures repr == old(repr) - {b} && IsLeafMerge(old(Heap()), Heap(), parent, a, b, pos)
      ensures parent.keys == RemoveAt(old(parent.keys), pos)
        && parent.children == RemoveAt(old(parent.children), pos + 1)
      ensures forall n :: n in old(repr) ==> n.ht == old(n.ht)
    {
      MergeLeaves(a, b, parent, pos);
      assert Heap()[parent] == parent.View();
      repr := repr - {b};
    }

    method MergeLeaves(a: Node<V>, b: Node<V>, parent: Node<V>, pos: nat)
      requires a in repr && b in repr && parent in repr && a != b && a != parent && b != parent
      requires Siblings(Heap(), parent, a, b, pos)
      modifies a, parent
      ensures var s := old(Heap());
        Heap() == s[a := s[a].(keys := s[a].keys + s[b].keys, values := s[a].values + s[b].values,
                               next := s[b].next, hi := s[b].hi)]
                   [parent := s[parent].(keys := RemoveAt(s[parent].keys, pos),
                                         children := RemoveAt(s[parent].children, pos + 1))]
      ensures forall n :: n in repr ==> n.ht == old(n.ht)
    {
      a.AbsorbLeaf(b);
      parent.DropChild(pos);
      HeapStep(a, parent);
      Levels([a, parent]);
    }

    method JoinInternal(a: Node<V>, b: Node<V>, parent: Node<V>, pos: nat)
      requires a in repr && b in repr && parent in repr && a != b && a != parent && b != parent
      requires !a.isLeaf && !b.isLeaf && Siblings(Heap(), parent, a, b, pos)
      requires forall c :: c in b.children ==> c in repr && c != a && c != b && c != parent
      modifies this`repr, repr
      ensures repr == old(repr) - {b} && IsInnerMerge(old(Heap()), Heap(), parent, a, b, pos)
      ensures parent.keys == RemoveAt(old(parent.keys), pos)
        && parent.children == RemoveAt(old(parent.children), pos + 1)
      ensures forall n :: n in old(repr) ==> n.ht == old(n.ht)
    {
      hide LineKeys, RemoveAt, Reparent;
      EmptyInto(a, b, parent, pos);
      assert Heap()[parent] == parent.View() && Heap()[b] == b.View();
      Forget(b);
    }

    ghost method Forget(b: Node<V>)
      modifies this`repr
      ensures repr == old(repr) - {b} && Heap() == old(Heap()) - {b}
    {
      ghost var s := Heap();
      repr := repr - {b};
      assert Heap() == s - {b};
    }

    // b's keys and children move to a, and the children learn their new parent
    method EmptyInto(a: Node<V>, b: Node<V>, parent: Node<V>, pos: nat)
      requires a in repr && b in repr && parent in repr && a != b && a != parent && b != parent
      requires !a.isLeaf && !b.isLeaf && Siblings(Heap(), parent, a, b, pos)
      requires forall c :: c in b.children ==> c in repr && c != a && c != b && c != parent
      modifies repr
      ensures var s := old(Heap());
        Heap() == Reparent(s[a := s[a].(keys := LineKeys(s[a], s[parent].keys[pos], s[b]),
                                        children := s[a].children + s[b].children, hi := s[b].hi)]
                            [parent := s[parent].(keys := RemoveAt(s[parent].keys, pos),
                                                  children := RemoveAt(s[parent].children, pos + 1))],
                           s[b].children, a)
      ensures parent.keys == RemoveAt(old(parent.keys), pos)
        && parent.children == RemoveAt(old(parent.children), pos + 1)
      ensures forall n :: n in repr ==> n.ht == old(n.ht)
    {
      hide LineKeys, RemoveAt;
      MergeInternal(a, b, parent, pos);
      AdoptAll(b.children, a);
      assert Heap()[parent] == parent.View();
    }

    method MergeInternal(a: Node<V>, b: Node<V>, parent: Node<V>, pos: nat)
      requires a in repr && b in repr && parent in repr && a != b && a != parent && b != parent
      requires Siblings(Heap(), parent, a, b, pos)
      modifies a, parent
      ensures var s := old(Heap());
        Heap() == s[a := s[a].(keys := LineKeys(s[a], s[parent].keys[pos], s[b]),
                               children := s[a].children + s[b].children, hi := s[b].hi)]
                   [parent := s[parent].(keys := RemoveAt(s[parent].keys, pos),
                                         children := RemoveAt(s[parent].children, pos + 1))]
      ensures forall n :: n in repr ==> n.ht == old(n.ht)
    {
      a.AbsorbInternal(parent.keys[pos], b);
      parent.DropChild(pos);
      HeapStep(a, parent);
      Levels([a, parent]);
    }

    // the end of the two merges: the parent may now be underfull, or an empty root
    method Repair(parent: Node<V>, merged: Node<V>)
      requires parent in repr && merged in repr && Sound({parent}, Done) && !parent.isLeaf && merged != root
      requires parent != root ==> MinKeys(degree) - 1 <= |parent.keys| <= MaxKeys(degree)
      requires parent == root ==> |parent.keys| <= MaxKeys(degree)
      requires parent.keys == [] ==> parent.children == [merged]
      requires parent.ht == merged.ht + 1 && parent.ht <= root.ht
      modifies this, repr
      ensures Valid() && Shrunk() && contents == old(contents)
      decreases root.ht - parent.ht, 2
    {
      ghost var s := Heap();
      assert s[parent] == parent.View() && s[merged] == merged.View();
      if parent != root && |parent.keys| < degree - 1 {
        HandleUnderflow(parent);
      } else if parent == root && |parent.keys| == 0 {
        root := merged;
        merged.parent := null;
        repr := repr - {parent};
        assert Heap() == (s - {parent})[merged := s[merged].(parent := None)];
        CollapseGood(s, Heap(), parent, degree, contents, merged);
      }
    }

    // ------------------------------------------------------------------ forEachKey

    // The keys in the order in which forEachKey hands them to its callback.
    method ForEachKey() returns (out: seq<int>)
      requires Valid()
      ensures Sorted(out)
      ensures forall k :: k in out <==> k in contents
    {
      ghost var s := Heap();
      var leaf := root;
      assert NodeOk(s, root, Done, root) && s[root] == root.View();
      while !leaf.isLeaf
        invariant leaf in repr && leaf.lo == None
        decreases leaf.ht
      {
        assert NodeOk(s, root, Done, leaf) && s[leaf] == leaf.View();
        assert ChildOk(s, Done, leaf, 0);
        leaf := leaf.children[0];
        assert s[leaf] == leaf.View();
      }
      var cur: Node?<V> := leaf;
      out := [];
      while cur != null
        invariant cur != null ==> cur in repr && cur.isLeaf
        invariant Sorted(out)
        invariant forall k :: k in out <==> k in contents && (cur == null || Before(k, cur.lo))
        decreases if cur == null then {} else Rest(s, cur)
      {
        assert NodeOk(s, root, Done, cur) && s[cur] == cur.View() && Holds(s[cur], contents);
        AppendLeaf(s[cur], contents, out);
        out := VisitLeaf(cur, out);
        RestHas(s, cur);
        if cur.next != null {
          assert NodeOk(s, root, Done, cur.next) && s[cur.next] == cur.next.View();
          RestShrinks(s, cur, cur.next);
        }
        cur := cur.next;
      }
    }

    // the inner loop of forEachKey
    method VisitLeaf(leaf: Node<V>, out: seq<int>) returns (longer: seq<int>)
      ensures longer == out + leaf.keys
    {
      longer := out;
      for i := 0 to |leaf.keys|
        invariant longer == out + leaf.keys[..i]
      {
        longer := longer + [leaf.keys[i]];
        assert leaf.keys[..i + 1] == leaf.keys[..i] + [leaf.keys[i]];
      }
      assert leaf.keys[..|leaf.keys|] == leaf.keys;
    }
  }

  ghost predicate Before(k: int, lo: Option<int>) {
    lo.Some? && k < lo.value
  }

  // the nodes at or behind n
  ghost function Rest<N, V>(s: Store<N, V>, n: N): set<N>
    requires n in s
  {
    set x | x in s && (x == n || Below(s[n].hi, s[x].lo))
  }

  lemma RestHas<N, V>(s: Store<N, V>, n: N)
    requires n in s
    ensures {} < Rest(s, n)
  {
    assert n in Rest(s, n);
  }

  lemma RestShrinks<N, V>(s: Store<N, V>, n: N, m: N)
    requires n in s && m in s && s[n].hi.Some? && s[m].lo == s[n].hi
    requires Proper(s[n].lo, s[n].hi) && Proper(s[m].lo, s[m].hi)
    ensures Rest(s, m) < Rest(s, n)
  {
    assert n !in Rest(s, m);
    assert n in Rest(s, n);
  }

  // All keys below the leaf, followed by the keys of the leaf, are all keys below its end.
  lemma AppendLeaf<N, V>(r: Rec<N, V>, m: map<int, V>, seen: seq<int>)
    requires RecOk(r) && Holds(r, m) && Sorted(seen)
    requires forall k :: k in seen <==> k in m && Before(k, r.lo)
    ensures Sorted(seen + r.keys)
    ensures forall k :: k in seen + r.keys <==> k in m && (r.hi.Some? ==> k < r.hi.value)
  {
    forall k | k in r.keys
      ensures Within(r.lo, r.hi, k) && k in m
    {
      var i :| 0 <= i < |r.keys| && r.keys[i] == k;
    }
    forall i, j | 0 <= i < j < |seen + r.keys|
      ensures (seen + r.keys)[i] < (seen + r.keys)[j]
    {
      if i < |seen| { assert seen[i] in seen; }
      if j >= |seen| { assert r.keys[j - |seen|] in r.keys; }
    }
    forall k | k in m && (r.hi.Some? ==> k < r.hi.value)
      ensures k in seen + r.keys
    {
      assert Before(k, r.lo) || Within(r.lo, r.hi, k);
    }
  }

  // An underfull node that is not the root has a parent with at least two children.
  lemma UnderflowFacts<V>(s: Store<Node<V>, V>, root: Node<V>, d: nat, m: map<int, V>, node: Node<V>, parent: Node<V>)
    requires Good(s, root, d, m, {node}, Done) && node in s && s[node].parent == Some(parent)
    ensures node != root && parent in s && node != parent && node in s[parent].children && !s[parent].isLeaf
    ensures |s[parent].children| == |s[parent].keys| + 1 && 1 <= |s[parent].keys|
    ensures s[parent].ht == s[node].ht + 1 && s[parent].ht <= s[root].ht
  {
    assert NodeOk(s, root, Done, node) && NodeOk(s, root, Done, parent);
    ParentHeight(s, root, node);
    assert FullEnough(s, root, d, parent);
  }

  // What a leaf knows about a key in its interval.
  lemma LeafHolds<V>(s: Store<Node<V>, V>, root: Node<V>, d: nat, m: map<int, V>, leaf: Node<V>, key: int)
    requires Good(s, root, d, m, {}, Done) && leaf in s && s[leaf].isLeaf && Within(s[leaf].lo, s[leaf].hi, key)
    ensures |s[leaf].keys| == |s[leaf].values| && (key in s[leaf].keys <==> key in m)
  {
    assert NodeOk(s, root, Done, leaf) && Holds(s[leaf], m);
    if key in s[leaf].keys {
      var i :| 0 <= i < |s[leaf].keys| && s[leaf].keys[i] == key;
    }
  }

  lemma RootHasNoParent<V>(s: Store<Node<V>, V>, root: Node<V>, d: nat, m: map<int, V>, node: Node<V>)
    requires Good(s, root, d, m, {node}, Done) && node in s
    ensures s[node].parent == None ==> node == root
    ensures s[node].parent.Some? ==> s[node].parent.value in s
  {
    assert NodeOk(s, root, Done, node);
  }

  // Next to an underfull node the siblings have enough keys.
  lemma SiblingIsFull<V>(s: Store<Node<V>, V>, root: Node<V>, d: nat, m: map<int, V>, p: Node<V>, a: Node<V>,
                         b: Node<V>, pos: nat, node: Node<V>)
    requires Good(s, root, d, m, {node}, Done) && Siblings(s, p, a, b, pos) && (node == a || node == b)
    ensures a in s && b in s && a != b
    ensures var sibling := if node == a then b else a; MinKeys(d) <= |s[sibling].keys| <= MaxKeys(d)
  {
    SiblingFacts(s, root, p, a, b, pos);
    assert FullEnough(s, root, d, if node == a then b else a);
  }

  lemma ChildrenLive<V>(s: Store<Node<V>, V>, root: Node<V>, n: Node<V>)
    requires Shape(s, root, Done) && n in s
    ensures n !in s[n].children && forall c :: c in s[n].children ==> c in s
  {
    assert NodeOk(s, root, Done, n);
    forall c | c in s[n].children
      ensures c in s && c != n
    {
      var i :| 0 <= i < |s[n].children| && s[n].children[i] == c;
      assert ChildOk(s, Done, n, i);
    }
  }
}
