/**
  The steps of insertion and deletion once more, now with the number of keys in each node: what
  each step needs, what it leaves over- or underfull, and that the stored map never changes.
*/
module BPlusSteps {
  import opened Common
  import opened BPlusStore
  import opened BPlusInsert
  import opened BPlusDelete
  import opened BPlusRebalance

  // ---------------------------------------------------------------- growing

  // Splitting a leaf of 2 * d keys in the middle leaves two admissible halves.
  lemma SplitLeafGood<N, V>(s: Store<N, V>, s': Store<N, V>, root: N, d: nat, m: map<int, V>, leaf: N, right: N)
    requires Good(s, root, d, m, {leaf}, Done)
    requires leaf in s && s[leaf].isLeaf && right !in s && |s[leaf].keys| == |s[leaf].values| == 2 * d
    requires s' == s[leaf := LeafLeft(s[leaf], d, right)][right := LeafRight(s[leaf], d)]
    ensures Good(s', root, d, m, {}, Split(leaf, right))
    ensures |s'[leaf].keys| == d && s'[right].lo == Some(s[leaf].keys[d])
  {
    SplitLeafShape(s, s', root, leaf, right, d);
    SplitLeafStores(s, s', root, leaf, right, d, m);
    forall n | n in s'
      ensures FullEnough(s', root, d, n)
    {
      if n != leaf && n != right { assert FullEnough(s, root, d, n); }
    }
  }

  lemma NewRootGood<N, V>(s: Store<N, V>, s': Store<N, V>, root: N, d: nat, m: map<int, V>, right: N, top: N)
    requires Good(s, root, d, m, {}, Split(root, right)) && MinKeys(d) <= |s[root].keys|
    requires IsNewRoot(s, s', root, right, top)
    ensures Good(s', top, d, m, {}, Done)
  {
    NewRootShape(s, s', root, right, top);
    SameLeavesStores(s, s', m);
    forall n | n in s'
      ensures FullEnough(s', top, d, n)
    {
      if n != top { assert FullEnough(s, root, d, n); }
    }
  }

  // Linking the right half below the parent may leave the parent one key too full.
  lemma ParentInsertGood<N, V>(s: Store<N, V>, s': Store<N, V>, root: N, d: nat, m: map<int, V>, left: N, right: N,
                               p: N, pos: nat)
    requires Good(s, root, d, m, {}, Split(left, right))
    requires IsParentInsert(s, s', root, left, right, p, pos)
    ensures Good(s', root, d, m, {p}, Done)
    ensures |s'[p].keys| <= 2 * d && !s'[p].isLeaf && (|s'[p].keys| < 2 * d ==> Good(s', root, d, m, {}, Done))
    ensures forall n :: n in s ==> n in s' && s'[n].ht == s[n].ht
    ensures s[left].ht + 1 == s[p].ht
  {
    ParentInsertRec(s, s', root, left, right, p, pos);
    ParentInsertShape(s, s', root, left, right, p, pos);
    SameLeavesStores(s, s', m);
    assert FullEnough(s, root, d, p);
    forall n | n in s' && n != p
      ensures FullEnough(s', root, d, n)
    {
      assert FullEnough(s, root, d, n);
    }
  }

  lemma InnerSplitGood<N, V>(s: Store<N, V>, s': Store<N, V>, root: N, d: nat, m: map<int, V>, node: N, right: N)
    requires Good(s, root, d, m, {node}, Done)
    requires node in s && |s[node].keys| == 2 * d
    requires IsInnerSplit(s, s', root, node, right, d)
    ensures node in s' && right in s' && Good(s', root, d, m, {}, Split(node, right))
    ensures |s'[node].keys| == d && s'[right].lo == Some(s[node].keys[d])
    ensures forall n :: n in s ==> n in s' && s'[n].ht == s[n].ht
  {
    InnerSplitShape(s, s', root, node, right, d);
    InnerSplitFrame(s, s', root, node, right, d);
    SameLeavesStores(s, s', m);
    forall n | n in s'
      ensures FullEnough(s', root, d, n)
    {
      if n != node && n != right { assert FullEnough(s, root, d, n); }
    }
  }

  // ---------------------------------------------------------------- shrinking

  lemma RemoveGood<N, V>(s: Store<N, V>, s': Store<N, V>, root: N, d: nat, m: map<int, V>, leaf: N, pos: nat)
    requires Good(s, root, d, m, {}, Done)
    requires leaf in s && s[leaf].isLeaf && pos < |s[leaf].keys| == |s[leaf].values|
    requires s' == s[leaf := Removed(s[leaf], pos)]
    ensures Good(s', root, d, m - {s[leaf].keys[pos]}, {leaf}, Done)
    ensures leaf == root || MinKeys(d) <= |s'[leaf].keys| ==> Good(s', root, d, m - {s[leaf].keys[pos]}, {}, Done)
    ensures leaf != root ==> MinKeys(d) - 1 <= |s'[leaf].keys|
  {
    RemoveFromLeaf(s, root, leaf, pos, m);
    assert FullEnough(s, root, d, leaf);
    forall n | n in s' && n != leaf
      ensures FullEnough(s', root, d, n)
    {
      assert FullEnough(s, root, d, n);
    }
  }

  // After a borrow the two siblings and everything else are admissible again.
  lemma LeafBorrowGood<N, V>(s: Store<N, V>, s': Store<N, V>, root: N, d: nat, m: map<int, V>, p: N, a: N, b: N,
                             pos: nat, cut: nat, node: N)
    requires Good(s, root, d, m, {node}, Done) && (node == a || node == b)
    requires IsLeafRecut(s, s', p, a, b, pos, cut)
    requires MinKeys(d) <= cut <= MaxKeys(d) && MinKeys(d) <= |s[a].keys| + |s[b].keys| - cut <= MaxKeys(d)
    ensures Good(s', root, d, m, {}, Done)
  {
    SiblingFacts(s, root, p, a, b, pos);
    LeafRecut(s, s', root, p, a, b, pos, cut, m);
    forall n | n in s'
      ensures FullEnough(s', root, d, n)
    {
      if n != a && n != b { assert FullEnough(s, root, d, n); }
    }
  }

  lemma InnerBorrowGood<N, V>(s: Store<N, V>, s': Store<N, V>, root: N, d: nat, m: map<int, V>, p: N, a: N, b: N,
                              pos: nat, cut: nat, node: N)
    requires Good(s, root, d, m, {node}, Done) && (node == a || node == b)
    requires IsInnerRecut(s, s', p, a, b, pos, cut)
    requires MinKeys(d) <= cut <= MaxKeys(d) && MinKeys(d) <= |s[a].keys| + |s[b].keys| - cut <= MaxKeys(d)
    ensures Good(s', root, d, m, {}, Done)
  {
    SiblingFacts(s, root, p, a, b, pos);
    InnerRecutShape(s, s', root, p, a, b, pos, cut);
    CutSides(s, root, p, a, b, pos, cut);
    InnerRecutFrame(s, s', p, a, b, pos, cut);
    SameLeavesStores(s, s', m);
    forall n | n in s'
      ensures FullEnough(s', root, d, n)
    {
      if n != a && n != b { assert FullEnough(s, root, d, n); }
    }
  }

  // The last key and child of a move to the front of b.
  lemma LastToFront<N, V>(s: Store<N, V>, s': Store<N, V>, root: N, p: N, a: N, b: N, pos: nat, n: nat)
    requires Shape(s, root, Done) && Siblings(s, p, a, b, pos) && a in s && b in s && !s[a].isLeaf
    requires n + 1 == |s[a].keys| && |s[a].children| == n + 2 && s[a].children[n + 1] in s
    requires s' == s[a := InnerLow(s[a], s[a].keys[..n], s[a].children[..n + 1], s[a].keys[n])]
                    [b := InnerHigh(s[b], [s[p].keys[pos]] + s[b].keys, [s[a].children[n + 1]] + s[b].children,
                      s[a].keys[n])]
                    [p := s[p].(keys := s[p].keys[pos := s[a].keys[n]])]
                    [s[a].children[n + 1] := s[s[a].children[n + 1]].(parent := Some(b))]
    ensures IsInnerRecut(s, s', p, a, b, pos, n)
  {
    SiblingFacts(s, root, p, a, b, pos);
    var cut := n;
    CutSides(s, root, p, a, b, pos, cut);
    var ks, cs := LineKeys(s[a], s[p].keys[pos], s[b]), s[a].children + s[b].children;
    assert ks[..cut] == s[a].keys[..cut] && ks[cut + 1..] == [s[p].keys[pos]] + s[b].keys;
    assert cs[..cut + 1] == s[a].children[..cut + 1] && cs[cut + 1..] == [s[a].children[cut + 1]] + s[b].children;
    RecutMoves(s, s', root, p, a, b, pos, cut, cut + 1);
  }

  // The first key and child of b move to the end of a.
  lemma FirstToBack<N, V>(s: Store<N, V>, s': Store<N, V>, root: N, p: N, a: N, b: N, pos: nat)
    requires Shape(s, root, Done) && Siblings(s, p, a, b, pos) && a in s && b in s && !s[b].isLeaf
    requires 0 < |s[b].keys| && |s[b].children| == |s[b].keys| + 1 && s[b].children[0] in s
    requires s' == s[b := InnerHigh(s[b], s[b].keys[1..], s[b].children[1..], s[b].keys[0])]
                    [a := InnerLow(s[a], s[a].keys + [s[p].keys[pos]], s[a].children + [s[b].children[0]],
                      s[b].keys[0])]
                    [p := s[p].(keys := s[p].keys[pos := s[b].keys[0]])]
                    [s[b].children[0] := s[s[b].children[0]].(parent := Some(a))]
    ensures IsInnerRecut(s, s', p, a, b, pos, |s[a].keys| + 1)
  {
    SiblingFacts(s, root, p, a, b, pos);
    var cut := |s[a].keys| + 1;
    CutSides(s, root, p, a, b, pos, cut);
    var ks, cs := LineKeys(s[a], s[p].keys[pos], s[b]), s[a].children + s[b].children;
    assert ks[..cut] == s[a].keys + [s[p].keys[pos]] && ks[cut + 1..] == s[b].keys[1..] && ks[cut] == s[b].keys[0];
    assert cs[..cut + 1] == s[a].children + [s[b].children[0]] && cs[cut + 1..] == s[b].children[1..];
    assert cs[cut] == s[b].children[0];
    RecutMoves(s, s', root, p, a, b, pos, cut, cut);
  }

  // When only child i of the line changes sides, dealing out all children moves just that one.
  lemma RecutMoves<N, V>(s: Store<N, V>, s': Store<N, V>, root: N, p: N, a: N, b: N, pos: nat, cut: nat, i: nat)
    requires Shape(s, root, Done) && Siblings(s, p, a, b, pos) && a in s && b in s && !s[a].isLeaf && !s[b].isLeaf
    requires cut <= |s[a].keys| + |s[b].keys| && i < |s[a].children| + |s[b].children|
    requires |s[a].children| == |s[a].keys| + 1 && |s[b].children| == |s[b].keys| + 1
    requires (cut + 2 == |s[a].children| && i == cut + 1) || (cut == |s[a].children| == i)
    requires var ks, cs := LineKeys(s[a], s[p].keys[pos], s[b]), s[a].children + s[b].children;
      cs[i] in s &&
      s' == s[a := InnerLow(s[a], ks[..cut], cs[..cut + 1], ks[cut])]
             [b := InnerHigh(s[b], ks[cut + 1..], cs[cut + 1..], ks[cut])]
             [p := s[p].(keys := s[p].keys[pos := ks[cut]])]
             [cs[i] := s[cs[i]].(parent := if i <= cut then Some(a) else Some(b))]
    ensures IsInnerRecut(s, s', p, a, b, pos, cut)
  {
    SiblingFacts(s, root, p, a, b, pos);
    CutSides(s, root, p, a, b, pos, cut);
    var ks, cs := LineKeys(s[a], s[p].keys[pos], s[b]), s[a].children + s[b].children;
    forall j | 0 <= j < |cs| && j != i
      ensures cs[j] != cs[i] && s[cs[j]].parent == if j <= cut then Some(a) else Some(b)
    {
      LineChild(s, root, p, a, b, pos, j);
      if j < i { LineDistinct(s, root, p, a, b, pos, j, i); } else { LineDistinct(s, root, p, a, b, pos, i, j); }
    }
    var t := s[a := InnerLow(s[a], ks[..cut], cs[..cut + 1], ks[cut])]
              [b := InnerHigh(s[b], ks[cut + 1..], cs[cut + 1..], ks[cut])]
              [p := s[p].(keys := s[p].keys[pos := ks[cut]])];
    hide Dealt, InnerLow, InnerHigh, LineKeys, Shape, Siblings;
    DealtByOne(t, s', cs, cut, i, a, b);
  }

  // When all children of the line but one have the right parent, setting that one's deals all.
  lemma DealtByOne<N, V>(t: Store<N, V>, s': Store<N, V>, cs: seq<N>, cut: nat, i: nat, a: N, b: N)
    requires cut + 1 <= |cs| && i < |cs|
    requires forall j :: 0 <= j < |cs| ==>
      && cs[j] in t && (cs[j] in cs[..cut + 1] <==> j <= cut)
      && (j > cut ==> cs[j] in cs[cut + 1..])
    requires forall x :: x in cs[..cut + 1] || x in cs[cut + 1..] ==> x in cs
    requires forall j :: 0 <= j < |cs| && j != i ==> cs[j] != cs[i] && t[cs[j]].parent == if j <= cut then Some(a)
      else Some(b)
    requires s' == t[cs[i] := t[cs[i]].(parent := if i <= cut then Some(a) else Some(b))]
    ensures s' == Dealt(t, cs[..cut + 1], cs[cut + 1..], a, b)
  {
    forall x | x in t
      ensures x in cs[..cut + 1] ==> s'[x] == t[x].(parent := Some(a))
      ensures x !in cs[..cut + 1] && x in cs[cut + 1..] ==> s'[x] == t[x].(parent := Some(b))
      ensures x !in cs[..cut + 1] && x !in cs[cut + 1..] ==> s'[x] == t[x]
    {
      if x in cs {
        var j :| 0 <= j < |cs| && cs[j] == x;
      }
    }
  }

  lemma LeafMergeGood<N, V>(s: Store<N, V>, s': Store<N, V>, root: N, d: nat, m: map<int, V>, p: N, a: N, b: N,
                            pos: nat, node: N)
    requires Good(s, root, d, m, {node}, Done) && (node == a || node == b)
    requires IsLeafMerge(s, s', p, a, b, pos)
    requires MinKeys(d) <= |s[a].keys| + |s[b].keys| <= MaxKeys(d)
    ensures Good(s', root, d, m, {p}, Done)
    ensures p in s' && a in s' && p != root ==> MinKeys(d) - 1 <= |s'[p].keys| <= MaxKeys(d)
  {
    SiblingFacts(s, root, p, a, b, pos);
    LeafMerge(s, s', root, p, a, b, pos, m);
    assert FullEnough(s, root, d, p);
    forall n | n in s' && n != p
      ensures FullEnough(s', root, d, n)
    {
      if n != a { assert FullEnough(s, root, d, n); }
    }
  }

  lemma InnerMergeGood<N, V>(s: Store<N, V>, s': Store<N, V>, root: N, d: nat, m: map<int, V>, p: N, a: N, b: N,
                             pos: nat, node: N)
    requires Good(s, root, d, m, {node}, Done) && (node == a || node == b)
    requires IsInnerMerge(s, s', p, a, b, pos)
    requires MinKeys(d) <= |s[a].keys| + |s[b].keys| + 1 <= MaxKeys(d)
    ensures Good(s', root, d, m, {p}, Done)
    ensures p in s' && a in s' && p != root ==> MinKeys(d) - 1 <= |s'[p].keys| <= MaxKeys(d)
  {
    SiblingFacts(s, root, p, a, b, pos);
    MergedChildrenOfB(s, root, p, a, b, pos);
    InnerMergeShape(s, s', root, p, a, b, pos);
    SameLeavesStores(s, s', m);
    assert FullEnough(s, root, d, p);
    forall n | n in s' && n != p
      ensures FullEnough(s', root, d, n)
    {
      if n != a { assert FullEnough(s, root, d, n); }
    }
  }

  lemma CollapseGood<N, V>(s: Store<N, V>, s': Store<N, V>, root: N, d: nat, m: map<int, V>, child: N)
    requires Good(s, root, d, m, {root}, Done) && !s[root].isLeaf && s[root].keys == [] && s[root].children == [child]
    requires child in s && child != root && s' == (s - {root})[child := s[child].(parent := None)]
    ensures Good(s', child, d, m, {}, Done)
  {
    CollapseShape(s, s', root, child);
    SameLeavesStores(s, s', m);
    assert FullEnough(s, root, d, child);
    forall n | n in s'
      ensures FullEnough(s', child, d, n)
    {
      assert FullEnough(s, root, d, n);
    }
  }
}
