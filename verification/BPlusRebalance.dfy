/**
  The six rebalancing moves of storageTree.hpp:230-369 (borrow from the left or right sibling,
  merge two siblings; each for leaves and for internal nodes) as instances of the two general
  steps of BPlusDelete.
*/
module BPlusRebalance {
  import opened Common
  import opened BPlusStore
  import opened BPlusInsert
  import opened BPlusDelete

  // ---------------------------------------------------------------- leaves

  // The leaves a and b with the keys ks, k2s and values vs, v2s and the boundary sep.
  ghost function LeafLow<N, V>(r: Rec<N, V>, ks: seq<int>, vs: seq<V>, sep: int): Rec<N, V> {
    r.(keys := ks, values := vs, hi := Some(sep))
  }

  ghost function LeafHigh<N, V>(r: Rec<N, V>, ks: seq<int>, vs: seq<V>, sep: int): Rec<N, V> {
    r.(keys := ks, values := vs, lo := Some(sep))
  }

  // However the keys of two neighbouring leaves are cut again, both halves stay good leaves.
  lemma RecutLeaves<N, V>(a: Rec<N, V>, b: Rec<N, V>, cut: nat)
    requires RecOk(a) && RecOk(b) && a.isLeaf && b.isLeaf && a.hi.Some? && a.hi == b.lo
    requires 0 < cut < |a.keys| + |b.keys|
    ensures var ks, vs := a.keys + b.keys, a.values + b.values;
      && RecOk(LeafLow(a, ks[..cut], vs[..cut], ks[cut]))
      && RecOk(LeafHigh(b, ks[cut..], vs[cut..], ks[cut]))
  {
    var ks, vs := a.keys + b.keys, a.values + b.values;
    assert forall i :: 0 <= i < |a.keys| ==> Within(a.lo, a.hi, a.keys[i]);
    assert forall i :: 0 <= i < |b.keys| ==> Within(b.lo, b.hi, b.keys[i]);
    assert Sorted(ks);
    var p, q := LeafLow(a, ks[..cut], vs[..cut], ks[cut]), LeafHigh(b, ks[cut..], vs[cut..], ks[cut]);
    assert a.lo.Some? ==> a.lo.value <= ks[0] < ks[cut];
    assert b.hi.Some? ==> ks[cut] < b.hi.value;
    forall i | 0 <= i < |ks|
      ensures i < cut ==> Within(p.lo, p.hi, ks[i])
      ensures i >= cut ==> Within(q.lo, q.hi, ks[i])
    {
    }
    forall i | 0 <= i < |q.keys|
      ensures Within(q.lo, q.hi, q.keys[i])
    {
      assert q.keys[i] == ks[cut + i];
    }
  }

  // Two leaves side by side, read as one, are sorted and hold what the map does.
  lemma JoinedHolds<N, V>(a: Rec<N, V>, b: Rec<N, V>, m: map<int, V>)
    requires RecOk(a) && RecOk(b) && a.isLeaf && b.isLeaf && a.hi.Some? && a.hi == b.lo
    requires Holds(a, m) && Holds(b, m)
    ensures var ks, vs := a.keys + b.keys, a.values + b.values;
      Sorted(ks) && forall i {:trigger ks[i]} :: 0 <= i < |ks| ==> ks[i] in m && m[ks[i]] == vs[i]
  {
    var ks := a.keys + b.keys;
    assert forall i :: 0 <= i < |a.keys| ==> Within(a.lo, a.hi, a.keys[i]);
    assert forall i :: 0 <= i < |b.keys| ==> Within(b.lo, b.hi, b.keys[i]);
    forall i | 0 <= i < |ks|
      ensures ks[i] in m && m[ks[i]] == (a.values + b.values)[i]
    {
      if i >= |a.keys| { assert ks[i] == b.keys[i - |a.keys|]; } else { assert ks[i] == a.keys[i]; }
    }
  }

  lemma RecutHolds<N, V>(a: Rec<N, V>, b: Rec<N, V>, cut: nat, m: map<int, V>)
    requires RecOk(a) && RecOk(b) && a.isLeaf && b.isLeaf && a.hi.Some? && a.hi == b.lo
    requires 0 < cut < |a.keys| + |b.keys| && Holds(a, m) && Holds(b, m)
    ensures var ks, vs := a.keys + b.keys, a.values + b.values;
      && Holds(LeafLow(a, ks[..cut], vs[..cut], ks[cut]), m)
      && Holds(LeafHigh(b, ks[cut..], vs[cut..], ks[cut]), m)
  {
    var ks, vs := a.keys + b.keys, a.values + b.values;
    var p, q := LeafLow(a, ks[..cut], vs[..cut], ks[cut]), LeafHigh(b, ks[cut..], vs[cut..], ks[cut]);
    RecutLeaves(a, b, cut);
    JoinedHolds(a, b, m);
    forall k | k in m && (Within(p.lo, p.hi, k) || Within(q.lo, q.hi, k))
      ensures if k < ks[cut] then k in p.keys else k in q.keys
    {
      assert Within(a.lo, a.hi, k) || Within(b.lo, b.hi, k);
      var j := JoinedIndex(a.keys, b.keys, k);
      if j < cut { assert p.keys[j] == k; } else { assert q.keys[j - cut] == k; }
    }
  }

  lemma JoinedIndex(s: seq<int>, t: seq<int>, k: int) returns (j: nat)
    requires k in s || k in t
    ensures j < |s + t| && (s + t)[j] == k
  {
    if k in s {
      j :| 0 <= j < |s| && s[j] == k;
    } else {
      var i :| 0 <= i < |t| && t[i] == k;
      j := |s| + i;
    }
  }

  ghost predicate IsLeafRecut<N, V>(s: Store<N, V>, s': Store<N, V>, p: N, a: N, b: N, pos: nat, cut: nat) {
    && Siblings(s, p, a, b, pos) && a in s && b in s && s[a].isLeaf && s[b].isLeaf
    && |s[a].keys| == |s[a].values| && |s[b].keys| == |s[b].values|
    && 0 < cut < |s[a].keys| + |s[b].keys|
    && var ks, vs := s[a].keys + s[b].keys, s[a].values + s[b].values;
       s' == s[a := LeafLow(s[a], ks[..cut], vs[..cut], ks[cut])]
              [b := LeafHigh(s[b], ks[cut..], vs[cut..], ks[cut])]
              [p := s[p].(keys := s[p].keys[pos := ks[cut]])]
  }

  lemma LeafIsNoParent<N, V>(s: Store<N, V>, root: N, a: N)
    requires Shape(s, root, Done) && a in s && s[a].isLeaf
    ensures forall x :: x in s ==> s[x].parent != Some(a)
  {
    forall x | x in s
      ensures s[x].parent != Some(a)
    {
      assert NodeOk(s, root, Done, x);
    }
  }

  lemma LeafRecutIsResplit<N, V>(s: Store<N, V>, s': Store<N, V>, p: N, a: N, b: N, pos: nat, cut: nat)
    requires IsLeafRecut(s, s', p, a, b, pos, cut) && a != b && a != p && b != p
    requires RecOk(s[a]) && RecOk(s[b]) && s[a].hi.Some? && s[a].hi == s[b].lo
    requires forall x :: x in s ==> s[x].parent != Some(a) && s[x].parent != Some(b)
    ensures Resplit(s, s', p, a, b, pos, (s[a].keys + s[b].keys)[cut])
  {
    RecutLeaves(s[a], s[b], cut);
  }

  lemma LeafRecut<N, V>(s: Store<N, V>, s': Store<N, V>, root: N, p: N, a: N, b: N, pos: nat, cut: nat, m: map<int, V>)
    requires Shape(s, root, Done) && Stores(s, m) && IsLeafRecut(s, s', p, a, b, pos, cut)
    ensures Shape(s', root, Done) && Stores(s', m)
  {
    SiblingFacts(s, root, p, a, b, pos);
    LeafIsNoParent(s, root, a);
    LeafIsNoParent(s, root, b);
    LeafRecutIsResplit(s, s', p, a, b, pos, cut);
    ResplitShape(s, s', root, p, a, b, pos, (s[a].keys + s[b].keys)[cut]);
    assert Stores(s', m) by { RecutHolds(s[a], s[b], cut, m); }
  }

  ghost predicate IsLeafMerge<N, V>(s: Store<N, V>, s': Store<N, V>, p: N, a: N, b: N, pos: nat) {
    && Siblings(s, p, a, b, pos) && a in s && b in s && s[a].isLeaf && s[b].isLeaf
    && s' == s[a := s[a].(keys := s[a].keys + s[b].keys, values := s[a].values + s[b].values,
                          next := s[b].next, hi := s[b].hi)]
              [p := s[p].(keys := RemoveAt(s[p].keys, pos), children := RemoveAt(s[p].children, pos + 1))]
             - {b}
  }

  lemma LeafMergeIsMerge<N, V>(s: Store<N, V>, s': Store<N, V>, p: N, a: N, b: N, pos: nat)
    requires IsLeafMerge(s, s', p, a, b, pos) && a != b && a != p && b != p
    requires RecOk(s[a]) && RecOk(s[b]) && s[a].hi.Some? && s[a].hi == s[b].lo
    requires forall x :: x in s ==> s[x].parent != Some(a) && s[x].parent != Some(b)
    ensures Merge(s, s', p, a, b, pos)
  {
    assert RecOk(s'[a]) by {
      assert forall i :: 0 <= i < |s[a].keys| ==> Within(s[a].lo, s[a].hi, s[a].keys[i]);
      assert forall i :: 0 <= i < |s[b].keys| ==> Within(s[b].lo, s[b].hi, s[b].keys[i]);
    }
  }

  lemma LeafMerge<N, V>(s: Store<N, V>, s': Store<N, V>, root: N, p: N, a: N, b: N, pos: nat, m: map<int, V>)
    requires Shape(s, root, Done) && Stores(s, m) && IsLeafMerge(s, s', p, a, b, pos)
    ensures Shape(s', root, Done) && Stores(s', m)
  {
    SiblingFacts(s, root, p, a, b, pos);
    LeafIsNoParent(s, root, a);
    LeafIsNoParent(s, root, b);
    LeafMergeIsMerge(s, s', p, a, b, pos);
    MergeShape(s, s', root, p, a, b, pos);
    LeafMergeStores(s, s', p, a, b, pos, m);
  }

  lemma LeafMergeStores<N, V>(s: Store<N, V>, s': Store<N, V>, p: N, a: N, b: N, pos: nat, m: map<int, V>)
    requires IsLeafMerge(s, s', p, a, b, pos) && Stores(s, m) && a != b && a != p && b != p
    requires RecOk(s[a]) && RecOk(s[b]) && s[a].hi.Some? && s[a].hi == s[b].lo
    ensures Stores(s', m)
  {
    assert Holds(s[a], m) && Holds(s[b], m);
    MergedHolds(s[a], s[b], s'[a], m);
    forall n | n in s' && s'[n].isLeaf
      ensures Holds(s'[n], m)
    {
      if n != a {
        assert s'[n] == s[n];
        assert Holds(s[n], m);
      }
    }
  }

  lemma MergedPairs<N, V>(a: Rec<N, V>, b: Rec<N, V>, c: Rec<N, V>, m: map<int, V>)
    requires |a.keys| == |a.values| && |b.keys| == |b.values| && Holds(a, m) && Holds(b, m)
    requires c.keys == a.keys + b.keys && c.values == a.values + b.values
    ensures forall i :: 0 <= i < |c.keys| ==> c.keys[i] in m && m[c.keys[i]] == c.values[i]
  {
    forall i | 0 <= i < |c.keys|
      ensures c.keys[i] in m && m[c.keys[i]] == c.values[i]
    {
      if i >= |a.keys| { assert c.keys[i] == b.keys[i - |a.keys|]; } else { assert c.keys[i] == a.keys[i]; }
    }
  }

  lemma MergedHolds<N, V>(a: Rec<N, V>, b: Rec<N, V>, c: Rec<N, V>, m: map<int, V>)
    requires RecOk(a) && RecOk(b) && Holds(a, m) && Holds(b, m)
    requires a.hi.Some? && a.hi == b.lo && c.lo == a.lo && c.hi == b.hi
    requires c.keys == a.keys + b.keys && c.values == a.values + b.values
    ensures Holds(c, m)
  {
    MergedPairs(a, b, c, m);
    forall k | k in m && Within(c.lo, c.hi, k)
      ensures k in c.keys
    {
      assert Within(a.lo, a.hi, k) || Within(b.lo, b.hi, k);
      var j := JoinedIndex(a.keys, b.keys, k);
    }
  }

  // ---------------------------------------------------------------- internal nodes

  // Two neighbouring internal nodes and the separator between them, laid out in one line.
  ghost function LineKeys<N, V>(a: Rec<N, V>, sep: int, b: Rec<N, V>): seq<int> {
    a.keys + [sep] + b.keys
  }

  ghost function InnerLow<N, V>(r: Rec<N, V>, ks: seq<int>, cs: seq<N>, sep: int): Rec<N, V> {
    r.(keys := ks, children := cs, hi := Some(sep))
  }

  ghost function InnerHigh<N, V>(r: Rec<N, V>, ks: seq<int>, cs: seq<N>, sep: int): Rec<N, V> {
    r.(keys := ks, children := cs, lo := Some(sep))
  }

  lemma LineFacts<N, V>(a: Rec<N, V>, sep: int, b: Rec<N, V>)
    requires RecOk(a) && RecOk(b) && !a.isLeaf && !b.isLeaf && a.hi == Some(sep) && b.lo == Some(sep)
    ensures Sorted(LineKeys(a, sep, b)) && |LineKeys(a, sep, b)| == |a.keys| + |b.keys| + 1
    ensures forall i :: 0 <= i < |LineKeys(a, sep, b)| ==> Within(a.lo, b.hi, LineKeys(a, sep, b)[i])
    ensures a.lo.Some? ==> a.lo.value < LineKeys(a, sep, b)[0]
  {
    var ks := LineKeys(a, sep, b);
    assert forall i :: 0 <= i < |a.keys| ==> ks[i] == a.keys[i] && Within(a.lo, a.hi, a.keys[i]);
    assert ks[|a.keys|] == sep;
    assert forall i :: |a.keys| < i < |ks| ==> ks[i] == b.keys[i - |a.keys| - 1];
    assert forall i :: 0 <= i < |b.keys| ==> Within(b.lo, b.hi, b.keys[i]) && sep < b.keys[i];
  }

  lemma RecutInner<N, V>(a: Rec<N, V>, sep: int, b: Rec<N, V>, cut: nat)
    requires RecOk(a) && RecOk(b) && !a.isLeaf && !b.isLeaf && a.hi == Some(sep) && b.lo == Some(sep)
    requires cut <= |a.keys| + |b.keys|
    ensures var ks, cs := LineKeys(a, sep, b), a.children + b.children;
      && RecOk(InnerLow(a, ks[..cut], cs[..cut + 1], ks[cut]))
      && RecOk(InnerHigh(b, ks[cut + 1..], cs[cut + 1..], ks[cut]))
  {
    LineFacts(a, sep, b);
    var ks, cs := LineKeys(a, sep, b), a.children + b.children;
    var p := InnerLow(a, ks[..cut], cs[..cut + 1], ks[cut]);
    var q := InnerHigh(b, ks[cut + 1..], cs[cut + 1..], ks[cut]);
    assert Within(a.lo, b.hi, ks[cut]) && Within(a.lo, b.hi, ks[0]);
    forall i | 0 <= i < |p.keys|
      ensures Within(p.lo, p.hi, p.keys[i])
    {
      assert p.keys[i] == ks[i];
    }
    forall i | 0 <= i < |q.keys|
      ensures Within(q.lo, q.hi, q.keys[i])
    {
      assert q.keys[i] == ks[cut + 1 + i];
    }
  }

  // Child i of the line lies between keys i - 1 and i of the line.
  lemma LineChild<N, V>(s: Store<N, V>, root: N, p: N, a: N, b: N, pos: nat, i: nat)
    requires Shape(s, root, Done) && Siblings(s, p, a, b, pos) && a in s && b in s && !s[a].isLeaf && !s[b].isLeaf
    requires i < |s[a].children| + |s[b].children|
    ensures var c := (s[a].children + s[b].children)[i];
      var ks := LineKeys(s[a], s[p].keys[pos], s[b]);
      && |ks| == |s[a].children| + |s[b].children| - 1
      && c in s && c != a && c != b && c != p && c != root
      && s[c].parent == (if i < |s[a].children| then Some(a) else Some(b))
      && s[c].ht + 1 == s[a].ht
      && s[c].lo == (if i == 0 then s[a].lo else Some(ks[i - 1]))
      && s[c].hi == (if i == |ks| then s[b].hi else Some(ks[i]))
  {
    SiblingFacts(s, root, p, a, b, pos);
    assert NodeOk(s, root, Done, a) && NodeOk(s, root, Done, b) && NodeOk(s, root, Done, root);
    var cs := s[a].children + s[b].children;
    var ks := LineKeys(s[a], s[p].keys[pos], s[b]);
    if i < |s[a].children| {
      assert ChildOk(s, Done, a, i);
      assert cs[i] == s[a].children[i];
      if i > 0 { assert ks[i - 1] == s[a].keys[i - 1]; }
      if i < |s[a].keys| { assert ks[i] == s[a].keys[i]; }
    } else {
      var j := i - |s[a].children|;
      assert ChildOk(s, Done, b, j);
      assert cs[i] == s[b].children[j];
      if j > 0 { assert ks[i - 1] == s[b].keys[j - 1]; }
      if j < |s[b].keys| { assert ks[i] == s[b].keys[j]; }
    }
  }

  // The children of a and b are pairwise different.
  lemma LineDistinct<N, V>(s: Store<N, V>, root: N, p: N, a: N, b: N, pos: nat, i: nat, j: nat)
    requires Shape(s, root, Done) && Siblings(s, p, a, b, pos) && a in s && b in s && !s[a].isLeaf && !s[b].isLeaf
    requires i < j < |s[a].children| + |s[b].children|
    ensures (s[a].children + s[b].children)[i] != (s[a].children + s[b].children)[j]
  {
    LineChild(s, root, p, a, b, pos, i);
    LineChild(s, root, p, a, b, pos, j);
    SiblingFacts(s, root, p, a, b, pos);
    LineFacts(s[a], s[p].keys[pos], s[b]);
  }

  // The children right of the cut belong to b, those left of it to a.
  ghost function Dealt<N, V>(s: Store<N, V>, left: seq<N>, right: seq<N>, a: N, b: N): Store<N, V> {
    map n | n in s ::
      if n in left then s[n].(parent := Some(a)) else if n in right then s[n].(parent := Some(b)) else s[n]
  }

  ghost predicate IsInnerRecut<N, V>(s: Store<N, V>, s': Store<N, V>, p: N, a: N, b: N, pos: nat, cut: nat) {
    && Siblings(s, p, a, b, pos) && a in s && b in s && !s[a].isLeaf && !s[b].isLeaf
    && |s[a].children| == |s[a].keys| + 1 && |s[b].children| == |s[b].keys| + 1
    && cut <= |s[a].keys| + |s[b].keys|
    && var ks, cs := LineKeys(s[a], s[p].keys[pos], s[b]), s[a].children + s[b].children;
       s' == Dealt(s[a := InnerLow(s[a], ks[..cut], cs[..cut + 1], ks[cut])]
                    [b := InnerHigh(s[b], ks[cut + 1..], cs[cut + 1..], ks[cut])]
                    [p := s[p].(keys := s[p].keys[pos := ks[cut]])],
                   cs[..cut + 1], cs[cut + 1..], a, b)
  }

  // Where the children of the line sit after the cut.
  lemma CutSides<N, V>(s: Store<N, V>, root: N, p: N, a: N, b: N, pos: nat, cut: nat)
    requires Shape(s, root, Done) && Siblings(s, p, a, b, pos) && a in s && b in s && !s[a].isLeaf && !s[b].isLeaf
    requires cut + 1 <= |s[a].children| + |s[b].children|
    ensures var cs := s[a].children + s[b].children;
      && (forall i :: 0 <= i < |cs| ==> (cs[i] in cs[..cut + 1] <==> i <= cut) && (i > cut ==> cs[i] in cs[cut + 1..]))
      && (forall x :: x in cs ==> x in s && x != a && x != b && x != p)
      && (forall x :: x in cs[..cut + 1] || x in cs[cut + 1..] ==> x in cs)
  {
    var cs := s[a].children + s[b].children;
    forall i | 0 <= i < |cs|
      ensures cs[i] in s && cs[i] != a && cs[i] != b && cs[i] != p
      ensures cs[i] in cs[..cut + 1] <==> i <= cut
      ensures i > cut ==> cs[i] in cs[cut + 1..]
    {
      LineChild(s, root, p, a, b, pos, i);
      if i <= cut {
        assert cs[..cut + 1][i] == cs[i];
      } else {
        assert cs[cut + 1..][i - cut - 1] == cs[i];
        if cs[i] in cs[..cut + 1] {
          var j :| 0 <= j <= cut && cs[j] == cs[i];
          LineDistinct(s, root, p, a, b, pos, j, i);
        }
      }
    }
  }

  // What the cut leaves in each record.
  ghost predicate RecutFrame<N, V>(s: Store<N, V>, s': Store<N, V>, p: N, a: N, b: N, pos: nat, cut: nat)
    requires Siblings(s, p, a, b, pos) && a in s && b in s
    requires |s[a].children| == |s[a].keys| + 1 && |s[b].children| == |s[b].keys| + 1
    requires cut <= |s[a].keys| + |s[b].keys|
  {
    var ks, cs := LineKeys(s[a], s[p].keys[pos], s[b]), s[a].children + s[b].children;
    && s'.Keys == s.Keys
    && s'[a] == InnerLow(s[a], ks[..cut], cs[..cut + 1], ks[cut])
    && s'[b] == InnerHigh(s[b], ks[cut + 1..], cs[cut + 1..], ks[cut])
    && s'[p] == s[p].(keys := s[p].keys[pos := ks[cut]])
    && (forall i :: 0 <= i < |cs| && cs[i] in s ==>
          s'[cs[i]] == s[cs[i]].(parent := if i <= cut then Some(a) else Some(b)))
    && (forall x :: x in s && x != a && x != b && x != p && x !in cs ==> s'[x] == s[x])
  }

  lemma InnerRecutFrame<N, V>(s: Store<N, V>, s': Store<N, V>, p: N, a: N, b: N, pos: nat, cut: nat)
    requires IsInnerRecut(s, s', p, a, b, pos, cut) && a != b && a != p && b != p
    requires var cs := s[a].children + s[b].children;
      && (forall i :: 0 <= i < |cs| ==> (cs[i] in cs[..cut + 1] <==> i <= cut) && (i > cut ==> cs[i] in cs[cut + 1..]))
      && (forall x :: x in cs ==> x in s && x != a && x != b && x != p)
      && (forall x :: x in cs[..cut + 1] || x in cs[cut + 1..] ==> x in cs)
    ensures RecutFrame(s, s', p, a, b, pos, cut)
  {
  }

  lemma InnerRecutLowKids<N, V>(s: Store<N, V>, s': Store<N, V>, root: N, p: N, a: N, b: N, pos: nat, cut: nat)
    requires Shape(s, root, Done) && Siblings(s, p, a, b, pos) && a in s && b in s && !s[a].isLeaf && !s[b].isLeaf
    requires |s[a].children| == |s[a].keys| + 1 && |s[b].children| == |s[b].keys| + 1
    requires cut <= |s[a].keys| + |s[b].keys|
    requires RecutFrame(s, s', p, a, b, pos, cut)
    requires RecOk(s'[a])
    ensures KidsOk(s', Done, a)
  {
    forall i | 0 <= i < |s'[a].children|
      ensures ChildOk(s', Done, a, i)
    {
      LineChild(s, root, p, a, b, pos, i);
      RecutLowKid(s, s', p, a, b, pos, cut, i);
    }
  }

  lemma InnerRecutHighKids<N, V>(s: Store<N, V>, s': Store<N, V>, root: N, p: N, a: N, b: N, pos: nat, cut: nat)
    requires Shape(s, root, Done) && Siblings(s, p, a, b, pos) && a in s && b in s && !s[a].isLeaf && !s[b].isLeaf
    requires |s[a].children| == |s[a].keys| + 1 && |s[b].children| == |s[b].keys| + 1
    requires cut <= |s[a].keys| + |s[b].keys|
    requires RecutFrame(s, s', p, a, b, pos, cut)
    requires RecOk(s'[b])
    ensures KidsOk(s', Done, b)
  {
    SiblingFacts(s, root, p, a, b, pos);
    hide LinePlace, Shape, LineKeys;
    forall i | 0 <= i < |s'[b].children|
      ensures ChildOk(s', Done, b, i)
    {
      LineChild(s, root, p, a, b, pos, cut + 1 + i);
      RecutHighKid(s, s', p, a, b, pos, cut, i);
    }
  }

  // The place of child i in the line before the cut.
  ghost predicate LinePlace<N, V>(s: Store<N, V>, p: N, a: N, b: N, pos: nat, i: nat)
    requires Siblings(s, p, a, b, pos) && a in s && b in s
    requires |s[a].children| == |s[a].keys| + 1 && |s[b].children| == |s[b].keys| + 1
    requires i < |s[a].children| + |s[b].children|
  {
    var c := (s[a].children + s[b].children)[i];
    var ks := LineKeys(s[a], s[p].keys[pos], s[b]);
    && c in s && s[c].ht + 1 == s[a].ht
    && s[c].lo == (if i == 0 then s[a].lo else Some(ks[i - 1]))
    && s[c].hi == (if i == |ks| then s[b].hi else Some(ks[i]))
  }

  lemma RecutLowKid<N, V>(s: Store<N, V>, s': Store<N, V>, p: N, a: N, b: N, pos: nat, cut: nat, i: nat)
    requires Siblings(s, p, a, b, pos) && a in s && b in s
    requires |s[a].children| == |s[a].keys| + 1 && |s[b].children| == |s[b].keys| + 1
    requires cut <= |s[a].keys| + |s[b].keys| && i <= cut
    requires RecutFrame(s, s', p, a, b, pos, cut) && LinePlace(s, p, a, b, pos, i)
    ensures ChildOk(s', Done, a, i)
  {
    var cs := s[a].children + s[b].children;
    assert s'[a].children[i] == cs[i];
  }

  lemma RecutHighKid<N, V>(s: Store<N, V>, s': Store<N, V>, p: N, a: N, b: N, pos: nat, cut: nat, i: nat)
    requires Siblings(s, p, a, b, pos) && a in s && b in s
    requires |s[a].children| == |s[a].keys| + 1 && |s[b].children| == |s[b].keys| + 1
    requires cut <= |s[a].keys| + |s[b].keys| && i + cut + 1 < |s[a].children| + |s[b].children|
    requires s[a].ht == s[b].ht
    requires RecutFrame(s, s', p, a, b, pos, cut) && LinePlace(s, p, a, b, pos, cut + 1 + i)
    ensures ChildOk(s', Done, b, i)
  {
    var cs := s[a].children + s[b].children;
    assert s'[b].children[i] == cs[cut + 1 + i];
  }

  // Child i of the line is a child on its side of the cut.
  lemma RecutPlace<N, V>(s: Store<N, V>, s': Store<N, V>, p: N, a: N, b: N, pos: nat, cut: nat, i: nat)
    requires Siblings(s, p, a, b, pos) && a in s && b in s && a in s' && b in s'
    requires |s[a].children| == |s[a].keys| + 1 && |s[b].children| == |s[b].keys| + 1
    requires cut <= |s[a].keys| + |s[b].keys| && i < |s[a].children| + |s[b].children|
    requires RecutFrame(s, s', p, a, b, pos, cut)
    ensures var x := (s[a].children + s[b].children)[i]; x in s'[a].children || x in s'[b].children
  {
    var cs := s[a].children + s[b].children;
    if i <= cut { assert s'[a].children[i] == cs[i]; } else { assert s'[b].children[i - cut - 1] == cs[i]; }
  }

  lemma InnerRecutShape<N, V>(s: Store<N, V>, s': Store<N, V>, root: N, p: N, a: N, b: N, pos: nat, cut: nat)
    requires Shape(s, root, Done) && IsInnerRecut(s, s', p, a, b, pos, cut)
    ensures Shape(s', root, Done)
  {
    SiblingFacts(s, root, p, a, b, pos);
    var ks, cs := LineKeys(s[a], s[p].keys[pos], s[b]), s[a].children + s[b].children;
    RecutInner(s[a], s[p].keys[pos], s[b], cut);
    CutSides(s, root, p, a, b, pos, cut);
    InnerRecutFrame(s, s', p, a, b, pos, cut);
    InnerRecutLowKids(s, s', root, p, a, b, pos, cut);
    InnerRecutHighKids(s, s', root, p, a, b, pos, cut);
    forall x | x in s && (s[x].parent == Some(a) || s[x].parent == Some(b))
      ensures x in s'[a].children || x in s'[b].children
    {
      LineMember(s, root, p, a, b, pos, x);
      var i :| 0 <= i < |cs| && cs[i] == x;
      RecutPlace(s, s', p, a, b, pos, cut, i);
    }
    forall x | x in cs
      ensures s[x].parent == Some(a) || s[x].parent == Some(b)
    {
      var i :| 0 <= i < |cs| && cs[i] == x;
      LineChild(s, root, p, a, b, pos, i);
    }
    assert Resplit(s, s', p, a, b, pos, ks[cut]);
    ResplitShape(s, s', root, p, a, b, pos, ks[cut]);
  }

  lemma LineMember<N, V>(s: Store<N, V>, root: N, p: N, a: N, b: N, pos: nat, x: N)
    requires Shape(s, root, Done) && Siblings(s, p, a, b, pos) && a in s && b in s
    requires x in s && (s[x].parent == Some(a) || s[x].parent == Some(b))
    ensures x in s[a].children + s[b].children
  {
    assert NodeOk(s, root, Done, x) && NodeOk(s, root, Done, root);
  }

  ghost predicate IsInnerMerge<N, V>(s: Store<N, V>, s': Store<N, V>, p: N, a: N, b: N, pos: nat) {
    && Siblings(s, p, a, b, pos) && a in s && b in s && !s[a].isLeaf && !s[b].isLeaf
    && s' == Reparent(s[a := s[a].(keys := LineKeys(s[a], s[p].keys[pos], s[b]),
                                   children := s[a].children + s[b].children, hi := s[b].hi)]
                       [p := s[p].(keys := RemoveAt(s[p].keys, pos), children := RemoveAt(s[p].children, pos + 1))],
                      s[b].children, a) - {b}
  }

  lemma InnerMergeIsMerge<N, V>(s: Store<N, V>, s': Store<N, V>, p: N, a: N, b: N, pos: nat)
    requires IsInnerMerge(s, s', p, a, b, pos) && a != b && a != p && b != p
    requires forall x :: x in s[b].children ==> x in s && s[x].parent == Some(b) && x != a && x != b && x != p
    requires forall x :: x in s && (s[x].parent == Some(a) || s[x].parent == Some(b)) ==>
      x in s[a].children + s[b].children && (s[x].parent == Some(b) ==> x in s[b].children)
    requires s[b].next == s[a].next && RecOk(s'[a]) && KidsOk(s', Done, a)
    ensures Merge(s, s', p, a, b, pos)
  {
  }

  lemma InnerMergeKids<N, V>(s: Store<N, V>, s': Store<N, V>, root: N, p: N, a: N, b: N, pos: nat)
    requires Shape(s, root, Done) && IsInnerMerge(s, s', p, a, b, pos)
    requires a in s' && s'[a] == s[a].(keys := LineKeys(s[a], s[p].keys[pos], s[b]),
                                       children := s[a].children + s[b].children, hi := s[b].hi)
    requires RecOk(s'[a])
    ensures KidsOk(s', Done, a)
  {
    forall i | 0 <= i < |s'[a].children|
      ensures ChildOk(s', Done, a, i)
    {
      LineChild(s, root, p, a, b, pos, i);
      var c := s'[a].children[i];
      if i < |s[a].children| {
        assert c == s[a].children[i];
      } else {
        assert c == s[b].children[i - |s[a].children|];
        assert c in s[b].children;
      }
    }
  }

  lemma MergedChildrenOfB<N, V>(s: Store<N, V>, root: N, p: N, a: N, b: N, pos: nat)
    requires Shape(s, root, Done) && Siblings(s, p, a, b, pos) && a in s && b in s && !s[a].isLeaf && !s[b].isLeaf
    ensures forall x :: x in s[b].children ==> x in s && s[x].parent == Some(b) && x != a && x != b && x != p
    ensures forall x :: x in s && (s[x].parent == Some(a) || s[x].parent == Some(b)) ==>
      x in s[a].children + s[b].children && (s[x].parent == Some(b) ==> x in s[b].children)
  {
    forall x | x in s[b].children
      ensures x in s && s[x].parent == Some(b) && x != a && x != b && x != p
    {
      var i :| 0 <= i < |s[b].children| && s[b].children[i] == x;
      LineChild(s, root, p, a, b, pos, |s[a].children| + i);
    }
    forall x | x in s && (s[x].parent == Some(a) || s[x].parent == Some(b))
      ensures x in s[a].children + s[b].children && (s[x].parent == Some(b) ==> x in s[b].children)
    {
      assert NodeOk(s, root, Done, x) && NodeOk(s, root, Done, root);
    }
  }

  lemma InnerMergeShape<N, V>(s: Store<N, V>, s': Store<N, V>, root: N, p: N, a: N, b: N, pos: nat)
    requires Shape(s, root, Done) && IsInnerMerge(s, s', p, a, b, pos)
    ensures Shape(s', root, Done)
  {
    SiblingFacts(s, root, p, a, b, pos);
    LineFacts(s[a], s[p].keys[pos], s[b]);
    MergedChildrenOfB(s, root, p, a, b, pos);
    assert a !in s[b].children;
    InnerMergeKids(s, s', root, p, a, b, pos);
    InnerMergeIsMerge(s, s', p, a, b, pos);
    MergeShape(s, s', root, p, a, b, pos);
  }

  // Steps that leave the leaves' keys, values and intervals alone leave the stored map alone.
  lemma SameLeavesStores<N, V>(s: Store<N, V>, s': Store<N, V>, m: map<int, V>)
    requires Stores(s, m)
    requires forall n :: n in s' && s'[n].isLeaf ==>
      (n in s && s[n].isLeaf && s'[n] == s[n].(next := s'[n].next, parent := s'[n].parent, ht := s'[n].ht))
    ensures Stores(s', m)
  {
    forall n | n in s' && s'[n].isLeaf
      ensures Holds(s'[n], m)
    {
      assert Holds(s[n], m);
    }
  }
}
