/**
  What the node-local conditions of BPlusStore mean for whole paths of the tree, and the
  statistics that ExecStatStat (utility.hpp:487-553) folds over the keys of an integer index.
*/
module IndexStatistics {
  import opened Common
  import opened BPlusStore
  import opened BPlusTree
  import opened Int64

  // ---------------------------------------------------------------- paths

  // path goes downwards, each node being a child of the one before
  ghost predicate IsPath<N, V>(s: Store<N, V>, path: seq<N>) {
    && path != []
    && (forall i :: 0 <= i < |path| ==> path[i] in s)
    && (forall i :: 0 <= i < |path| - 1 ==> path[i + 1] in s[path[i]].children)
  }

  // A step of a path loses one level and stays inside the interval.
  lemma PathStep<N, V>(s: Store<N, V>, root: N, n: N, c: N)
    requires Shape(s, root, Done) && n in s && c in s[n].children
    ensures c in s && s[c].ht + 1 == s[n].ht
    ensures forall k :: Within(s[c].lo, s[c].hi, k) ==> Within(s[n].lo, s[n].hi, k)
  {
    assert NodeOk(s, root, Done, n);
    var i :| 0 <= i < |s[n].children| && s[n].children[i] == c;
    assert ChildOk(s, Done, n, i);
    forall k | Within(s[c].lo, s[c].hi, k)
      ensures Within(s[n].lo, s[n].hi, k)
    {
      ChildInterval(s[n], i, k);
    }
  }

  lemma {:induction false} PathFacts<N, V>(s: Store<N, V>, root: N, path: seq<N>)
    requires Shape(s, root, Done) && IsPath(s, path)
    ensures var l := path[|path| - 1];
      && s[l].ht + |path| - 1 == s[path[0]].ht
      && forall k :: Within(s[l].lo, s[l].hi, k) ==> Within(s[path[0]].lo, s[path[0]].hi, k)
  {
    if |path| > 1 {
      assert path[1] in s[path[0]].children;
      PathStep(s, root, path[0], path[1]);
      assert IsPath(s, path[1..]) by {
        forall i | 0 <= i < |path[1..]| - 1
          ensures path[1..][i + 1] in s[path[1..][i]].children
        {
          assert path[1 + i + 1] in s[path[1 + i]].children;
        }
      }
      PathFacts(s, root, path[1..]);
    }
  }

  // All leaves are at the same distance from the root.
  lemma LeavesAtOneDepth<N, V>(s: Store<N, V>, root: N, path: seq<N>)
    requires Shape(s, root, Done) && IsPath(s, path) && path[0] == root
    ensures s[path[|path| - 1]].isLeaf <==> |path| == s[root].ht + 1
  {
    PathFacts(s, root, path);
    assert NodeOk(s, root, Done, path[|path| - 1]);
  }

  // Every key below child i of n lies between the separators i - 1 and i of n.
  lemma SeparatorsBoundSubtrees<N, V>(s: Store<N, V>, root: N, n: N, i: nat, path: seq<N>, k: int)
    requires Shape(s, root, Done) && n in s && !s[n].isLeaf
    requires i < |s[n].children| && IsPath(s, path) && path[0] == s[n].children[i]
    requires k in s[path[|path| - 1]].keys
    ensures i > 0 && i <= |s[n].keys| ==> s[n].keys[i - 1] <= k
    ensures i < |s[n].keys| ==> k < s[n].keys[i]
  {
    PathFacts(s, root, path);
    var l := path[|path| - 1];
    assert NodeOk(s, root, Done, n) && NodeOk(s, root, Done, l);
    assert ChildOk(s, Done, n, i);
    var j :| 0 <= j < |s[l].keys| && s[l].keys[j] == k;
    assert Within(s[l].lo, s[l].hi, k);
  }

  // ---------------------------------------------------------------- ExecStatStat

  datatype Statistics = NoData | Statistics(count: nat, sum: int, minKey: int, maxKey: int)

  ghost function Sum(ks: seq<int>): int {
    if ks == [] then 0 else Sum(ks[..|ks| - 1]) + ks[|ks| - 1]
  }

  // the keys that satisfy the filter
  ghost function Selected<V>(m: map<int, V>, where: int -> bool): set<int> {
    set k | k in m && where(k)
  }

  // the elements of s in increasing order
  ghost function Listing(s: set<int>): (ks: seq<int>)
    ensures Sorted(ks) && forall k :: k in ks <==> k in s
    decreases s
  {
    if s == {} then [] else
      HasMax(s);
      var m :| m in s && forall k :: k in s ==> k <= m;
      var ks := Listing(s - {m});
      AppendLargest(s, m, ks);
      ks + [m]
  }

  lemma AppendLargest(s: set<int>, m: int, ks: seq<int>)
    requires m in s && (forall k :: k in s ==> k <= m) && Sorted(ks) && forall k :: k in ks <==> k in s - {m}
    ensures Sorted(ks + [m]) && forall k :: k in ks + [m] <==> k in s
  {
    forall i | 0 <= i < |ks| ensures ks[i] < m { assert ks[i] in ks && ks[i] in s - {m}; }
    forall k
      ensures k in ks + [m] <==> k in s
    {
      assert k in ks + [m] <==> k in ks || k == m;
    }
  }

  // the sum of the negative keys alone
  ghost function NegativeSum(ks: seq<int>): (sum: int)
    ensures sum <= 0
  {
    if ks == [] then 0 else NegativeSum(ks[..|ks| - 1]) + if ks[|ks| - 1] < 0 then ks[|ks| - 1] else 0
  }

  // What a caller can check of the selected keys.
  ghost predicate SumFits(ks: seq<int>) {
    INT64_MIN <= NegativeSum(ks) && Sum(ks) <= INT64_MAX
  }

  // No addition of the loop leaves the 64-bit range.
  ghost predicate NeverOverflows(ks: seq<int>) {
    forall i {:trigger ks[..i]} :: 0 <= i <= |ks| ==> INT64_MIN <= Sum(ks[..i]) <= INT64_MAX
  }

  lemma {:induction false} AllNegative(ks: seq<int>)
    requires Sorted(ks) && (ks != [] ==> ks[|ks| - 1] < 0)
    ensures Sum(ks) == NegativeSum(ks)
  {
    if |ks| > 1 { AllNegative(ks[..|ks| - 1]); }
  }

  // The negative keys come first.
  lemma {:induction false} NegativesAreAPrefix(ks: seq<int>) returns (p: nat)
    requires Sorted(ks)
    ensures p <= |ks| && NegativeSum(ks) == Sum(ks[..p])
  {
    if ks == [] {
      p := 0;
    } else if ks[|ks| - 1] < 0 {
      p := |ks|;
      assert ks[..p] == ks;
      AllNegative(ks);
    } else {
      p := NegativesAreAPrefix(ks[..|ks| - 1]);
      assert ks[..|ks| - 1][..p] == ks[..p];
    }
  }

  // Partial sums go down to the sum of the negative keys, then up to the total.
  lemma {:induction false} PartialSum(ks: seq<int>, i: nat)
    requires Sorted(ks) && i <= |ks|
    ensures NegativeSum(ks) <= Sum(ks[..i]) && (Sum(ks[..i]) <= 0 || Sum(ks[..i]) <= Sum(ks))
  {
    if i == |ks| {
      assert ks[..i] == ks;
      NegativeIsBelow(ks);
    } else {
      var init := ks[..|ks| - 1];
      assert init[..i] == ks[..i];
      PartialSum(init, i);
      if ks[|ks| - 1] < 0 { AllNegative(ks[..i]); }
    }
  }

  lemma {:induction false} NegativeIsBelow(ks: seq<int>)
    ensures NegativeSum(ks) <= Sum(ks)
  {
    if ks != [] { NegativeIsBelow(ks[..|ks| - 1]); }
  }

  // The keys come in increasing order, so two sums decide whether an addition overflows.
  lemma OverflowsUnlessSumFits(ks: seq<int>)
    requires Sorted(ks)
    ensures NeverOverflows(ks) <==> SumFits(ks)
  {
    if NeverOverflows(ks) {
      var p := NegativesAreAPrefix(ks);
      assert ks[..p] == ks[..p] && ks[..|ks|] == ks;
    } else {
      var i :| 0 <= i <= |ks| && !(INT64_MIN <= Sum(ks[..i]) <= INT64_MAX);
      PartialSum(ks, i);
    }
  }

  // Two keys are enough.
  lemma TwoKeysOverflow()
    ensures Sorted([1, INT64_MAX]) && !NeverOverflows([1, INT64_MAX])
    ensures Wrap(Sum([1, INT64_MAX])) == INT64_MIN != Sum([1, INT64_MAX])
  {
    var ks := [1, INT64_MAX];
    assert ks[..1] == [1] && ks[..2] == ks && [1][..0] == [];
    assert Sum([1]) == Sum([1][..0]) + 1 == 1;
    assert Sum(ks) == Sum([1]) + INT64_MAX;
  }

  // The sum is the true one unless an addition left the 64-bit range.
  ghost predicate Summarizes(r: Statistics, ks: seq<int>) {
    if ks == [] then r == NoData else
      && r.Statistics?
      && r.count == |ks| && r.sum == Wrap(Sum(ks)) && (SumFits(ks) ==> r.sum == Sum(ks))
      && r.minKey in ks && r.maxKey in ks
      && forall k :: k in ks ==> r.minKey <= k <= r.maxKey
  }

  // A filtered key set has only one such list, so the statistics are determined by the map.
  lemma {:induction false} ListUnique(ks: seq<int>, ls: seq<int>)
    requires Sorted(ks) && Sorted(ls)
    requires forall k :: k in ks <==> k in ls
    ensures ks == ls
    decreases |ks|
  {
    assert ks != [] ==> ks[0] in ks;
    assert ls != [] ==> ls[0] in ls;
    if ks != [] && ls != [] {
      var n, m := |ks| - 1, |ls| - 1;
      LastIsLargest(ks, ls);
      assert ks == ks[..n] + [ks[n]] && ls == ls[..m] + [ls[m]];
      forall k
        ensures k in ks[..n] <==> k in ls[..m]
      {
        InFront(ks, k);
        InFront(ls, k);
      }
      ListUnique(ks[..n], ls[..m]);
    }
  }

  lemma InFront(s: seq<int>, k: int)
    requires Sorted(s) && s != []
    ensures k in s[..|s| - 1] <==> k in s && k != s[|s| - 1]
  {
    if k in s && k != s[|s| - 1] {
      var i :| 0 <= i < |s| && s[i] == k;
      assert s[..|s| - 1][i] == k;
    }
  }

  lemma LastIsLargest(ks: seq<int>, ls: seq<int>)
    requires Sorted(ks) && Sorted(ls) && ks != [] && ls != []
    requires forall k :: k in ks <==> k in ls
    ensures ks[|ks| - 1] == ls[|ls| - 1]
  {
    assert ks[|ks| - 1] in ks && ls[|ls| - 1] in ls;
    var i :| 0 <= i < |ls| && ls[i] == ks[|ks| - 1];
    var j :| 0 <= j < |ks| && ks[j] == ls[|ls| - 1];
  }

  // Count, minimum and maximum are those of the selected keys, or there are none; the sum is
  // theirs if no addition overflows.
  method ExecStatStat<V>(tree: Tree<V>, where: int -> bool) returns (r: Statistics)
    requires tree.Valid()
    requires forall k :: k in tree.contents ==> INT64_MIN <= k <= INT64_MAX
    ensures Summarizes(r, Listing(Selected(tree.contents, where)))
  {
    var visited := tree.ForEachKey();
    r := Fold(visited, where);
    KeptFacts(visited, where);
    ListUnique(Kept(visited, where), Listing(Selected(tree.contents, where)));
  }

  ghost function Kept(v: seq<int>, where: int -> bool): (r: seq<int>) {
    if v == [] then [] else
      Kept(v[..|v| - 1], where) + if where(v[|v| - 1]) then [v[|v| - 1]] else []
  }

  lemma {:induction false} KeptFacts(v: seq<int>, where: int -> bool)
    requires Sorted(v)
    ensures Sorted(Kept(v, where))
    ensures forall k :: k in Kept(v, where) <==> k in v && where(k)
  {
    if v != [] {
      var u, x := v[..|v| - 1], v[|v| - 1];
      KeptFacts(u, where);
      assert v == u + [x];
      forall i | 0 <= i < |Kept(u, where)|
        ensures Kept(u, where)[i] < x
      {
        assert Kept(u, where)[i] in Kept(u, where);
      }
    }
  }

  // what the running count, sum, minimum and maximum stand for
  ghost predicate Folded(ks: seq<int>, count: int, sum: int, minVal: int, maxVal: int) {
    && count == |ks| && sum == Wrap(Sum(ks))
    && if ks == [] then maxVal == INT64_MIN && minVal == INT64_MAX else minVal == ks[0] && maxVal == ks[|ks| - 1]
  }

  lemma KeptStep(visited: seq<int>, i: nat, where: int -> bool)
    requires Sorted(visited) && i < |visited|
    ensures visited[i] in visited && Sorted(Kept(visited[..i], where))
    ensures where(visited[i]) ==> Kept(visited[..i + 1], where) == Kept(visited[..i], where) + [visited[i]]
    ensures !where(visited[i]) ==> Kept(visited[..i + 1], where) == Kept(visited[..i], where)
    ensures forall k :: k in Kept(visited[..i], where) ==> k < visited[i]
  {
    assert visited[..i + 1][..i] == visited[..i];
    KeptFacts(visited[..i], where);
  }

  lemma FoldedStep(ks: seq<int>, count: int, sum: int, minVal: int, maxVal: int, key: int)
    requires Folded(ks, count, sum, minVal, maxVal) && Sorted(ks) && (forall k :: k in ks ==> k < key)
    requires INT64_MIN <= key <= INT64_MAX
    ensures var (low, high) := (if key < minVal then key else minVal, if key > maxVal then key else maxVal);
      Folded(ks + [key], count + 1, Wrap(sum + key), low, high)
  {
    assert (ks + [key])[..|ks|] == ks;
    WrapAdd(Sum(ks), key);
    assert ks != [] ==> ks[0] in ks && ks[|ks| - 1] in ks;
  }

  // the callback of ExecStatStat, called for each visited key
  method Fold(visited: seq<int>, where: int -> bool) returns (r: Statistics)
    requires Sorted(visited)
    requires forall k :: k in visited ==> INT64_MIN <= k <= INT64_MAX
    ensures Summarizes(r, Kept(visited, where))
  {
    hide Kept, Folded, Wrap, Sum;
    var count, sum, maxVal, minVal := 0, 0, INT64_MIN, INT64_MAX;
    StartFold(visited, where);
    for i := 0 to |visited|
      invariant Folded(Kept(visited[..i], where), count, sum, minVal, maxVal)
    {
      var key := visited[i];
      KeptStep(visited, i, where);
      if where(key) {
        FoldedStep(Kept(visited[..i], where), count, sum, minVal, maxVal, key);
        count := count + 1;
        sum := Wrap(sum + key);
        if key > maxVal {
          maxVal := key;
        }
        if key < minVal {
          minVal := key;
        }
      }
    }
    assert visited[..|visited|] == visited;
    KeptFacts(visited, where);
    FoldedSummary(Kept(visited, where), count, sum, minVal, maxVal);
    if count == 0 {
      return NoData;
    }
    r := Statistics(count, sum, minVal, maxVal);
  }

  lemma StartFold(visited: seq<int>, where: int -> bool)
    ensures Folded(Kept(visited[..0], where), 0, 0, INT64_MAX, INT64_MIN)
  {
  }

  lemma FoldedSummary(ks: seq<int>, count: int, sum: int, minVal: int, maxVal: int)
    requires Folded(ks, count, sum, minVal, maxVal) && Sorted(ks)
    ensures count >= 0 && Summarizes(if count == 0 then NoData else Statistics(count, sum, minVal, maxVal), ks)
  {
    NegativeIsBelow(ks);
    if ks != [] { assert ks[0] in ks && ks[|ks| - 1] in ks; }
  }
}
