/**
  Whole runs of the index: every sequence of insertions, removals and searches on a new tree
  answers as the same sequence does on a finite map, for every degree.
*/
module IndexRuns {
  import opened Common
  import opened BPlusStore
  import opened BPlusTree

  datatype Operation<V> = Put(key: int, value: V) | Delete(key: int) | Get(key: int)

  datatype Answer<V> = Stored | Deleted(found: bool) | Found(value: Option<V>)

  ghost function After<V>(m: map<int, V>, op: Operation<V>): map<int, V> {
    match op
    case Put(k, v) => m[k := v]
    case Delete(k) => m - {k}
    case Get(_) => m
  }

  ghost function AnswerOf<V>(m: map<int, V>, op: Operation<V>): Answer<V> {
    match op
    case Put(_, _) => Stored
    case Delete(k) => Deleted(k in m)
    case Get(k) => Found(if k in m then Some(m[k]) else None)
  }

  // the map after the operations
  ghost function Replay<V>(ops: seq<Operation<V>>): map<int, V> {
    if ops == [] then map[] else After(Replay(ops[..|ops| - 1]), ops[|ops| - 1])
  }

  lemma NoOperations<V>()
    ensures Replay<V>([]) == map[]
  {
  }

  lemma ReplayStep<V>(ops: seq<Operation<V>>, i: nat)
    requires i < |ops|
    ensures Replay(ops[..i + 1]) == After(Replay(ops[..i]), ops[i])
  {
    assert ops[..i + 1][..i] == ops[..i];
  }

  method Run<V>(degree: nat, ops: seq<Operation<V>>) returns (answers: seq<Answer<V>>, keys: seq<int>)
    requires 2 <= degree
    ensures |answers| == |ops|
    ensures forall i :: 0 <= i < |ops| ==> answers[i] == AnswerOf(Replay(ops[..i]), ops[i])
    ensures Sorted(keys) && forall k :: k in keys <==> k in Replay(ops)
  {
    hide Replay, AnswerOf, After;
    var tree := new Tree<V>(degree);
    answers := [];
    NoOperations<V>();
    for i := 0 to |ops|
      invariant tree.Valid() && fresh(tree) && fresh(tree.repr) && tree.contents == Replay(ops[..i]) && |answers| == i
      invariant forall j :: 0 <= j < i ==> answers[j] == AnswerOf(Replay(ops[..j]), ops[j])
    {
      ReplayStep(ops, i);
      var answer := Perform(tree, ops[i]);
      answers := answers + [answer];
    }
    assert ops[..|ops|] == ops;
    keys := tree.ForEachKey();
  }

  method Perform<V>(tree: Tree<V>, op: Operation<V>) returns (answer: Answer<V>)
    requires tree.Valid()
    modifies tree, tree.repr
    ensures tree.Valid() && fresh(tree.repr - old(tree.repr))
    ensures tree.contents == After(old(tree.contents), op) && answer == AnswerOf(old(tree.contents), op)
  {
    match op
    case Put(k, v) =>
      tree.Insert(k, v);
      answer := Stored;
    case Delete(k) =>
      var found := tree.Remove(k);
      answer := Deleted(found);
    case Get(k) =>
      var value := tree.Search(k);
      answer := Found(value);
  }
}
