/**
  What several components use: optional values, sequences with an element taken out, strings of
  bytes joined, and the largest element of a set.
*/
module Common {
  datatype Option<+T> = None | Some(value: T)

  function RemoveAt<T>(s: seq<T>, i: nat): seq<T>
    requires i < |s|
  {
    s[..i] + s[i + 1..]
  }

  type Byte = b: int | 0 <= b < 256

  ghost function Flatten(pieces: seq<seq<Byte>>): seq<Byte> {
    if pieces == [] then [] else Flatten(pieces[..|pieces| - 1]) + pieces[|pieces| - 1]
  }

  lemma FlattenAppend(pieces: seq<seq<Byte>>, last: seq<Byte>)
    ensures Flatten(pieces + [last]) == Flatten(pieces) + last
  {
    assert (pieces + [last])[..|pieces|] == pieces;
  }

  lemma {:induction false} FlattenConcat(a: seq<seq<Byte>>, b: seq<seq<Byte>>)
    ensures Flatten(a + b) == Flatten(a) + Flatten(b)
  {
    if b == [] {
      assert a + b == a;
    } else {
      var n := |b| - 1;
      assert a + b == (a + b[..n]) + [b[n]] && b == b[..n] + [b[n]];
      FlattenConcat(a, b[..n]);
      FlattenAppend(a + b[..n], b[n]);
      FlattenAppend(b[..n], b[n]);
    }
  }

  lemma {:induction false} HasMax(s: set<int>)
    requires s != {}
    ensures exists m :: m in s && forall k :: k in s ==> k <= m
    decreases s
  {
    assert exists x :: x in s by {
      assert (forall x :: x !in s) ==> s == {};
    }
    var x :| x in s;
    var t := s - {x};
    assert forall y :: y in s ==> y == x || y in t;
    if t != {} {
      HasMax(t);
      var m :| m in t && forall k :: k in t ==> k <= m;
      var b := if x > m then x else m;
      assert b in s && forall k :: k in s ==> k <= b;
    } else {
      assert forall k :: k in s ==> k <= x;
    }
  }
}
