/**
  Whole runs of INSERT, DELETE, SELECT and vacuum over the files of a table: they always stand for
  a plain list of rows and the id the next row gets, and every statement answers from these.
*/
module RowRuns {
  import opened Common
  import opened RowStore

  datatype Statement = Insert(values: seq<string>) | Delete(where: Where) | Select(where: Where) | Vacuum

  // what a statement answers: the id given, the number of rows deleted, the rows found
  datatype Reply =
    | Inserted(id: Option<int>)
    | Deleted(count: int, failed: bool)
    | Found(rows: Option<seq<Row>>)
    | Vacuumed

  datatype Contents = Contents(rows: seq<Row>, next: int)

  // DELETE on a list: the selected rows go, up to one that WHERE fails on.
  ghost function DeleteRows(rows: seq<Row>, where: Where): (seq<Row>, bool) {
    if rows == [] then ([], false) else
      var (init, last) := (rows[..|rows| - 1], rows[|rows| - 1]);
      var (out, failed) := DeleteRows(init, where);
      if failed then (out + [last], true)
      else match where(last)
           case None => (out + [last], true)
           case Some(yes) => (if yes then out else out + [last], false)
  }

  // What a statement does to the list. Vacuum forgets the ids of deleted rows behind the last one.
  ghost function Effect(c: Contents, s: Statement): Contents {
    match s
    case Insert(values) => if values == [] then c else Contents(c.rows + [Row(c.next, values)], c.next + 1)
    case Delete(where) => c.(rows := DeleteRows(c.rows, where).0)
    case Select(_) => c
    case Vacuum => c.(next := if c.rows == [] then 1 else c.rows[|c.rows| - 1].id + 1)
  }

  ghost function ReplyTo(c: Contents, s: Statement): Reply {
    match s
    case Insert(values) => Inserted(if values == [] then None else Some(c.next))
    case Delete(where) => var (out, failed) := DeleteRows(c.rows, where); Deleted(|c.rows| - |out|, failed)
    case Select(where) => Found(Selected(c.rows, where))
    case Vacuum => Vacuumed
  }

  ghost function Replay(c: Contents, statements: seq<Statement>): Contents {
    if statements == [] then c
    else Effect(Replay(c, statements[..|statements| - 1]), statements[|statements| - 1])
  }

  ghost function ContentsOf(rs: seq<Record>): Contents {
    Contents(Live(rs), NextId(rs))
  }

  // ---------------------------------------------------------------- DELETE on files and on lists

  lemma DeleteRowsAppend(rows: seq<Row>, r: Row, where: Where)
    ensures var (out, failed) := DeleteRows(rows, where);
      DeleteRows(rows + [r], where) ==
        if failed then (out + [r], true)
        else match where(r)
             case None => (out + [r], true)
             case Some(yes) => (if yes then out else out + [r], false)
  {
    assert (rows + [r])[..|rows|] == rows;
  }

  lemma {:induction false} DeleteKeepsRows(rs: seq<Record>, where: Where)
    ensures SameRows(AfterDelete(rs, where).0, rs)
  {
    if rs != [] { DeleteKeepsRows(rs[..|rs| - 1], where); }
  }

  lemma {:induction false} DeleteOnRows(rs: seq<Record>, where: Where)
    ensures Live(AfterDelete(rs, where).0) == DeleteRows(Live(rs), where).0
    ensures AfterDelete(rs, where).1 == DeleteRows(Live(rs), where).1
  {
    if rs != [] {
      hide DeleteRows, Live;
      var (init, last) := (rs[..|rs| - 1], rs[|rs| - 1]);
      DeleteOnRows(init, where);
      var (out, failed) := AfterDelete(init, where);
      assert rs == init + [last];
      DeleteOneMore(init, out, failed, last, where);
    }
  }

  lemma DeleteOneMore(init: seq<Record>, out: seq<Record>, failed: bool, last: Record, where: Where)
    requires (Live(out), failed) == DeleteRows(Live(init), where)
    ensures var (now, fails) := if failed || !last.live then (out + [last], failed)
                               else match where(last.row)
                                    case None => (out + [last], true)
                                    case Some(yes) => (out + [Record(last.row, !yes)], false);
      (Live(now), fails) == DeleteRows(Live(init + [last]), where)
  {
    hide DeleteRows, Live;
    LiveAppend(init, last);
    LiveAppend(out, last);
    LiveAppend(out, Record(last.row, false));
    LiveAppend(out, Record(last.row, true));
    assert Live(out) + [] == Live(out) && Live(init) + [] == Live(init);
    DeleteRowsAppend(Live(init), last.row, where);
  }

  // DELETE fails exactly when SELECT with the same condition would; otherwise exactly the rows
  // that do not match stay, in their order, and SELECT finds none any more.
  lemma {:induction false} DeleteTakesTheSelected(rows: seq<Row>, where: Where)
    ensures DeleteRows(rows, where).1 <==> Selected(rows, where) == None
    ensures var (out, failed) := DeleteRows(rows, where);
      !failed ==>
        && Selected(out, where) == Some([])
        && |out| + |Selected(rows, where).value| == |rows|
        && multiset(out) + multiset(Selected(rows, where).value) == multiset(rows)
  {
    if rows != [] {
      var (init, last) := (rows[..|rows| - 1], rows[|rows| - 1]);
      DeleteTakesTheSelected(init, where);
      var (out, failed) := DeleteRows(init, where);
      assert rows == init + [last];
      if !failed && where(last).Some? {
        var gone := Selected(init, where).value;
        SelectedAppend(out, last, where);
        assert Selected(out, where).value + [] == [];
        assert multiset(out + [last]) == multiset(out) + multiset{last};
        assert multiset(gone + [last]) == multiset(gone) + multiset{last};
      }
    }
  }

  // ---------------------------------------------------------------- vacuum

  lemma {:induction false} LastAlive(rs: seq<Record>)
    ensures Alive(rs) == [] <==> Live(rs) == []
    ensures Live(rs) != [] ==> Alive(rs)[|Alive(rs)| - 1].row == Live(rs)[|Live(rs)| - 1]
  {
    if rs != [] { LastAlive(rs[..|rs| - 1]); }
  }

  // ---------------------------------------------------------------- runs

  lemma InsertOnRows(rs: seq<Record>, values: seq<string>)
    ensures var (c, rs') := (ContentsOf(rs), rs + [Record(Row(NextId(rs), values), true)]);
      values != [] ==>
        && ContentsOf(rs') == Effect(c, Insert(values))
        && ReplyTo(c, Insert(values)) == Inserted(Some(NextId(rs)))
  {
    LiveAppend(rs, Record(Row(NextId(rs), values), true));
  }

  lemma DeleteOnContents(rs: seq<Record>, where: Where)
    ensures var (c, (out, failed)) := (ContentsOf(rs), AfterDelete(rs, where));
      ContentsOf(out) == Effect(c, Delete(where))
        && ReplyTo(c, Delete(where)) == Deleted(|Live(rs)| - |Live(out)|, failed)
  {
    hide AfterDelete, DeleteRows, Live;
    DeleteOnRows(rs, where);
    DeleteKeepsRows(rs, where);
  }

  lemma VacuumOnRows(rs: seq<Record>)
    ensures ContentsOf(Alive(rs)) == Effect(ContentsOf(rs), Vacuum)
  {
    hide Alive, Live;
    LastAlive(rs);
    AliveLive(rs);
  }

  method Execute(store: RowStore, s: Statement) returns (reply: Reply)
    requires store.Valid() && (s.Insert? ==> |s.values| == store.columns)
    modifies store
    ensures store.Valid() && ContentsOf(store.records) == Effect(ContentsOf(old(store.records)), s)
    ensures reply == ReplyTo(ContentsOf(old(store.records)), s)
  {
    hide AfterDelete, DeleteRows, Live, Alive, NextId, FilesOk, IdsOk, Selected;
    match s
    case Insert(values) =>
      InsertOnRows(store.records, values);
      var id := store.InsertRow(values);
      reply := Inserted(id);
    case Delete(where) =>
      DeleteOnContents(store.records, where);
      var count, failed := store.HandleDelete(where);
      reply := Deleted(count, failed);
    case Select(where) =>
      var rows := store.Select(where);
      reply := Found(rows);
    case Vacuum =>
      VacuumOnRows(store.records);
      store.VacuumTable();
      reply := Vacuumed;
  }

  predicate Gives(s: Statement) {
    s.Insert? && s.values != []
  }

  // the ids that a run over a new table hands out, in order
  ghost function GivenIds(statements: seq<Statement>): seq<int> {
    if statements == [] then [] else
      var (init, last) := (statements[..|statements| - 1], statements[|statements| - 1]);
      GivenIds(init) + if Gives(last) then [Replay(Contents([], 1), init).next] else []
  }

  // the ids that the replies give, in order
  function IdsIn(replies: seq<Reply>): seq<int> {
    if replies == [] then [] else
      var last := replies[|replies| - 1];
      IdsIn(replies[..|replies| - 1]) + if last.Inserted? && last.id.Some? then [last.id.value] else []
  }

  lemma RunStart()
    ensures ContentsOf([]) == Replay(Contents([], 1), []) && IdsIn([]) == GivenIds([])
  {
  }

  lemma RunStep(statements: seq<Statement>, replies: seq<Reply>, i: nat, reply: Reply)
    requires i < |statements| && reply == ReplyTo(Replay(Contents([], 1), statements[..i]), statements[i])
    requires IdsIn(replies) == GivenIds(statements[..i])
    ensures Replay(Contents([], 1), statements[..i + 1]) == Effect(Replay(Contents([], 1), statements[..i]),
      statements[i])
    ensures IdsIn(replies + [reply]) == GivenIds(statements[..i + 1])
  {
    hide Effect, DeleteRows, Selected;
    assert statements[..i + 1][..i] == statements[..i];
    assert (replies + [reply])[..|replies|] == replies;
  }

  // Every run over a new table answers each statement from the list replayed so far, and leaves
  // files that stand for the replayed list; the ids given are those of the replay.
  method Run(columns: nat, statements: seq<Statement>) returns (store: RowStore, replies: seq<Reply>)
    requires forall i :: 0 <= i < |statements| && statements[i].Insert? ==> |statements[i].values| == columns
    ensures store.Valid() && ContentsOf(store.records) == Replay(Contents([], 1), statements)
    ensures |replies| == |statements| && IdsIn(replies) == GivenIds(statements)
    ensures forall i :: 0 <= i < |statements| ==>
      replies[i] == ReplyTo(Replay(Contents([], 1), statements[..i]), statements[i])
  {
    hide *;
    store := new RowStore(columns);
    RunStart();
    replies := [];
    for i := 0 to |statements|
      invariant fresh(store) && store.Valid() && store.columns == columns
      invariant ContentsOf(store.records) == Replay(Contents([], 1), statements[..i])
      invariant |replies| == i && IdsIn(replies) == GivenIds(statements[..i])
      invariant forall j :: 0 <= j < i ==>
        replies[j] == ReplyTo(Replay(Contents([], 1), statements[..j]), statements[j])
    {
      var reply := Execute(store, statements[i]);
      RunStep(statements, replies, i, reply);
      replies := replies + [reply];
    }
    assert statements[..|statements|] == statements;
  }

  // ---------------------------------------------------------------- ids

  // An id comes back after this run: the row that had it was deleted at the end of the table.
  lemma IdsCanComeBack()
    ensures var run := [Insert(["a"]), Delete(r => Some(true)), Vacuum, Insert(["b"])];
      Replay(Contents([], 1), run) == Contents([Row(1, ["b"])], 2) && GivenIds(run) == [1, 1]
  {
    var (ins, del, again) := (Insert(["a"]), Delete((r: Row) => Some(true)), Insert(["b"]));
    var c0 := Contents([], 1);
    var s := [ins, del, Vacuum, again];
    assert s[..3] == [ins, del, Vacuum] && s[..3][..2] == [ins, del] && s[..3][..2][..1] == [ins] && [ins][..0] == [];
    assert Replay(c0, []) == c0;
    assert Replay(c0, [ins]) == Effect(c0, ins);
    assert Effect(c0, ins).rows == [Row(1, ["a"])];
    assert DeleteRows([], del.where) == ([], false);
    assert [Row(1, ["a"])][..0] == [];
    assert Replay(c0, [ins, del]) == Effect(Effect(c0, ins), del) == Contents([], 2);
    assert Replay(c0, [ins, del, Vacuum]) == c0;
    assert GivenIds([ins]) == GivenIds([]) + [1]
      && GivenIds([ins, del, Vacuum]) == GivenIds([ins, del]) == GivenIds([ins]);
  }

  ghost predicate Distinct(ids: seq<int>) {
    forall j, k :: 0 <= j < k < |ids| ==> ids[j] != ids[k]
  }

  // The last row stored is deleted: a vacuum would drop it and forget its id.
  ghost predicate LastIsDead(c: Contents) {
    c.next != if c.rows == [] then 1 else c.rows[|c.rows| - 1].id + 1
  }

  ghost predicate Forgets(statements: seq<Statement>, i: nat)
    requires i < |statements|
  {
    statements[i].Vacuum? && LastIsDead(Replay(Contents([], 1), statements[..i]))
  }

  // No vacuum that forgets an id comes before an insert.
  ghost predicate NoneForgotten(statements: seq<Statement>) {
    forall i, j {:trigger statements[i], statements[j]} ::
      0 <= i < j < |statements| && Gives(statements[j]) ==> !Forgets(statements, i)
  }

  lemma {:induction false} LiveIsIn(rs: seq<Record>, i: nat)
    requires i < |Live(rs)|
    ensures exists k :: 0 <= k < |rs| && rs[k].row == Live(rs)[i] && rs[k].live
  {
    if rs != [] {
      var n := |rs| - 1;
      if i < |Live(rs[..n])| {
        LiveIsIn(rs[..n], i);
        var k :| 0 <= k < n && rs[..n][k].row == Live(rs)[i] && rs[..n][k].live;
        assert rs[k].row == Live(rs)[i] && rs[k].live;
      } else {
        assert rs[n].row == Live(rs)[i] && rs[n].live;
      }
    }
  }

  // In the files: vacuum keeps the next id exactly if the last record is live, or there is none.
  lemma {:induction false} VacuumKeepsNextId(rs: seq<Record>)
    requires IdsOk(rs)
    ensures NextId(Alive(rs)) == NextId(rs) <==> rs == [] || rs[|rs| - 1].live
    ensures LastIsDead(ContentsOf(rs)) <==> rs != [] && !rs[|rs| - 1].live
  {
    LastAlive(rs);
    if rs != [] {
      var n := |rs| - 1;
      assert Alive(rs) == Alive(rs[..n]) + if rs[n].live then [rs[n]] else [];
      if !rs[n].live && Live(rs) != [] {
        LiveIsIn(rs[..n], |Live(rs)| - 1);
        var k :| 0 <= k < n && rs[..n][k].row == Live(rs)[|Live(rs)| - 1];
        assert rs[k].row.id < rs[n].row.id;
      }
    }
  }

  // ids increase along the rows, and the next id is above them
  ghost predicate Ordered(rows: seq<Row>, next: int) {
    && next >= 1
    && (forall j, k :: 0 <= j < k < |rows| ==> rows[j].id < rows[k].id)
    && forall k :: 0 <= k < |rows| ==> 1 <= rows[k].id < next
  }

  lemma {:induction false} DeleteKeepsOrder(rows: seq<Row>, next: int, where: Where)
    requires Ordered(rows, next)
    ensures Ordered(DeleteRows(rows, where).0, next)
  {
    if rows != [] {
      var (init, last) := (rows[..|rows| - 1], rows[|rows| - 1]);
      DeleteKeepsOrder(init, last.id, where);
    }
  }

  lemma {:induction false} ReplayOrdered(statements: seq<Statement>)
    ensures var c := Replay(Contents([], 1), statements); Ordered(c.rows, c.next)
  {
    if statements != [] {
      var (init, last) := (statements[..|statements| - 1], statements[|statements| - 1]);
      ReplayOrdered(init);
      if last.Delete? {
        var c := Replay(Contents([], 1), init);
        DeleteKeepsOrder(c.rows, c.next, last.where);
      }
    }
  }

  // Every id below the next one has been handed out.
  lemma {:induction false} BelowNextGiven(statements: seq<Statement>, id: int)
    requires 1 <= id < Replay(Contents([], 1), statements).next
    ensures id in GivenIds(statements)
  {
    if statements != [] {
      var (init, last) := (statements[..|statements| - 1], statements[|statements| - 1]);
      ReplayOrdered(init);
      if id < Replay(Contents([], 1), init).next {
        BelowNextGiven(init, id);
      }
    }
  }

  // As long as nothing is forgotten, ids handed out are below the next one.
  lemma {:induction false} GivenBelowNext(statements: seq<Statement>)
    requires forall i :: 0 <= i < |statements| ==> !Forgets(statements, i)
    ensures forall k :: 0 <= k < |GivenIds(statements)| ==>
      GivenIds(statements)[k] < Replay(Contents([], 1), statements).next
  {
    if statements != [] {
      var n := |statements| - 1;
      var init := statements[..n];
      PrefixForgets(statements, n);
      GivenBelowNext(init);
      assert !Forgets(statements, n);
    }
  }

  lemma PrefixForgets(statements: seq<Statement>, n: nat)
    requires n <= |statements|
    ensures forall i :: 0 <= i < n ==> (Forgets(statements[..n], i) <==> Forgets(statements, i))
  {
    forall i | 0 <= i < n
      ensures Forgets(statements[..n], i) <==> Forgets(statements, i)
    {
      assert statements[..n][..i] == statements[..i];
    }
  }

  // Once an id is forgotten, the next insert hands out an id again.
  lemma {:induction false} ForgottenIsLower(statements: seq<Statement>, i: nat)
    requires i < |statements| && Forgets(statements, i)
    requires forall j :: i < j < |statements| ==> !Gives(statements[j])
    ensures Replay(Contents([], 1), statements).next in GivenIds(statements[..i])
    ensures Replay(Contents([], 1), statements).next < Replay(Contents([], 1), statements[..i]).next
    decreases |statements|
  {
    hide Replay, GivenIds, Forgets, Gives;
    var n := |statements| - 1;
    var init := statements[..n];
    LastStep(statements);
    if i < n {
      PrefixForgets(statements, n);
      assert init[..i] == statements[..i];
      ForgottenIsLower(init, i);
    } else {
      ForgetsLowers(statements, i);
    }
    BelowNextGiven(statements[..i], Replay(Contents([], 1), statements).next);
  }

  // A statement that hands out no id does not raise the next one, and a vacuum that forgets lowers it.
  lemma LastStep(statements: seq<Statement>)
    requires statements != []
    ensures var (now, was) := (Replay(Contents([], 1), statements),
      Replay(Contents([], 1), statements[..|statements| - 1]));
      1 <= now.next && (!Gives(statements[|statements| - 1]) ==> now.next <= was.next)
  {
    ReplayOrdered(statements[..|statements| - 1]);
    ReplayOrdered(statements);
  }

  lemma ForgetsLowers(statements: seq<Statement>, i: nat)
    requires i == |statements| - 1 && Forgets(statements, i)
    ensures Replay(Contents([], 1), statements).next < Replay(Contents([], 1), statements[..i]).next
  {
    ReplayOrdered(statements[..i]);
  }

  lemma {:induction false} GivenPrefix(statements: seq<Statement>, n: nat)
    requires n <= |statements|
    ensures GivenIds(statements[..n]) <= GivenIds(statements)
  {
    if n < |statements| {
      var m := |statements| - 1;
      assert statements[..m][..n] == statements[..n];
      GivenPrefix(statements[..m], n);
    } else {
      assert statements[..n] == statements;
    }
  }

  lemma GivenNext(statements: seq<Statement>, j: nat)
    requires j < |statements| && Gives(statements[j])
    ensures GivenIds(statements[..j + 1]) == GivenIds(statements[..j]) + [Replay(Contents([], 1), statements[..j]).next]
  {
    hide Replay;
    assert statements[..j + 1][..j] == statements[..j];
  }

  // The first insert after the vacuum hands out a second time an id from before the vacuum.
  lemma {:induction false} RepeatsAfter(statements: seq<Statement>, i: nat, j: nat)
    requires i < j < |statements| && Forgets(statements, i) && Gives(statements[j])
    ensures !Distinct(GivenIds(statements))
    decreases j
  {
    if k :| i < k < j && Gives(statements[k]) {
      RepeatsAfter(statements, i, k);
    } else {
      hide Replay, Forgets, Effect;
      var before := statements[..j];
      PrefixForgets(statements, j);
      ForgottenIsLower(before, i);
      assert before[..i] == statements[..i];
      var id := Replay(Contents([], 1), before).next;
      GivenPrefix(before, i);
      GivenPrefix(statements, j + 1);
      GivenNext(statements, j);
      var ids := GivenIds(statements);
      var p :| 0 <= p < |GivenIds(before[..i])| && GivenIds(before[..i])[p] == id;
      assert ids[p] == id == ids[|GivenIds(before)|];
    }
  }

  lemma {:induction false} DistinctIfNoneForgotten(statements: seq<Statement>)
    requires NoneForgotten(statements)
    ensures Distinct(GivenIds(statements))
  {
    if statements != [] {
      var n := |statements| - 1;
      var init := statements[..n];
      PrefixForgets(statements, n);
      assert NoneForgotten(init) by {
        forall i, j | 0 <= i < j < n && Gives(init[j]) ensures !Forgets(init, i) { assert Gives(statements[j]); }
      }
      DistinctIfNoneForgotten(init);
      if Gives(statements[n]) {
        forall i | 0 <= i < n ensures !Forgets(init, i) { assert !Forgets(statements, i); }
        GivenBelowNext(init);
      }
    }
  }

  // No id is handed out twice if and only if no vacuum that drops a dead last row is followed by
  // an insert.
  lemma IdsUniqueIffNoneForgotten(statements: seq<Statement>)
    ensures Distinct(GivenIds(statements)) <==> NoneForgotten(statements)
  {
    if NoneForgotten(statements) {
      DistinctIfNoneForgotten(statements);
    } else {
      var i, j :| 0 <= i < j < |statements| && Gives(statements[j]) && Forgets(statements, i);
      RepeatsAfter(statements, i, j);
    }
  }
}
