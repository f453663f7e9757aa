/**
  The rows of a table (utility.hpp, generator.hpp, selectAstEvaluator.hpp): an index file with one
  entry per row, a data file with the column texts, and a delete file with one tombstone byte per
  row. The three files are kept in memory here; the index file is a sequence of 64-bit words, so
  that its offsets count words, not bytes.

  The WHERE clause is a parameter: for a row it says yes or no, or fails with an exception (None).
  The primary key column comes first in the table's sorted column list.
*/
module RowStore {
  import opened Common
  import opened RingIndex

  // a row as a reader sees it: its key and the texts of its other columns
  datatype Row = Row(id: int, values: seq<string>)

  type Where = Row -> Option<bool>

  // a stored row, dead once its tombstone is set
  datatype Record = Record(row: Row, live: bool)

  // ---------------------------------------------------------------- what the files mean

  ghost function Live(rs: seq<Record>): seq<Row> {
    if rs == [] then [] else
      var (init, last) := (rs[..|rs| - 1], rs[|rs| - 1]);
      Live(init) + if last.live then [last.row] else []
  }

  // Words [at, at + size) of the index hold the entry of r, whose texts are in data.
  ghost predicate EntryOk(index: seq<int>, data: string, at: nat, r: Row) {
    && at + 1 + 2 * |r.values| <= |index| && index[at] == r.id
    && forall c {:trigger r.values[c]} :: 0 <= c < |r.values| ==>
         FieldOk(data, index[at + 1 + 2 * c], index[at + 2 + 2 * c], r.values[c])
  }

  ghost predicate FieldOk(data: string, start: int, end: int, text: string) {
    0 <= start <= end <= |data| && data[start..end] == text
  }

  ghost predicate FilesOk(columns: nat, index: seq<int>, data: string, deletes: seq<bv8>, rs: seq<Record>) {
    && |index| == |rs| * (1 + 2 * columns)
    && (forall k {:trigger rs[k]} :: 0 <= k < |rs| ==>
          && |rs[k].row.values| == columns && 0 <= k * (1 + 2 * columns)
          && EntryOk(index, data, k * (1 + 2 * columns), rs[k].row))
    && |rs| <= |deletes|
    && (forall k {:trigger deletes[k]} :: 0 <= k < |rs| ==> deletes[k] == if rs[k].live then 0 else 1)
    && (forall k {:trigger deletes[k]} :: |rs| <= k < |deletes| ==> deletes[k] == 0)
  }

  // Ids increase strictly, so the id of row k is at least k + 1.
  ghost predicate IdsOk(rs: seq<Record>) {
    && (forall k :: 0 <= k < |rs| ==> rs[k].row.id >= k + 1)
    && (forall j, k :: 0 <= j < k < |rs| ==> rs[j].row.id < rs[k].row.id)
  }

  // ---------------------------------------------------------------- what the statements mean

  // The rows that WHERE selects, or None when it fails on one of them.
  ghost function Selected(rows: seq<Row>, where: Where): Option<seq<Row>> {
    if rows == [] then Some([]) else
      var (init, last) := (rows[..|rows| - 1], rows[|rows| - 1]);
      match Selected(init, where)
      case None => None
      case Some(out) =>
        match where(last)
        case None => None
        case Some(yes) => Some(out + if yes then [last] else [])
  }

  // DELETE marks the rows that WHERE selects, in order, up to one it fails on.
  ghost function AfterDelete(rs: seq<Record>, where: Where): (seq<Record>, bool) {
    if rs == [] then ([], false) else
      var (init, last) := (rs[..|rs| - 1], rs[|rs| - 1]);
      var (out, failed) := AfterDelete(init, where);
      if failed || !last.live then (out + [last], failed)
      else match where(last.row)
           case None => (out + [last], true)
           case Some(yes) => (out + [Record(last.row, !yes)], false)
  }

  // ---------------------------------------------------------------- small facts

  lemma LiveAppend(rs: seq<Record>, r: Record)
    ensures Live(rs + [r]) == Live(rs) + if r.live then [r.row] else []
  {
    assert (rs + [r])[..|rs|] == rs;
  }

  lemma RowBound(k: nat, n: nat, size: nat)
    requires k < n
    ensures 0 <= k * size && k * size + size <= n * size
  {
    MulMonotone(k + 1, n, size);
    MulMonotone(0, k, size);
    assert (k + 1) * size == k * size + size;
  }

  lemma RowCount(n: nat, size: nat)
    requires size > 0
    ensures n * size / size == n && 0 <= n * size
  {
    var q := n * size / size;
    MulMonotone(0, n, size);
    assert (q + 1) * size == q * size + size && (n + 1) * size == n * size + size;
    if q < n { MulMonotone(q + 1, n, size); } else if n < q { MulMonotone(n + 1, q, size); }
  }

  lemma EntryKept(index: seq<int>, index': seq<int>, data: string, data': string, at: nat, r: Row)
    requires EntryOk(index, data, at, r) && index <= index' && data <= data'
    ensures EntryOk(index', data', at, r)
  {
    forall c | 0 <= c < |r.values|
      ensures FieldOk(data', index'[at + 1 + 2 * c], index'[at + 2 + 2 * c], r.values[c])
    {
      var (start, end) := (index[at + 1 + 2 * c], index[at + 2 + 2 * c]);
      assert FieldOk(data, start, end, r.values[c]);
      assert data'[start..end] == data[start..end];
    }
  }

  // The bytes of the delete file after a write at offset at: a hole reads as zero.
  ghost function Written(bytes: seq<bv8>, at: nat, b: bv8): seq<bv8> {
    if at < |bytes| then bytes[at := b] else bytes + seq(at - |bytes|, _ => 0) + [b]
  }

  // ---------------------------------------------------------------- adding a row at the end

  // A new entry behind the others, with a delete file that has a zero for it.
  lemma RowAdded(columns: nat, index: seq<int>, index': seq<int>, data: string, data': string,
                 deletes: seq<bv8>, deletes': seq<bv8>, rs: seq<Record>, r: Row)
    requires FilesOk(columns, index, data, deletes, rs)
    requires |r.values| == columns && |index'| == |index| + 1 + 2 * columns && index <= index' && data <= data'
    requires EntryOk(index', data', |index|, r)
    requires |rs| < |deletes'| && forall k :: 0 <= k < |deletes'| ==> deletes'[k] == if k < |deletes| then deletes[k]
      else 0
    ensures FilesOk(columns, index', data', deletes', rs + [Record(r, true)])
  {
    hide EntryOk;
    var (size, rs') := (1 + 2 * columns, rs + [Record(r, true)]);
    assert |rs'| * size == |rs| * size + size;
    forall k | 0 <= k < |rs'|
      ensures |rs'[k].row.values| == columns && 0 <= k * size && EntryOk(index', data', k * size, rs'[k].row)
    {
      if k < |rs| {
        assert rs'[k] == rs[k];
        EntryKept(index, index', data, data', k * size, rs[k].row);
      }
    }
  }

  // A zero byte past the rows, behind a hole or not, changes no tombstone and leaves room for one row more.
  lemma AliveWritten(deletes: seq<bv8>, n: nat, at: nat)
    requires n <= |deletes| && n <= at && forall k :: n <= k < |deletes| ==> deletes[k] == 0
    ensures var d := Written(deletes, at, 0);
      n < |d| && forall k :: 0 <= k < |d| ==> d[k] == if k < |deletes| then deletes[k] else 0
  {
  }

  lemma StoredAtEnd(columns: nat, index: seq<int>, index': seq<int>, data: string, data': string,
                    deletes: seq<bv8>, deletes': seq<bv8>, rs: seq<Record>, r: Row)
    requires FilesOk(columns, index, data, deletes, rs)
    requires |r.values| == columns && |index'| == |index| + 1 + 2 * columns && index <= index' && data <= data'
    requires EntryOk(index', data', |index|, r)
    requires |rs| < r.id && deletes' == Written(deletes, r.id - 1, 0)
    ensures FilesOk(columns, index', data', deletes', rs + [Record(r, true)])
  {
    AliveWritten(deletes, |rs|, r.id - 1);
    RowAdded(columns, index, index', data, data', deletes, deletes', rs, r);
  }

  // the id that the end of the index file yields
  ghost function NextId(rs: seq<Record>): int {
    if rs == [] then 1 else rs[|rs| - 1].row.id + 1
  }

  lemma LastEntry(columns: nat, index: seq<int>, data: string, deletes: seq<bv8>, rs: seq<Record>)
    requires FilesOk(columns, index, data, deletes, rs)
    ensures |index| == 0 <==> rs == []
    ensures rs != [] ==> |index| >= 1 + 2 * columns && index[|index| - (1 + 2 * columns)] == rs[|rs| - 1].row.id
  {
    if rs != [] {
      var size := 1 + 2 * columns;
      RowBound(|rs| - 1, |rs|, size);
      assert (|rs| - 1) * size == |rs| * size - size;
      assert EntryOk(index, data, (|rs| - 1) * size, rs[|rs| - 1].row);
    }
  }

  lemma NextIdOk(rs: seq<Record>, values: seq<string>, live: bool)
    requires IdsOk(rs)
    ensures NextId(rs) > |rs| && IdsOk(rs + [Record(Row(NextId(rs), values), live)])
  {
  }

  // ---------------------------------------------------------------- going through the rows

  lemma {:induction false} LiveConcat(a: seq<Record>, b: seq<Record>)
    ensures Live(a + b) == Live(a) + Live(b)
  {
    if b == [] {
      assert a + b == a;
    } else {
      var n := |b| - 1;
      assert a + b == (a + b[..n]) + [b[n]] && b == b[..n] + [b[n]];
      LiveConcat(a, b[..n]);
      LiveAppend(a + b[..n], b[n]);
      LiveAppend(b[..n], b[n]);
    }
  }

  lemma LiveStep(rs: seq<Record>, i: nat)
    requires i < |rs|
    ensures Live(rs[..i + 1]) == Live(rs[..i]) + if rs[i].live then [rs[i].row] else []
  {
    assert rs[..i + 1] == rs[..i] + [rs[i]];
    LiveAppend(rs[..i], rs[i]);
  }

  lemma SelectedAppend(rows: seq<Row>, r: Row, where: Where)
    ensures Selected(rows + [r], where) ==
      match Selected(rows, where)
      case None => None
      case Some(out) => match where(r) case None => None case Some(yes) => Some(out + if yes then [r] else [])
  {
    assert (rows + [r])[..|rows|] == rows;
  }

  lemma {:induction false} SelectedFailsOnPrefix(a: seq<Row>, b: seq<Row>, where: Where)
    requires Selected(a, where) == None
    ensures Selected(a + b, where) == None
  {
    if b == [] {
      assert a + b == a;
    } else {
      var n := |b| - 1;
      assert (a + b)[..|a + b| - 1] == a + b[..n];
      SelectedFailsOnPrefix(a, b[..n], where);
    }
  }

  lemma SelectFails(rs: seq<Record>, i: nat, where: Where)
    requires i < |rs| && rs[i].live && where(rs[i].row) == None
    ensures Selected(Live(rs), where) == None
  {
    LiveStep(rs, i);
    var head := Live(rs[..i + 1]);
    assert head[..|head| - 1] == Live(rs[..i]);
    assert Selected(head, where) == None;
    assert rs == rs[..i + 1] + rs[i + 1..];
    LiveConcat(rs[..i + 1], rs[i + 1..]);
    SelectedFailsOnPrefix(head, Live(rs[i + 1..]), where);
  }

  // ---------------------------------------------------------------- deleting

  ghost predicate SameRows(a: seq<Record>, b: seq<Record>) {
    |a| == |b| && forall k :: 0 <= k < |a| ==> a[k].row == b[k].row
  }

  lemma DeleteStep(rs: seq<Record>, i: nat, where: Where)
    requires i < |rs|
    ensures var (out, failed) := AfterDelete(rs[..i], where);
      AfterDelete(rs[..i + 1], where) ==
        if failed || !rs[i].live then (out + [rs[i]], failed)
        else match where(rs[i].row)
             case None => (out + [rs[i]], true)
             case Some(yes) => (out + [Record(rs[i].row, !yes)], false)
  {
    assert rs[..i + 1][..i] == rs[..i];
  }

  // After a failure nothing more is marked.
  lemma {:induction false} DeleteFailed(a: seq<Record>, b: seq<Record>, where: Where)
    requires AfterDelete(a, where).1
    ensures AfterDelete(a + b, where) == (AfterDelete(a, where).0 + b, true)
  {
    if b == [] {
      assert a + b == a && AfterDelete(a, where).0 + b == AfterDelete(a, where).0;
    } else {
      var n := |b| - 1;
      assert (a + b)[..|a + b| - 1] == a + b[..n];
      DeleteFailed(a, b[..n], where);
      assert AfterDelete(a, where).0 + b == AfterDelete(a, where).0 + b[..n] + [b[n]];
    }
  }

  lemma DeleteStops(rs: seq<Record>, i: nat, where: Where)
    requires i < |rs| && !AfterDelete(rs[..i], where).1 && rs[i].live && where(rs[i].row) == None
    ensures AfterDelete(rs, where) == (AfterDelete(rs[..i], where).0 + rs[i..], true)
  {
    hide AfterDelete;
    var (head, tail, out) := (rs[..i + 1], rs[i + 1..], AfterDelete(rs[..i], where).0);
    DeleteStep(rs, i, where);
    DeleteFailed(head, tail, where);
    assert rs == head + tail;
    assert out + [rs[i]] + tail == out + rs[i..];
  }

  lemma CountStopped(rs: seq<Record>, now: seq<Record>, i: nat)
    requires i <= |rs| == |now| && now[i..] == rs[i..]
    ensures |Live(rs)| - |Live(now)| == |Live(rs[..i])| - |Live(now[..i])|
  {
    assert rs == rs[..i] + rs[i..] && now == now[..i] + now[i..];
    LiveConcat(rs[..i], rs[i..]);
    LiveConcat(now[..i], now[i..]);
  }

  // The loop of DELETE has dealt with the first i of the rows rs; rs' is how they are now.
  ghost predicate Deleting(rs: seq<Record>, rs': seq<Record>, i: nat, where: Where, count: int) {
    && |rs'| == |rs| && i <= |rs| && rs'[i..] == rs[i..] && SameRows(rs', rs)
    && AfterDelete(rs[..i], where) == (rs'[..i], false)
    && count == |Live(rs[..i])| - |Live(rs'[..i])|
  }

  lemma StartDelete(rs: seq<Record>, where: Where)
    ensures Deleting(rs, rs, 0, where, 0)
  {
  }

  // what the loop does with one row
  ghost function Marked(r: Record, where: Where): Record {
    if r.live && where(r.row) == Some(true) then Record(r.row, false) else r
  }

  lemma DeletingStep(rs: seq<Record>, before: seq<Record>, i: nat, where: Where, count: int)
    requires Deleting(rs, before, i, where, count) && i < |rs| && (rs[i].live ==> where(rs[i].row) != None)
    ensures before[i] == rs[i]
    ensures var now := before[i := Marked(rs[i], where)];
      Deleting(rs, now, i + 1, where, count + if now[i].live == rs[i].live then 0 else 1)
  {
    var now := before[i := Marked(rs[i], where)];
    assert before[i..][0] == rs[i..][0];
    assert now[..i + 1] == before[..i] + [now[i]];
    assert now[i + 1..] == before[i..][1..] == rs[i..][1..] == rs[i + 1..];
    DeleteStep(rs, i, where);
    LiveStep(rs, i);
    LiveAppend(before[..i], now[i]);
  }

  lemma DeletingStops(rs: seq<Record>, rs': seq<Record>, i: nat, where: Where, count: int)
    requires Deleting(rs, rs', i, where, count) && i < |rs| && rs'[i].live && where(rs'[i].row) == None
    requires IdsOk(rs)
    ensures AfterDelete(rs, where) == (rs', true) && count == |Live(rs)| - |Live(rs')| && IdsOk(rs')
  {
    hide AfterDelete, Live;
    assert rs'[i..][0] == rs[i..][0];
    DeleteStops(rs, i, where);
    CountStopped(rs, rs', i);
    assert rs' == rs'[..i] + rs[i..];
  }

  lemma DeletingEnds(rs: seq<Record>, rs': seq<Record>, where: Where, count: int)
    requires Deleting(rs, rs', |rs|, where, count) && IdsOk(rs)
    ensures AfterDelete(rs, where) == (rs', false) && count == |Live(rs)| - |Live(rs')| && IdsOk(rs')
  {
    assert rs[..|rs|] == rs && rs'[..|rs|] == rs';
  }

  // where row k is, and what its tombstone says
  lemma RowFacts(columns: nat, index: seq<int>, data: string, deletes: seq<bv8>, rs: seq<Record>, k: nat)
    requires FilesOk(columns, index, data, deletes, rs) && k < |rs|
    ensures 0 <= k * (1 + 2 * columns) && EntryOk(index, data, k * (1 + 2 * columns), rs[k].row)
    ensures k < |deletes| && (deletes[k] == 1 <==> !rs[k].live) && |rs[k].row.values| == columns
  {
    assert rs[k] == rs[k] && deletes[k] == deletes[k];
  }

  lemma Tombstoned(columns: nat, index: seq<int>, data: string, deletes: seq<bv8>, rs: seq<Record>, k: nat)
    requires FilesOk(columns, index, data, deletes, rs) && k < |rs|
    ensures FilesOk(columns, index, data, deletes[k := 1], rs[k := Record(rs[k].row, false)])
  {
    var rs' := rs[k := Record(rs[k].row, false)];
    forall j | 0 <= j < |rs'|
      ensures rs'[j].row == rs[j].row
    {
    }
  }

  // ---------------------------------------------------------------- compaction

  ghost function Alive(rs: seq<Record>): seq<Record> {
    if rs == [] then [] else
      Alive(rs[..|rs| - 1]) + if rs[|rs| - 1].live then [rs[|rs| - 1]] else []
  }

  lemma AliveStep(rs: seq<Record>, i: nat)
    requires i < |rs|
    ensures Alive(rs[..i + 1]) == Alive(rs[..i]) + if rs[i].live then [rs[i]] else []
  {
    assert rs[..i + 1][..i] == rs[..i];
  }

  // Compaction keeps ids strictly increasing, and the id of row k at k + 1 or more.
  lemma {:induction false} AliveIds(rs: seq<Record>)
    requires IdsOk(rs)
    ensures IdsOk(Alive(rs)) && |Alive(rs)| <= |rs|
    ensures forall i :: 0 <= i < |Alive(rs)| ==> Alive(rs)[i].live && Alive(rs)[i].row.id <= rs[|rs| - 1].row.id
  {
    if rs != [] {
      var (init, last) := (rs[..|rs| - 1], rs[|rs| - 1]);
      AliveIds(init);
      var a := Alive(init);
      assert init != [] ==> init[|init| - 1].row.id < last.row.id;
      forall i | 0 <= i < |a| ensures a[i].row.id < last.row.id { assert init != []; }
    }
  }

  lemma {:induction false} AliveLive(rs: seq<Record>)
    ensures Live(Alive(rs)) == Live(rs)
  {
    if rs != [] {
      var (init, last) := (rs[..|rs| - 1], rs[|rs| - 1]);
      AliveLive(init);
      assert rs == init + [last];
      if last.live { LiveAppend(Alive(init), last); } else { assert Alive(rs) == Alive(init); }
    }
  }

  ghost function Joined(values: seq<string>): string {
    if values == [] then "" else Joined(values[..|values| - 1]) + values[|values| - 1]
  }

  // where the texts of a row begin and end, if the first begins at an offset
  ghost function Offsets(start: nat, values: seq<string>): seq<int> {
    if values == [] then [] else
      var init := values[..|values| - 1];
      Offsets(start, init) + [start + |Joined(init)|, start + |Joined(values)|]
  }

  // the texts of the rows, one after the other
  ghost function Texts(rows: seq<Row>): string {
    if rows == [] then "" else Texts(rows[..|rows| - 1]) + Joined(rows[|rows| - 1].values)
  }

  lemma TextsAppend(rows: seq<Row>, r: Row)
    ensures Texts(rows + [r]) == Texts(rows) + Joined(r.values)
  {
    assert (rows + [r])[..|rows|] == rows;
  }

  // The new files hold the live ones of the rows rs, and nothing else.
  ghost predicate Copied(columns: nat, index: seq<int>, data: string, deletes: seq<bv8>, rs: seq<Record>) {
    FilesOk(columns, index, data, deletes, Alive(rs)) && |deletes| == |Alive(rs)| && data == Texts(Live(rs))
  }

  lemma StartVacuum(columns: nat, rs: seq<Record>)
    ensures Copied(columns, [], "", [], rs[..0])
  {
  }

  lemma CopiedRow(columns: nat, index: seq<int>, index': seq<int>, data: string, data': string, deletes: seq<bv8>,
                  rs: seq<Record>, i: nat)
    requires i < |rs| && rs[i].live && |rs[i].row.values| == columns && Copied(columns, index, data, deletes, rs[..i])
    requires |index'| == |index| + 1 + 2 * columns && index <= index' && data' == data + Joined(rs[i].row.values)
    requires EntryOk(index', data', |index|, rs[i].row)
    ensures Copied(columns, index', data', deletes + [0], rs[..i + 1])
  {
    AliveStep(rs, i);
    LiveStep(rs, i);
    RowAdded(columns, index, index', data, data', deletes, deletes + [0], Alive(rs[..i]), rs[i].row);
    TextsAppend(Live(rs[..i]), rs[i].row);
    assert rs[i] == Record(rs[i].row, true);
  }

  lemma SkippedRow(columns: nat, index: seq<int>, data: string, deletes: seq<bv8>, rs: seq<Record>, i: nat)
    requires i < |rs| && !rs[i].live && Copied(columns, index, data, deletes, rs[..i])
    ensures Copied(columns, index, data, deletes, rs[..i + 1])
  {
    AliveStep(rs, i);
    LiveStep(rs, i);
    assert Alive(rs[..i]) + [] == Alive(rs[..i]) && Live(rs[..i]) + [] == Live(rs[..i]);
  }

  // ---------------------------------------------------------------- the store

  lemma EmptyEntry(index: seq<int>, data: string, id: int)
    ensures EntryOk(index + [id], data, |index|, Row(id, []))
    ensures index + [id] == index + [id] + Offsets(|data|, []) && data == data + Joined([])
  {
  }

  lemma OffsetsStep(start: nat, values: seq<string>, i: nat)
    requires i < |values|
    ensures var (now, was) := (values[..i + 1], values[..i]);
      && Joined(now) == Joined(was) + values[i]
      && Offsets(start, now) == Offsets(start, was) + [start + |Joined(was)|, start + |Joined(was)| + |values[i]|]
  {
    assert values[..i + 1][..i] == values[..i];
  }

  // The entry gets one text more.
  lemma EntryGrows(index: seq<int>, index': seq<int>, data: string, data': string, at: nat, id: int,
                   values: seq<string>, i: nat)
    requires i < |values| && at + 1 + 2 * i == |index| && EntryOk(index, data, at, Row(id, values[..i]))
    requires data' == data + values[i] && index' == index + [|data|, |data'|]
    ensures EntryOk(index', data', at, Row(id, values[..i + 1]))
  {
    EntryKept(index, index', data, data', at, Row(id, values[..i]));
    assert FieldOk(data', |data|, |data'|, values[i]);
    assert values[..i + 1] == values[..i] + [values[i]];
  }

  class RowStore {
    const columns: nat
    var index: seq<int>
    var data: string
    var deletes: seq<bv8>

    ghost var records: seq<Record>  // the stored rows, dead ones included

    ghost predicate Valid()
      reads this
    {
      FilesOk(columns, index, data, deletes, records) && IdsOk(records)
    }

    // the table: its live rows in order
    ghost function Table(): seq<Row>
      reads this
    {
      Live(records)
    }

    // the words of one index entry
    function RowSize(): nat { 1 + 2 * columns }

    // an empty table, as createTable leaves it
    constructor (columns: nat)
      ensures Valid() && Table() == [] && records == [] && this.columns == columns
    {
      this.columns := columns;
      index, data, deletes, records := [], "", [], [];
    }

    function RowsStored(): (n: nat)
      requires FilesOk(columns, index, data, deletes, records)
      reads this
      ensures n == |records|
    {
      RowCount(|records|, RowSize());
      |index| / RowSize()
    }

    // insertRow: the row becomes the last of the table, with the id after the last one stored.
    method InsertRow(values: seq<string>) returns (id: Option<int>)
      requires Valid() && |values| == columns
      modifies this
      ensures Valid()
      ensures values == [] ==> id == None && Table() == old(Table()) && records == old(records)
      ensures values != [] ==>
        && id == Some(NextId(old(records)))
        && records == old(records) + [Record(Row(id.value, values), true)]
        && Table() == old(Table()) + [Row(id.value, values)]
        && index == old(index) + [id.value] + Offsets(|old(data)|, values) && data == old(data) + Joined(values)
        && id.value >= 1 && deletes == Written(old(deletes), id.value - 1, 0)
      ensures values == [] ==> index == old(index) && data == old(data) && deletes == old(deletes)
    {
      hide FilesOk, IdsOk, EntryOk, Live, Written, Offsets, Joined;
      if values == [] {
        return None;
      }
      LastEntry(columns, index, data, deletes, records);
      NextIdOk(records, values, true);
      var newRowId := if |index| == 0 then 1 else index[|index| - RowSize()] + 1;
      ghost var (index0, data0, deletes0) := (index, data, deletes);
      WriteAlive(newRowId - 1);
      AppendEntry(newRowId, values);
      StoredAtEnd(columns, index0, index, data0, data, deletes0, deletes, records, Row(newRowId, values));
      LiveAppend(records, Record(Row(newRowId, values), true));
      records := records + [Record(Row(newRowId, values), true)];
      id := Some(newRowId);
    }

    // lines 372-375: a zero byte at an offset, behind a hole if the file is too short
    method WriteAlive(at: nat)
      modifies this`deletes
      ensures deletes == Written(old(deletes), at, 0)
    {
      if at < |deletes| {
        deletes := deletes[at := 0];
      } else {
        deletes := deletes + seq(at - |deletes|, _ => 0) + [0];
      }
    }

    // lines 381-405: the entry of a row, and its texts
    method AppendEntry(id: int, values: seq<string>)
      modifies this`index, this`data
      ensures old(index) <= index && old(data) <= data && |index| == |old(index)| + 1 + 2 * |values|
      ensures EntryOk(index, data, |old(index)|, Row(id, values))
      ensures index == old(index) + [id] + Offsets(|old(data)|, values) && data == old(data) + Joined(values)
    {
      hide Offsets, Joined, EntryOk;
      EmptyEntry(index, data, id);
      index := index + [id];
      for i := 0 to |values|
        invariant |index| == |old(index)| + 1 + 2 * i && old(index) <= index && old(data) <= data
        invariant EntryOk(index, data, |old(index)|, Row(id, values[..i]))
        invariant index == old(index) + [id] + Offsets(|old(data)|, values[..i])
          && data == old(data) + Joined(values[..i])
      {
        ghost var (index0, data0) := (index, data);
        var start := |data|;
        data := data + values[i];
        var end := |data|;
        index := index + [start, end];
        OffsetsStep(|old(data)|, values, i);
        EntryGrows(index0, index, data0, data, |old(index)|, id, values, i);
      }
      assert values[..|values|] == values;
    }

    // ------------------------------------------------------------------ reading

    // the entry at a position of the index, with its texts
    method ReadRow(at: nat, ghost r: Row) returns (row: Row)
      requires EntryOk(index, data, at, r) && |r.values| == columns
      ensures row == r
    {
      var values := [];
      for c := 0 to columns
        invariant values == r.values[..c]
      {
        assert FieldOk(data, index[at + 1 + 2 * c], index[at + 2 + 2 * c], r.values[c]);
        var start, end := index[at + 1 + 2 * c], index[at + 2 + 2 * c];
        values := values + [data[start..end]];
      }
      row := Row(index[at], values);
    }

    // The reader of SELECT: two cursors move together over the index and the tombstones.
    method Select(where: Where) returns (out: Option<seq<Row>>)
      requires Valid()
      ensures out == Selected(Table(), where)
    {
      var rows, pos := [], 0;
      var n := RowsStored();
      for i := 0 to n
        invariant pos == i * RowSize() && Selected(Live(records[..i]), where) == Some(rows)
      {
        LiveStep(records, i);
        assert Live(records[..i]) + [] == Live(records[..i]);
        RowBound(i, n, RowSize());
        assert (i + 1) * RowSize() == i * RowSize() + RowSize();
        assert records[i] == records[i];
        if deletes[i] != 1 {
          var row := ReadRow(pos, records[i].row);
          SelectedAppend(Live(records[..i]), row, where);
          match where(row)
          case None =>
            SelectFails(records, i, where);
            return None;
          case Some(yes) =>
            rows := rows + if yes then [row] else [];
        }
        pos := pos + RowSize();
      }
      assert records[..n] == records;
      return Some(rows);
    }

    // ------------------------------------------------------------------ DELETE

    // handleDelete: tombstones for the rows that WHERE selects; if it fails on a row, those
    // before keep their tombstones.
    method HandleDelete(where: Where) returns (count: nat, failed: bool)
      requires Valid()
      modifies this`deletes, this`records
      ensures Valid() && (records, failed) == AfterDelete(old(records), where)
      ensures count == |old(Table())| - |Table()|
    {
      hide FilesOk, IdsOk, Live, EntryOk, AfterDelete;
      ghost var rs := records;
      count, failed := 0, false;
      var n := RowsStored();
      StartDelete(rs, where);
      for row := 0 to n
        invariant FilesOk(columns, index, data, deletes, records)
        invariant Deleting(rs, records, row, where, count)
      {
        RowFacts(columns, index, data, deletes, records, row);
        ghost var (before, count0) := (records, count);
        if deletes[row] != 1 {
          var r := ReadRow(row * RowSize(), records[row].row);
          match where(r)
          case None =>
            DeletingStops(rs, records, row, where, count);
            failed := true;
            return;
          case Some(yes) =>
            if yes {
              Tombstoned(columns, index, data, deletes, records, row);
              deletes := deletes[row := 1];
              records := records[row := Record(r, false)];
              count := count + 1;
            }
        }
        DeletingStep(rs, before, row, where, count0);
        assert records == before[row := Marked(rs[row], where)];
      }
      DeletingEnds(rs, records, where, count);
    }

    // ------------------------------------------------------------------ vacuum

    // vacuumTable: new files with the live rows only.
    method VacuumTable()
      requires Valid()
      modifies this
      ensures Valid() && records == Alive(old(records)) && Table() == old(Table())
      ensures |deletes| == |records| && data == Texts(Table())
    {
      hide FilesOk, IdsOk, Live, Alive, EntryOk;
      var newIndex, newData, newDel := [], "", [];
      var n := RowsStored();
      AliveIds(records);
      AliveLive(records);
      StartVacuum(columns, records);
      for row := 0 to n
        invariant unchanged(this)
        invariant Copied(columns, newIndex, newData, newDel, records[..row])
      {
        RowFacts(columns, index, data, deletes, records, row);
        if deletes[row] != 1 {
          ghost var (index0, data0, del0) := (newIndex, newData, newDel);
          newIndex, newData := CopyEntry(row * RowSize(), newIndex, newData, records[row].row);
          newDel := newDel + [0];
          CopiedRow(columns, index0, newIndex, data0, newData, del0, records, row);
        } else {
          SkippedRow(columns, newIndex, newData, newDel, records, row);
        }
      }
      assert records[..n] == records;
      index, data, deletes := newIndex, newData, newDel;
      records := Alive(records);
    }

    // lines 231-260: one entry and its texts go to the end of the new files
    method CopyEntry(at: nat, newIndex: seq<int>, newData: string, ghost r: Row)
      returns (outIndex: seq<int>, outData: string)
      requires EntryOk(index, data, at, r) && |r.values| == columns
      ensures newIndex <= outIndex && |outIndex| == |newIndex| + RowSize()
      ensures outData == newData + Joined(r.values) && EntryOk(outIndex, outData, |newIndex|, r)
    {
      hide Joined, Offsets;
      outIndex, outData := newIndex + [index[at]], newData;
      EmptyEntry(newIndex, newData, r.id);
      for c := 0 to columns
        invariant |outIndex| == |newIndex| + 1 + 2 * c && newIndex <= outIndex
        invariant outData == newData + Joined(r.values[..c])
        invariant EntryOk(outIndex, outData, |newIndex|, Row(r.id, r.values[..c]))
      {
        ghost var (index0, data0) := (outIndex, outData);
        assert FieldOk(data, index[at + 1 + 2 * c], index[at + 2 + 2 * c], r.values[c]);
        var start, end := index[at + 1 + 2 * c], index[at + 2 + 2 * c];
        var buf := data[start..end];
        outData := outData + buf;
        outIndex := outIndex + [|outData| - |buf|, |outData|];
        OffsetsStep(|newData|, r.values, c);
        EntryGrows(index0, outIndex, data0, outData, |newIndex|, r.id, r.values, c);
      }
      assert r.values[..columns] == r.values;
    }
  }
}
