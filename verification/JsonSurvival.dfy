/**
  Which values of json.hpp survive printing and reading. The printer does not escape and the parser
  does unescape, so backslashes are counted: reading a text uses two for every backslash of the
  value and one for every quote, and the printer writes one for every backslash.
*/
module JsonSurvival {
  import opened Common
  import opened Json

  // ---------------------------------------------------------------- what has to hold of a value

  // No doubles, numbers that fit an int, and objects by increasing key, as in a std::map.
  ghost predicate Shaped(v: Json) {
    match v
    case Int(n) => INT_MIN <= n <= INT_MAX
    case Double(_) => false
    case Arr(items) => forall i :: 0 <= i < |items| ==> Shaped(items[i])
    case Obj(fields) => Ordered(fields) && forall i :: 0 <= i < |fields| ==> Shaped(fields[i].value)
    case _ => true
  }

  // no quote and no backslash in any string or key
  ghost predicate AllPlain(v: Json) {
    match v
    case Str(s) => Plain(s)
    case Arr(items) => forall i :: 0 <= i < |items| ==> AllPlain(items[i])
    case Obj(fields) => forall i :: 0 <= i < |fields| ==> Plain(fields[i].key) && AllPlain(fields[i].value)
    case _ => true
  }

  lemma {:induction false} PrintableIs(v: Json)
    ensures Printable(v) <==> Shaped(v) && AllPlain(v)
  {
    match v
    case Arr(items) =>
      forall i | 0 <= i < |items|
        ensures Printable(items[i]) <==> Shaped(items[i]) && AllPlain(items[i])
      {
        PrintableIs(items[i]);
      }
    case Obj(fields) =>
      forall i | 0 <= i < |fields|
        ensures Printable(fields[i].value) <==> Shaped(fields[i].value) && AllPlain(fields[i].value)
      {
        PrintableIs(fields[i].value);
      }
    case _ =>
  }

  // ---------------------------------------------------------------- counting

  // what the backslashes and quotes of a text count for
  function Marks(s: string, slash: nat, quote: nat): nat {
    if s == "" then 0 else
      (if s[0] == '\\' then slash else if s[0] == '"' then quote else 0) + Marks(s[1..], slash, quote)
  }

  function ValueMarks(v: Json, slash: nat, quote: nat): nat
    decreases v, 0
  {
    match v
    case Str(s) => Marks(s, slash, quote)
    case Arr(items) => ItemMarks(items, slash, quote)
    case Obj(fields) => FieldMarks(fields, slash, quote)
    case _ => 0
  }

  function ItemMarks(items: seq<Json>, slash: nat, quote: nat): nat
    decreases items, 1
  {
    if items == [] then 0 else ValueMarks(items[0], slash, quote) + ItemMarks(items[1..], slash, quote)
  }

  function FieldMarks(fields: seq<Field>, slash: nat, quote: nat): nat
    decreases fields, 1
  {
    if fields == [] then 0 else
      Marks(fields[0].key, slash, quote) + ValueMarks(fields[0].value, slash, quote) + FieldMarks(fields[1..], slash,
        quote)
  }

  function Slashes(r: string): nat {
    Marks(r, 1, 0)
  }

  lemma {:induction false} MarksConcat(a: string, b: string, slash: nat, quote: nat)
    ensures Marks(a + b, slash, quote) == Marks(a, slash, quote) + Marks(b, slash, quote)
    decreases |a|
  {
    if a == "" {
      assert a + b == b;
    } else {
      assert (a + b)[1..] == a[1..] + b;
      MarksConcat(a[1..], b, slash, quote);
    }
  }

  lemma {:induction false} ItemMarksConcat(a: seq<Json>, b: seq<Json>, slash: nat, quote: nat)
    ensures ItemMarks(a + b, slash, quote) == ItemMarks(a, slash, quote) + ItemMarks(b, slash, quote)
    decreases |a|
  {
    if a == [] {
      assert a + b == b;
    } else {
      assert (a + b)[1..] == a[1..] + b;
      ItemMarksConcat(a[1..], b, slash, quote);
    }
  }

  // An assignment adds at most the marks of its key and value.
  lemma {:induction false} PutMarks(fields: seq<Field>, key: string, value: Json, slash: nat, quote: nat)
    ensures FieldMarks(Put(fields, key, value), slash, quote) <=
      FieldMarks(fields, slash, quote) + Marks(key, slash, quote) + ValueMarks(value, slash, quote)
    decreases |fields|
  {
    hide Less, Marks, ValueMarks;
    var f := Field(key, value);
    assert ([f] + fields)[1..] == fields;
    if fields != [] {
      var rest := fields[1..];
      assert ([f] + rest)[1..] == rest;
      assert ([fields[0]] + Put(rest, key, value))[1..] == Put(rest, key, value);
      PutMarks(rest, key, value, slash, quote);
    } else {
      assert Put(fields, key, value) == [f];
    }
  }

  // ---------------------------------------------------------------- reading uses up backslashes

  // p was read from r, and the marks of its value were paid for
  ghost predicate Paid(r: string, rest: string, before: nat, after: nat) {
    Slashes(rest) + after <= Slashes(r) + before
  }

  lemma DropSlashes(r: string, k: nat)
    requires k <= |r|
    ensures Slashes(r[k..]) <= Slashes(r)
  {
    assert r == r[..k] + r[k..];
    MarksConcat(r[..k], r[k..], 1, 0);
  }

  lemma {:induction false} SkipSlashes(r: string)
    ensures Slashes(SkipWhitespace(r)) == Slashes(r)
  {
    if r != "" && IsSpace(r[0]) { SkipSlashes(r[1..]); }
  }

  lemma AppendMarks(acc: string, c: char)
    ensures Marks(acc + [c], 2, 1) == Marks(acc, 2, 1) + Marks([c], 2, 1)
    ensures Marks([c], 2, 1) == if c == '\\' then 2 else if c == '"' then 1 else 0
  {
    MarksConcat(acc, [c], 2, 1);
    assert [c][1..] == "";
  }

  lemma {:induction false} StringLoopPaid(r: string, acc: string)
    ensures var p := StringLoop(r, acc); p.Some? ==> Paid(r, p.value.rest, Marks(acc, 2, 1), Marks(p.value.value, 2, 1))
    decreases |r|
  {
    if r != "" && r[0] != '"' {
      if r[0] == '\\' {
        if |r| >= 2 {
          assert r[1..][1..] == r[2..];
          assert Slashes(r) == 1 + Slashes(r[1..])
            && Slashes(r[1..]) == (if r[1] == '\\' then 1 else 0) + Slashes(r[2..]);
          assert Unescape(r[1]) == '\\' ==> r[1] == '\\';
          AppendMarks(acc, Unescape(r[1]));
          StringLoopPaid(r[2..], acc + [Unescape(r[1])]);
        }
      } else {
        AppendMarks(acc, r[0]);
        StringLoopPaid(r[1..], acc + [r[0]]);
      }
    }
  }

  lemma StringPaid(r: string)
    ensures var p := ParseString(r); p.Some? ==> Paid(r, p.value.rest, 0, Marks(p.value.value, 2, 1))
  {
    if ParseString(r).Some? {
      StringLoopPaid(r[1..], "");
      DropSlashes(r, 1);
    }
  }

  // a value that is no list and no text
  lemma PlainValuePaid(q: string)
    requires q != "" && !IsSpace(q[0]) && q[0] != '[' && q[0] != '{' && q[0] != '"' && ParseValue(q).Some?
    ensures Paid(q, ParseValue(q).value.rest, 0, ValueMarks(ParseValue(q).value.value, 2, 1))
  {
    hide Digits, Fraction, Exponent, Number, IntIs, ParseString, ParseArray, ParseObject, Marks;
    var p := ParseValue(q).value;
    assert ValueMarks(p.value, 2, 1) == 0 && p.rest == q[|q| - |p.rest|..] by {
      assert SkipWhitespace(q) == q;
      if q[0] == '-' || IsDigit(q[0]) { NumberRest(q); }
    }
    DropSlashes(q, |q| - |p.rest|);
  }

  lemma NumberRest(q: string)
    requires ParseNumber(q).Some?
    ensures var p := ParseNumber(q).value;
      (p.value.Int? || p.value.Double?) && |p.rest| <= |q| && p.rest == q[|q| - |p.rest|..]
  {
    hide Digits, Fraction, Exponent, Number;
  }

  lemma {:induction false} ValuePaid(r: string)
    ensures var p := ParseValue(r); p.Some? ==> Paid(r, p.value.rest, 0, ValueMarks(p.value.value, 2, 1))
    decreases |r|, 0
  {
    hide Marks, SkipWhitespace, ParseString, ParseArray, ParseObject, ParseNumber;
    if ParseValue(r).Some? {
      var q := SkipWhitespace(r);
      SkipSlashes(r);
      SkipTwice(r);
      DropSlashes(q, 1);
      if q[0] == '[' {
        ArrayPaid(q[1..]);
      } else if q[0] == '{' {
        ObjectPaid(q[1..]);
      } else if q[0] == '"' {
        StringPaid(q);
      } else {
        assert ParseValue(q) == ParseValue(r);
        PlainValuePaid(q);
      }
    }
  }

  lemma {:induction false} ArrayPaid(r: string)
    ensures var p := ParseArray(r); p.Some? ==> Paid(r, p.value.rest, 0, ItemMarks(p.value.value, 2, 1))
    decreases |r|, 2
  {
    hide Marks, SkipWhitespace, ArrayLoop;
    var q := SkipWhitespace(r);
    SkipSlashes(r);
    if q != "" { DropSlashes(q, 1); }
    ArrayLoopPaid(q, []);
  }

  lemma {:induction false} ArrayLoopPaid(r: string, acc: seq<Json>)
    ensures var p := ArrayLoop(r, acc); p.Some? ==>
      Paid(r, p.value.rest, ItemMarks(acc, 2, 1), ItemMarks(p.value.value, 2, 1))
    decreases |r|, 1
  {
    hide Marks, SkipWhitespace, ParseValue;
    if r != "" && ArrayLoop(r, acc).Some? {
      ValuePaid(r);
      var p := ParseValue(r).value;
      var w := SkipWhitespace(p.rest);
      SkipSlashes(p.rest);
      DropSlashes(w, 1);
      ItemMarksConcat(acc, [p.value], 2, 1);
      OneItem(p.value);
      if w[0] == ',' { ArrayLoopPaid(w[1..], acc + [p.value]); }
    }
  }

  lemma OneItem(v: Json)
    ensures ItemMarks([v], 2, 1) == ValueMarks(v, 2, 1)
  {
    assert [v][1..] == [];
  }

  lemma {:induction false} ObjectPaid(r: string)
    ensures var p := ParseObject(r); p.Some? ==> Paid(r, p.value.rest, 0, FieldMarks(p.value.value, 2, 1))
    decreases |r|, 2
  {
    hide Marks, SkipWhitespace, ObjectLoop;
    var q := SkipWhitespace(r);
    SkipSlashes(r);
    if q != "" { DropSlashes(q, 1); }
    ObjectLoopPaid(q, []);
  }

  lemma {:induction false} ObjectLoopPaid(r: string, acc: seq<Field>)
    ensures var p := ObjectLoop(r, acc); p.Some? ==>
      Paid(r, p.value.rest, FieldMarks(acc, 2, 1), FieldMarks(p.value.value, 2, 1))
    decreases |r|, 1
  {
    hide Marks, SkipWhitespace, ParseValue, ParseString, Put;
    if r != "" && ObjectLoop(r, acc).Some? {
      SkipSlashes(r);
      StringPaid(SkipWhitespace(r));
      var k := ParseString(SkipWhitespace(r)).value;
      var colon := SkipWhitespace(k.rest);
      SkipSlashes(k.rest);
      DropSlashes(colon, 1);
      ValuePaid(colon[1..]);
      var p := ParseValue(colon[1..]).value;
      var w := SkipWhitespace(p.rest);
      SkipSlashes(p.rest);
      DropSlashes(w, 1);
      PutMarks(acc, k.value, p.value, 2, 1);
      if w[0] == ',' { ObjectLoopPaid(w[1..], Put(acc, k.value, p.value)); }
    }
  }

  // ---------------------------------------------------------------- printing writes one each

  lemma {:induction false} NoSlashes(s: string)
    requires forall i :: 0 <= i < |s| ==> s[i] != '\\'
    ensures Slashes(s) == 0
  {
    if s != "" { NoSlashes(s[1..]); }
  }

  lemma {:induction false} PrintSlashes(v: Json, indent: nat, double: string -> string)
    requires Shaped(v)
    ensures Slashes(Print(v, indent, double)) == ValueMarks(v, 1, 0)
    decreases v, 0
  {
    hide Marks, PrintItems, PrintFields, Ordered;
    match v
    case Null => NoSlashes("null");
    case Bool(b) => NoSlashes(Print(v, indent, double));
    case Int(n) => NoSlashes(IntToString(n));
    case Str(s) =>
      MarksConcat("\"" + s, "\"", 1, 0);
      MarksConcat("\"", s, 1, 0);
      NoSlashes("\"");
    case Arr(items) =>
      if items == [] {
        NoSlashes("[]");
      } else {
        ItemSlashes(items, indent, double);
        Framed("[\n", PrintItems(items, indent, double), Spaces(indent), "]");
      }
    case Obj(fields) =>
      if fields == [] {
        NoSlashes("{}");
      } else {
        FieldSlashes(fields, indent, double);
        Framed("{\n", PrintFields(fields, indent, double), Spaces(indent), "}");
      }
  }

  lemma Framed(open: string, body: string, spaces: string, close: string)
    requires forall i :: 0 <= i < |open| ==> open[i] != '\\'
    requires forall i :: 0 <= i < |spaces| ==> spaces[i] != '\\'
    requires forall i :: 0 <= i < |close| ==> close[i] != '\\'
    ensures Slashes(open + body + spaces + close) == Slashes(body)
  {
    hide Marks;
    MarksConcat(open + body + spaces, close, 1, 0);
    MarksConcat(open + body, spaces, 1, 0);
    MarksConcat(open, body, 1, 0);
    NoSlashes(open);
    NoSlashes(spaces);
    NoSlashes(close);
  }

  lemma {:induction false} ItemSlashes(items: seq<Json>, indent: nat, double: string -> string)
    requires forall i :: 0 <= i < |items| ==> Shaped(items[i])
    ensures Slashes(PrintItems(items, indent, double)) == ItemMarks(items, 1, 0)
    decreases items, 1
  {
    hide Marks, Print, Shaped;
    if items == [] {
      NoSlashes("");
    } else {
      var (text, sep, tail) := (Print(items[0], indent + 2, double), Separator(|items| == 1),
        PrintItems(items[1..], indent, double));
      PrintSlashes(items[0], indent + 2, double);
      ItemSlashes(items[1..], indent, double);
      Framed(Spaces(indent + 2), text, sep, "");
      assert Spaces(indent + 2) + text + sep + "" == Spaces(indent + 2) + text + sep;
      MarksConcat(Spaces(indent + 2) + text + sep, tail, 1, 0);
    }
  }

  lemma {:induction false} FieldSlashes(fields: seq<Field>, indent: nat, double: string -> string)
    requires forall i :: 0 <= i < |fields| ==> Shaped(fields[i].value)
    ensures Slashes(PrintFields(fields, indent, double)) == FieldMarks(fields, 1, 0)
    decreases fields, 1
  {
    hide Marks, Print, Shaped;
    if fields == [] {
      NoSlashes("");
    } else {
      var (key, sep) := (fields[0].key, Separator(|fields| == 1));
      var (text, tail) := (Print(fields[0].value, indent + 2, double), PrintFields(fields[1..], indent, double));
      PrintSlashes(fields[0].value, indent + 2, double);
      FieldSlashes(fields[1..], indent, double);
      Framed(Spaces(indent + 2) + "\"", key, "\": ", "");
      var front := Spaces(indent + 2) + "\"" + key + "\": ";
      assert front + "" == front;
      NoSlashes(sep);
      MarksConcat(front, text, 1, 0);
      MarksConcat(front + text, sep, 1, 0);
      MarksConcat(front + text + sep, tail, 1, 0);
    }
  }

  // ---------------------------------------------------------------- the two counts

  lemma {:induction false} PlainCounts(s: string)
    ensures Marks(s, 1, 0) <= Marks(s, 2, 1)
    ensures Marks(s, 1, 0) == Marks(s, 2, 1) <==> Plain(s)
  {
    if s != "" {
      PlainCounts(s[1..]);
      assert s == [s[0]] + s[1..];
      assert Plain(s) <==> s[0] != '"' && s[0] != '\\' && Plain(s[1..]);
    }
  }

  // Reading a value needs more backslashes than printing it writes, unless it is plain.
  lemma {:induction false} PlainValueCounts(v: Json)
    ensures ValueMarks(v, 1, 0) <= ValueMarks(v, 2, 1)
    ensures ValueMarks(v, 1, 0) == ValueMarks(v, 2, 1) ==> AllPlain(v)
    decreases v, 0
  {
    hide Marks, Plain;
    match v
    case Str(s) => PlainCounts(s);
    case Arr(items) => PlainItemCounts(items);
    case Obj(fields) => PlainFieldCounts(fields);
    case _ =>
  }

  lemma {:induction false} PlainItemCounts(items: seq<Json>)
    ensures ItemMarks(items, 1, 0) <= ItemMarks(items, 2, 1)
    ensures ItemMarks(items, 1, 0) == ItemMarks(items, 2, 1) ==> forall i :: 0 <= i < |items| ==> AllPlain(items[i])
    decreases items, 1
  {
    hide ValueMarks, AllPlain;
    if items != [] {
      PlainValueCounts(items[0]);
      PlainItemCounts(items[1..]);
      assert forall i :: 0 < i < |items| ==> items[i] == items[1..][i - 1];
    }
  }

  lemma {:induction false} PlainFieldCounts(fields: seq<Field>)
    ensures FieldMarks(fields, 1, 0) <= FieldMarks(fields, 2, 1)
    ensures FieldMarks(fields, 1, 0) == FieldMarks(fields, 2, 1) ==>
      forall i :: 0 <= i < |fields| ==> Plain(fields[i].key) && AllPlain(fields[i].value)
    decreases fields, 1
  {
    hide Marks, ValueMarks, AllPlain, Plain;
    if fields != [] {
      PlainCounts(fields[0].key);
      PlainValueCounts(fields[0].value);
      PlainFieldCounts(fields[1..]);
      assert forall i :: 0 < i < |fields| ==> fields[i] == fields[1..][i - 1];
    }
  }

  // Of the values without doubles, exactly those survive that have no quote and no backslash in
  // any string or key, however the strings of the others run into each other.
  lemma SurvivesIffPlain(v: Json, indent: nat, double: string -> string, t: string)
    requires Shaped(v) && (v.Int? ==> Delimited(t))
    ensures ParseValue(Print(v, indent, double) + t) == Some(Parsed(v, t)) <==> AllPlain(v)
  {
    hide ParseValue, Print, Marks, ValueMarks, AllPlain, Shaped, Printable;
    PrintableIs(v);
    if AllPlain(v) {
      RoundTrip(v, indent, double, t);
    } else if ParseValue(Print(v, indent, double) + t) == Some(Parsed(v, t)) {
      ValuePaid(Print(v, indent, double) + t);
      MarksConcat(Print(v, indent, double), t, 1, 0);
      PrintSlashes(v, indent, double);
      PlainValueCounts(v);
    }
  }

  // A backslash is read as an escape, and a quote as the end: the first string cannot be read back,
  // and of the second the front is.
  lemma QuoteAndBackslashAreLost(indent: nat, double: string -> string)
    ensures ParseValue(Print(Str("\\"), indent, double)) == None
    ensures ParseValue(Print(Str("a\"b"), indent, double)) == Some(Parsed(Str("a"), "b\""))
  {
    var (s, t) := (Print(Str("\\"), indent, double), Print(Str("a\"b"), indent, double));
    assert s == ['"', '\\', '"'] && t == ['"', 'a', '"', 'b', '"'];
    assert SkipWhitespace(s) == s && SkipWhitespace(t) == t;
    assert s[1..] == ['\\', '"'] && s[1..][2..] == "";
    assert t[1..] == ['a', '"', 'b', '"'] && t[1..][1..] == ['"', 'b', '"'] && t[1..][1..][1..] == "b\"";
    assert "" + ['a'] == "a" && StringLoop(t[1..][1..], "a") == Some(Parsed("a", "b\""));
    assert ParseString(t) == Some(Parsed("a", "b\""));
  }

  // A saved list is read back, whatever may follow in the text, exactly if all its values are plain.
  lemma FileSurvivesIffPlain(data: seq<Json>, double: string -> string)
    requires forall i :: 0 <= i < |data| ==> Shaped(data[i])
    ensures var p := ParseValue(FileText(data, double));
      p.Some? && p.value.value == Arr(data) <==> forall i :: 0 <= i < |data| ==> AllPlain(data[i])
  {
    hide ParseValue, Marks, AllPlain, Shaped, Printable, PrintItems;
    var p := ParseValue(FileText(data, double));
    if forall i :: 0 <= i < |data| ==> AllPlain(data[i]) {
      forall i | 0 <= i < |data| ensures Printable(data[i]) { PrintableIs(data[i]); }
      SavedIsRead(data, double);
    } else if p.Some? && p.value.value == Arr(data) {
      ValuePaid(FileText(data, double));
      ItemSlashes(data, 0, double);
      assert FileText(data, double) == "[\n" + PrintItems(data, 0, double) + "" + "]";
      Framed("[\n", PrintItems(data, 0, double), "", "]");
      PlainItemCounts(data);
    }
  }

  // What is read from a saved list is a list.
  lemma FileIsArray(data: seq<Json>, double: string -> string)
    ensures var p := ParseValue(FileText(data, double)); p.Some? ==> p.value.value.Arr?
  {
    var r := FileText(data, double);
    assert r[0] == '[' && SkipWhitespace(r) == r;
  }
}
