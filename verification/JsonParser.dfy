/**
  The parser of json.hpp as it runs: each function advances a position in the text, with loops for
  white space, strings, numbers, arrays and objects; and the list of values that saveToFile and
  loadFromFile move to and from a file. A file is its text.
*/
module JsonParser {
  import opened Common
  import opened Json
  import opened JsonSurvival

  // The method has read at pos what the grammar reads from there, and stands behind it.
  ghost predicate Agrees<T>(text: string, pos: nat, p: Option<Parsed<T>>, r: Option<(T, nat)>)
    requires pos <= |text|
  {
    match r
    case None => p.None?
    case Some((value, next)) =>
      && p.Some? && value == p.value.value && pos < next <= |text|
      && text[next..] == p.value.rest
  }

  method SkipWhitespaceAt(text: string, pos: nat) returns (next: nat)
    requires pos <= |text|
    ensures pos <= next <= |text| && text[next..] == SkipWhitespace(text[pos..])
  {
    next := pos;
    while next < |text| && IsSpace(text[next])
      invariant pos <= next <= |text| && SkipWhitespace(text[next..]) == SkipWhitespace(text[pos..])
    {
      assert text[next..][1..] == text[next + 1..];
      next := next + 1;
    }
  }

  method ParseStringAt(text: string, pos: nat) returns (r: Option<(string, nat)>)
    requires pos <= |text|
    ensures Agrees(text, pos, ParseString(text[pos..]), r)
  {
    if pos == |text| || text[pos] != '"' {
      return None;
    }
    var next, result := pos + 1, "";
    assert text[pos..][1..] == text[pos + 1..];
    while next < |text| && text[next] != '"'
      invariant pos < next <= |text|
      invariant StringLoop(text[next..], result) == ParseString(text[pos..])
      decreases |text| - next
    {
      var rest := text[next..];
      if text[next] == '\\' {
        next := next + 1;
        if next >= |text| {
          return None;
        }
        assert rest[2..] == text[next + 1..];
        result := result + [Unescape(text[next])];
      } else {
        assert rest[1..] == text[next + 1..];
        result := result + [text[next]];
      }
      next := next + 1;
    }
    if next >= |text| {
      return None;
    }
    assert text[next..][1..] == text[next + 1..];
    return Some((result, next + 1));
  }

  // the loops over digits in parseNumber
  method SkipDigits(text: string, pos: nat) returns (next: nat)
    requires pos <= |text|
    ensures pos <= next <= |text| && text[pos..next] == Digits(text[pos..])
  {
    hide Digits;
    next := pos;
    while next < |text| && IsDigit(text[next])
      invariant pos <= next <= |text| && Digits(text[pos..]) == text[pos..next] + Digits(text[next..])
    {
      NextDigit(text, pos, next);
      next := next + 1;
    }
    NoDigit(text[next..]);
  }

  lemma NextDigit(text: string, pos: nat, next: nat)
    requires pos <= next < |text| && IsDigit(text[next])
    ensures Digits(text[next..]) == [text[next]] + Digits(text[next + 1..])
    ensures text[pos..next + 1] == text[pos..next] + [text[next]]
  {
    assert text[next..][1..] == text[next + 1..];
  }

  lemma NoDigit(r: string)
    requires r == "" || !IsDigit(r[0])
    ensures Digits(r) == ""
  {
  }

  // lines 246-257
  method FractionAt(text: string, pos: nat) returns (next: Option<nat>)
    requires pos <= |text|
    ensures next == match Fraction(text[pos..]) case None => None case Some(n) => Some(pos + n)
  {
    if pos == |text| || text[pos] != '.' {
      return Some(pos);
    }
    assert text[pos..][1..] == text[pos + 1..];
    var end := SkipDigits(text, pos + 1);
    if end == pos + 1 {
      return None;
    }
    return Some(end);
  }

  // lines 259-274
  method ExponentAt(text: string, pos: nat) returns (next: Option<nat>)
    requires pos <= |text|
    ensures next == match Exponent(text[pos..]) case None => None case Some(n) => Some(pos + n)
  {
    if pos == |text| || (text[pos] != 'e' && text[pos] != 'E') {
      return Some(pos);
    }
    var digits := pos + 1;
    if digits < |text| && (text[digits] == '+' || text[digits] == '-') {
      digits := digits + 1;
    }
    assert text[pos..][digits - pos..] == text[digits..];
    var end := SkipDigits(text, digits);
    if end == digits {
      return None;
    }
    return Some(end);
  }

  // std::stoi on an optional minus and digits; None if the value does not fit an int
  function Stoi(numeral: string): Option<int> {
    var i: int := if numeral != "" && numeral[0] == '-' then -(Number(numeral[1..]) as int) else Number(numeral) as int;
    if INT_MIN <= i <= INT_MAX then Some(i) else None
  }

  method ParseNumberAt(text: string, start: nat) returns (r: Option<(Json, nat)>)
    requires start < |text|
    ensures Agrees(text, start, ParseNumber(text[start..]), r)
  {
    hide Digits, Fraction, Exponent, IsDigit, Stoi, ParseNumber, IntIs, Number;
    var pos := if text[start] == '-' then start + 1 else start;
    var end := SkipDigits(text, pos);
    NoNumberAt(text, start, pos, end);
    if end == pos {
      return None;
    }
    var f := FractionAt(text, end);
    if f.None? {
      return None;
    }
    var e := ExponentAt(text, f.value);
    if e.None? {
      return None;
    }
    NumberAt(text, start, pos, end, f.value - end, e.value - f.value);
    var numeral := text[start..e.value];
    if e.value > end {
      return if STOD_CONVERTS(numeral) then Some((Double(numeral), e.value)) else None;
    }
    Converts(text, start, pos, end);
    match Stoi(numeral)
    case None => return None;
    case Some(i) => return Some((Int(i), e.value));
  }

  // the two facts about numbers, for positions in the text
  lemma NoNumberAt(text: string, start: nat, pos: nat, end: nat)
    requires start < |text| && pos == (if text[start] == '-' then start + 1 else start)
    requires pos <= end <= |text| && text[pos..end] == Digits(text[pos..])
    ensures end == pos || Fraction(text[end..]).None? ==> ParseNumber(text[start..]).None?
    ensures Fraction(text[end..]).Some? && Exponent(text[end + Fraction(text[end..]).value..]).None? ==>
      ParseNumber(text[start..]).None?
  {
    hide Digits, Fraction, Exponent, Number, ParseNumber;
    Later(text, start, pos);
    Later(text, start, end);
    NoNumber(text[start..]);
    if Fraction(text[end..]).Some? { Later(text, start, end + Fraction(text[end..]).value); }
  }

  lemma NumberAt(text: string, start: nat, pos: nat, end: nat, f: nat, e: nat)
    requires start < |text| && pos == (if text[start] == '-' then start + 1 else start)
    requires pos < end <= |text| && text[pos..end] == Digits(text[pos..]) && end + f + e <= |text|
    requires Fraction(text[end..]) == Some(f) && Exponent(text[end + f..]) == Some(e)
    ensures ParseNumber(text[start..]) ==
      if f + e > 0 then DoubleIs(text[start..end + f + e], text[end + f + e..])
      else IntIs(pos - start, text[pos..end], text[end..])
  {
    hide Digits, Fraction, Exponent, Number, ParseNumber, IntIs;
    var (r, minus, d) := (text[start..], pos - start, text[pos..end]);
    var n := minus + |d|;
    assert start + n == end;
    assert r[minus..] == text[pos..] by { Later(text, start, pos); }
    assert r[n..] == text[end..] by { Later(text, start, end); }
    assert r[n + f..] == text[end + f..] by { Later(text, start, end + f); }
    assert r[n + f + e..] == text[end + f + e..] && r[..n + f + e] == text[start..end + f + e] by {
      Later(text, start, end + f + e);
    }
    NumberIs(r, minus, d, f, e);
  }

  lemma Converts(text: string, start: nat, pos: nat, end: nat)
    requires start < |text| && pos == (if text[start] == '-' then start + 1 else start) && pos < end <= |text|
    ensures IntIs(pos - start, text[pos..end], text[end..]) ==
      match Stoi(text[start..end]) case None => None case Some(i) => Some(Parsed(Int(i), text[end..]))
  {
    hide Number;
    assert text[start..end][pos - start..] == text[pos..end];
  }

  lemma Later(text: string, start: nat, pos: nat)
    requires start <= pos <= |text|
    ensures text[start..][pos - start..] == text[pos..] && text[start..][..pos - start] == text[start..pos]
  {
  }

  method ParseArrayAt(text: string, pos: nat) returns (r: Option<(seq<Json>, nat)>)
    requires pos < |text|
    ensures Agrees(text, pos, ParseArray(text[pos + 1..]), r)
    decreases |text| - pos, 0
  {
    hide ParseValue, ParseArray, ArrayLoop, SkipWhitespace;
    ArrayStart(text[pos + 1..]);
    var next := SkipWhitespaceAt(text, pos + 1);
    if next < |text| && text[next] == ']' {
      assert text[next..][1..] == text[next + 1..];
      return Some(([], next + 1));
    }
    var arr := [];
    while next < |text|
      invariant pos < next <= |text| && ArrayLoop(text[next..], arr) == ParseArray(text[pos + 1..])
      decreases |text| - next
    {
      ghost var rest := text[next..];
      ArrayLoopStep(rest, arr);
      var v := ParseValueAt(text, next);
      if v.None? {
        return None;
      }
      arr := arr + [v.value.0];
      next := SkipWhitespaceAt(text, v.value.1);
      if next >= |text| {
        return None;
      }
      assert text[next..][1..] == text[next + 1..];
      if text[next] == ']' {
        return Some((arr, next + 1));
      } else if text[next] == ',' {
        next := next + 1;
      } else {
        return None;
      }
    }
    ArrayLoopEnd(arr);
    return Some((arr, next));
  }

  lemma ArrayStart(r: string)
    ensures var q := SkipWhitespace(r);
      ParseArray(r) == if q != "" && q[0] == ']' then Some(Parsed([], q[1..])) else ArrayLoop(q, [])
  {
  }

  lemma ArrayLoopEnd(acc: seq<Json>)
    ensures ArrayLoop("", acc) == Some(Parsed(acc, ""))
  {
  }

  lemma ArrayLoopStep(r: string, acc: seq<Json>)
    requires r != ""
    ensures ParseValue(r).None? ==> ArrayLoop(r, acc).None?
    ensures ParseValue(r).Some? ==>
      (var p := ParseValue(r).value; var w := SkipWhitespace(p.rest);
       ArrayLoop(r, acc) ==
         if w == "" then None
         else if w[0] == ']' then Some(Parsed(acc + [p.value], w[1..]))
         else if w[0] == ',' then ArrayLoop(w[1..], acc + [p.value])
         else None)
  {
  }

  method ParseObjectAt(text: string, pos: nat) returns (r: Option<(seq<Field>, nat)>)
    requires pos < |text|
    ensures Agrees(text, pos, ParseObject(text[pos + 1..]), r)
    decreases |text| - pos, 0
  {
    hide FieldOf, ParseObject, ObjectLoop, SkipWhitespace, Put;
    ObjectStart(text[pos + 1..]);
    var next := SkipWhitespaceAt(text, pos + 1);
    if next < |text| && text[next] == '}' {
      assert text[next..][1..] == text[next + 1..];
      return Some(([], next + 1));
    }
    var obj := [];
    while next < |text|
      invariant pos < next <= |text| && ObjectLoop(text[next..], obj) == ParseObject(text[pos + 1..])
      decreases |text| - next
    {
      ghost var rest := text[next..];
      ObjectLoopStep(rest, obj);
      var f := ParseFieldAt(text, next);
      if f.None? {
        return None;
      }
      obj := Put(obj, f.value.0, f.value.1);
      next := SkipWhitespaceAt(text, f.value.2);
      if next >= |text| {
        return None;
      }
      assert text[next..][1..] == text[next + 1..];
      if text[next] == '}' {
        return Some((obj, next + 1));
      } else if text[next] == ',' {
        next := next + 1;
      } else {
        return None;
      }
    }
    ObjectLoopEnd(obj);
    return Some((obj, next));
  }

  lemma ObjectStart(r: string)
    ensures var q := SkipWhitespace(r);
      ParseObject(r) == if q != "" && q[0] == '}' then Some(Parsed([], q[1..])) else ObjectLoop(q, [])
  {
  }

  lemma ObjectLoopEnd(acc: seq<Field>)
    ensures ObjectLoop("", acc) == Some(Parsed(acc, ""))
  {
  }

  // What the grammar reads for a key, a colon and a value, or None.
  function FieldOf(r: string): Option<Parsed<Field>> {
    match ParseString(SkipWhitespace(r))
    case None => None
    case Some(k) =>
      var colon := SkipWhitespace(k.rest);
      if colon == "" || colon[0] != ':' then None else
        match ParseValue(colon[1..])
        case None => None
        case Some(p) => Some(Parsed(Field(k.value, p.value), p.rest))
  }

  lemma ObjectLoopStep(r: string, acc: seq<Field>)
    requires r != ""
    ensures FieldOf(r).None? ==> ObjectLoop(r, acc).None?
    ensures FieldOf(r).Some? ==>
      (var f := FieldOf(r).value; var w := SkipWhitespace(f.rest); var fields := Put(acc, f.value.key, f.value.value);
       ObjectLoop(r, acc) ==
         if w == "" then None
         else if w[0] == '}' then Some(Parsed(fields, w[1..]))
         else if w[0] == ',' then ObjectLoop(w[1..], fields)
         else None)
  {
  }

  // lines 135-149
  method ParseFieldAt(text: string, pos: nat) returns (r: Option<(string, Json, nat)>)
    requires pos < |text|
    ensures match r
            case None => FieldOf(text[pos..]).None?
            case Some((key, value, next)) =>
              pos < next <= |text| && FieldOf(text[pos..]) == Some(Parsed(Field(key, value), text[next..]))
    decreases |text| - pos, 2
  {
    hide ParseString, ParseValue, SkipWhitespace;
    var next := SkipWhitespaceAt(text, pos);
    var k := ParseStringAt(text, next);
    if k.None? {
      return None;
    }
    var colon := SkipWhitespaceAt(text, k.value.1);
    if colon >= |text| || text[colon] != ':' {
      return None;
    }
    assert text[colon..][1..] == text[colon + 1..];
    var v := ParseValueAt(text, colon + 1);
    if v.None? {
      return None;
    }
    return Some((k.value.0, v.value.0, v.value.1));
  }

  method ParseValueAt(text: string, start: nat) returns (r: Option<(Json, nat)>)
    requires start <= |text|
    ensures Agrees(text, start, ParseValue(text[start..]), r)
    decreases |text| - start, 1
  {
    var pos := SkipWhitespaceAt(text, start);
    if pos >= |text| {
      return None;
    }
    var c := text[pos];
    assert text[pos..][1..] == text[pos + 1..];
    if c == '"' {
      var s := ParseStringAt(text, pos);
      match s
      case None => return None;
      case Some((value, next)) => return Some((Str(value), next));
    } else if c == '{' {
      var o := ParseObjectAt(text, pos);
      match o
      case None => return None;
      case Some((value, next)) => return Some((Obj(value), next));
    } else if c == '[' {
      var a := ParseArrayAt(text, pos);
      match a
      case None => return None;
      case Some((value, next)) => return Some((Arr(value), next));
    } else if c == 't' || c == 'f' || c == 'n' {
      r := ParseWordAt(text, pos);
    } else if c == '-' || IsDigit(c) {
      r := ParseNumberAt(text, pos);
    } else {
      return None;
    }
  }

  // parseBoolean and parseNull
  method ParseWordAt(text: string, pos: nat) returns (r: Option<(Json, nat)>)
    requires pos < |text| && (text[pos] == 't' || text[pos] == 'f' || text[pos] == 'n')
    ensures Agrees(text, pos, ParseValue(text[pos..]), r)
  {
    ghost var q := text[pos..];
    assert SkipWhitespace(q) == q;
    WordAt(text, pos, "true");
    WordAt(text, pos, "false");
    WordAt(text, pos, "null");
    if text[pos] != 'n' && pos + 4 <= |text| && text[pos..pos + 4] == "true" {
      return Some((Bool(true), pos + 4));
    } else if text[pos] != 'n' && pos + 5 <= |text| && text[pos..pos + 5] == "false" {
      return Some((Bool(false), pos + 5));
    } else if text[pos] == 'n' && pos + 4 <= |text| && text[pos..pos + 4] == "null" {
      return Some((Null, pos + 4));
    }
    return None;
  }

  lemma WordAt(text: string, pos: nat, word: string)
    requires pos <= |text|
    ensures StartsWith(text[pos..], word) <==> pos + |word| <= |text| && text[pos..pos + |word|] == word
    ensures pos + |word| <= |text| ==> text[pos..][|word|..] == text[pos + |word|..]
  {
    if StartsWith(text[pos..], word) { assert text[pos..][..|word|] == text[pos..pos + |word|]; }
  }

  // ---------------------------------------------------------------- the printer

  method ValueToString(v: Json, indent: nat, double: string -> string) returns (text: string)
    ensures text == Print(v, indent, double)
    decreases v, 0
  {
    match v
    case Null => return "null";
    case Bool(b) => return if b then "true" else "false";
    case Int(n) => return IntToString(n);
    case Double(numeral) => return double(numeral);
    case Str(s) => return "\"" + s + "\"";
    case Arr(items) =>
      if items == [] {
        return "[]";
      }
      var body := ItemsToString(items, indent, double);
      return "[\n" + body + Spaces(indent) + "]";
    case Obj(fields) =>
      if fields == [] {
        return "{}";
      }
      var body := FieldsToString(fields, indent, double);
      return "{\n" + body + Spaces(indent) + "}";
  }

  // lines 334-338
  method ItemsToString(items: seq<Json>, indent: nat, double: string -> string) returns (text: string)
    ensures text == PrintItems(items, indent, double)
    decreases items, 1
  {
    hide Print, PrintItems;
    var nextIndentStr := Spaces(indent + 2);
    text := "";
    for i := 0 to |items|
      invariant text + PrintItems(items[i..], indent, double) == PrintItems(items, indent, double)
    {
      var item := ValueToString(items[i], indent + 2, double);
      NextItem(items, i, indent, double);
      text := text + (nextIndentStr + item + (if i < |items| - 1 then "," else "") + "\n");
    }
    LastItems(items, indent, double);
  }

  // lines 346-351
  method FieldsToString(fields: seq<Field>, indent: nat, double: string -> string) returns (text: string)
    ensures text == PrintFields(fields, indent, double)
    decreases fields, 1
  {
    hide Print, PrintFields;
    var nextIndentStr := Spaces(indent + 2);
    text := "";
    for i := 0 to |fields|
      invariant text + PrintFields(fields[i..], indent, double) == PrintFields(fields, indent, double)
    {
      var value := ValueToString(fields[i].value, indent + 2, double);
      NextField(fields, i, indent, double);
      text := text + (nextIndentStr + "\"" + fields[i].key + "\": " + value + (if i < |fields| - 1 then ","
        else "") + "\n");
    }
    LastFields(fields, indent, double);
  }

  lemma LastItems(items: seq<Json>, indent: nat, double: string -> string)
    ensures items[0..] == items && PrintItems(items[|items|..], indent, double) == ""
  {
  }

  lemma LastFields(fields: seq<Field>, indent: nat, double: string -> string)
    ensures fields[0..] == fields && PrintFields(fields[|fields|..], indent, double) == ""
  {
  }

  lemma NextItem(items: seq<Json>, i: nat, indent: nat, double: string -> string)
    requires i < |items|
    ensures PrintItems(items[i..], indent, double) ==
      Spaces(indent + 2) + Print(items[i], indent + 2, double) + (if i < |items| - 1 then "," else "") + "\n"
      + PrintItems(items[i + 1..], indent, double)
  {
    hide Print;
    assert items[i..][1..] == items[i + 1..];
  }

  lemma NextField(fields: seq<Field>, i: nat, indent: nat, double: string -> string)
    requires i < |fields|
    ensures PrintFields(fields[i..], indent, double) ==
      Spaces(indent + 2) + "\"" + fields[i].key + "\": " + Print(fields[i].value, indent + 2, double)
      + (if i < |fields| - 1 then "," else "") + "\n" + PrintFields(fields[i + 1..], indent, double)
  {
    hide Print;
    assert fields[i..][1..] == fields[i + 1..];
  }

  // ---------------------------------------------------------------- the list of values

  class JsonParser {
    var data: seq<Json>

    constructor ()
      ensures data == []
    {
      data := [];
    }

    method AppendFromString(text: string) returns (ok: bool)
      modifies this
      ensures match ParseValue(text)
              case None => !ok && data == old(data)
              case Some(p) => ok && data == old(data) + [p.value]
    {
      assert text[0..] == text;
      var v := ParseValueAt(text, 0);
      if v.None? {
        return false;
      }
      data := data + [v.value.0];
      return true;
    }

    // saveToFile: the array framing around the printed values
    method SaveToFile(double: string -> string) returns (file: string)
      ensures file == FileText(data, double)
    {
      file := "[\n";
      for i := 0 to |data|
        invariant file + PrintItems(data[i..], 0, double) == "[\n" + PrintItems(data, 0, double)
      {
        var text := ValueToString(data[i], 2, double);
        NextItem(data, i, 0, double);
        assert Spaces(2) == "  ";
        file := file + ("  " + text + (if i < |data| - 1 then "," else "") + "\n");
      }
      assert file + PrintItems(data[|data|..], 0, double) == file;
      file := file + "]";
    }

    // loadFromFile: an array gives its elements, anything else one value; a failure changes nothing.
    method LoadFromFile(file: string, appendMode: bool) returns (ok: bool)
      modifies this
      ensures match ParseValue(file)
              case None => !ok && data == old(data)
              case Some(p) => ok && data == (if appendMode then old(data) else []) + if p.value.Arr? then p.value.items
                else [p.value]
    {
      assert file[0..] == file;
      var v := ParseValueAt(file, 0);
      if v.None? {
        return false;
      }
      if !appendMode {
        data := [];
      }
      data := data + if v.value.0.Arr? then v.value.0.items else [v.value.0];
      return true;
    }
  }

  // What one parser saves another one loads, exactly if no string and no key has a quote or a
  // backslash; values with doubles are left out.
  method SaveAndLoad(saver: JsonParser, loader: JsonParser, double: string -> string) returns (ok: bool)
    requires forall i :: 0 <= i < |saver.data| ==> Shaped(saver.data[i])
    modifies loader
    ensures ok && loader.data == old(saver.data) <==> forall i :: 0 <= i < |old(saver.data)| ==>
      AllPlain(old(saver.data)[i])
  {
    hide *;
    var file := saver.SaveToFile(double);
    ghost var data := saver.data;
    FileSurvivesIffPlain(data, double);
    FileIsArray(data, double);
    ok := loader.LoadFromFile(file, false);
    assert ok ==> loader.data == [] + ParseValue(file).value.value.items;
  }
}
