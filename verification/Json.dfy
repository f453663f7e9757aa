/**
  The printer and the recursive-descent parser of json.hpp. The specification parses what is left
  of the text and returns the value with the rest; the methods work on a position in the text, as
  the source does, and are proved against it. An exception is None.

  Text is a sequence of characters below 256. A number with a fraction or an exponent keeps its
  numeral: what std::stod and std::to_string make of it is not part of this model.
*/
module Json {
  import opened Common

  datatype Json =
    | Null
    | Bool(b: bool)
    | Int(n: int)
    | Double(numeral: string)
    | Str(s: string)
    | Arr(items: seq<Json>)
    | Obj(fields: seq<Field>)   // std::map: by increasing key

  datatype Field = Field(key: string, value: Json)

  datatype Parsed<+T> = Parsed(value: T, rest: string)

  // ---------------------------------------------------------------- characters

  predicate IsSpace(c: char) { c == ' ' || '\t' <= c <= '\r' }

  predicate IsDigit(c: char) { '0' <= c <= '9' }

  function Unescape(c: char): char {
    match c
    case 'b' => 8 as char
    case 'f' => 12 as char
    case 'n' => '\n'
    case 'r' => '\r'
    case 't' => '\t'
    case _ => c
  }

  // ---------------------------------------------------------------- objects

  predicate Less(a: string, b: string) {
    if b == "" then false else if a == "" then true
    else if a[0] != b[0] then a[0] < b[0] else Less(a[1..], b[1..])
  }

  // obj[key] = value
  function Put(fields: seq<Field>, key: string, value: Json): seq<Field> {
    if fields == [] || Less(key, fields[0].key) then [Field(key, value)] + fields
    else if key == fields[0].key then [Field(key, value)] + fields[1..]
    else [fields[0]] + Put(fields[1..], key, value)
  }

  predicate Ordered(fields: seq<Field>) {
    forall i, j :: 0 <= i < j < |fields| ==> Less(fields[i].key, fields[j].key)
  }

  function Lookup(fields: seq<Field>, key: string): Option<Json> {
    if fields == [] then None else if fields[0].key == key then Some(fields[0].value) else Lookup(fields[1..], key)
  }

  lemma {:induction false} LessIsOrder(a: string, b: string, c: string)
    ensures !Less(a, a)
    ensures Less(a, b) && Less(b, c) ==> Less(a, c)
    ensures a == b || Less(a, b) || Less(b, a)
    decreases |a|
  {
    if a != [] {
      LessIsOrder(a[1..], if b == "" then "" else b[1..], if c == "" then "" else c[1..]);
      if b != "" && a[0] == b[0] && a[1..] == b[1..] { assert a == [a[0]] + a[1..] && b == [b[0]] + b[1..]; }
    }
  }

  // x is one of the keys
  ghost predicate HasKey(fields: seq<Field>, x: string) {
    exists j {:trigger fields[j]} :: 0 <= j < |fields| && fields[j].key == x
  }

  lemma {:induction false} PutKeys(fields: seq<Field>, key: string, value: Json, i: nat)
    requires i < |Put(fields, key, value)|
    ensures Put(fields, key, value)[i].key == key || HasKey(fields, Put(fields, key, value)[i].key)
  {
    if fields != [] {
      var (first, rest, p) := (fields[0].key, fields[1..], Put(fields, key, value));
      if Less(key, first) {
        assert i > 0 ==> p[i] == fields[i - 1];
      } else if key == first {
        assert i > 0 ==> p[i] == fields[i];
      } else if i > 0 {
        PutKeys(rest, key, value, i - 1);
        if HasKey(rest, p[i].key) {
          var j :| 0 <= j < |rest| && rest[j].key == p[i].key;
          assert fields[j + 1].key == p[i].key;
        }
      }
    }
  }

  // Put keeps the keys in order.
  lemma {:induction false} PutKeepsOrder(fields: seq<Field>, key: string, value: Json)
    requires Ordered(fields)
    ensures Ordered(Put(fields, key, value))
  {
    if fields != [] {
      var (first, rest) := (fields[0].key, fields[1..]);
      LessIsOrder(key, first, key);
      if Less(key, first) {
        forall j | 0 <= j < |fields| ensures Less(key, fields[j].key) { LessIsOrder(key, first, fields[j].key); }
      } else if key != first {
        PutKeepsOrder(rest, key, value);
        var p := Put(rest, key, value);
        forall i | 0 <= i < |p| ensures Less(first, p[i].key) {
          PutKeys(rest, key, value, i);
          if HasKey(rest, p[i].key) {
            var j :| 0 <= j < |rest| && rest[j].key == p[i].key;
            assert fields[j + 1].key == p[i].key;
          }
        }
      }
    }
  }

  // Put is the assignment of a map.
  lemma {:induction false} PutIsAssignment(fields: seq<Field>, key: string, value: Json, other: string)
    ensures Lookup(Put(fields, key, value), other) == if other == key then Some(value) else Lookup(fields, other)
  {
    if fields != [] {
      var (first, rest) := (fields[0].key, fields[1..]);
      assert ([Field(key, value)] + fields)[1..] == fields && ([Field(key, value)] + rest)[1..] == rest;
      LessIsOrder(key, first, key);
      if !Less(key, first) && key != first {
        PutIsAssignment(rest, key, value, other);
        assert ([fields[0]] + Put(rest, key, value))[1..] == Put(rest, key, value);
      }
    }
  }

  // ---------------------------------------------------------------- the grammar the parser accepts

  function SkipWhitespace(r: string): (q: string)
    ensures |q| <= |r| && (q != "" ==> !IsSpace(q[0]))
  {
    if r != "" && IsSpace(r[0]) then SkipWhitespace(r[1..]) else r
  }

  // behind the opening quote
  function StringLoop(r: string, acc: string): (p: Option<Parsed<string>>)
    ensures p.Some? ==> |p.value.rest| < |r|
    decreases |r|
  {
    if r == "" then None
    else if r[0] == '"' then Some(Parsed(acc, r[1..]))
    else if r[0] == '\\' then (if |r| < 2 then None else StringLoop(r[2..], acc + [Unescape(r[1])]))
    else StringLoop(r[1..], acc + [r[0]])
  }

  function ParseString(r: string): (p: Option<Parsed<string>>)
    ensures p.Some? ==> |p.value.rest| < |r|
  {
    if r == "" || r[0] != '"' then None else StringLoop(r[1..], "")
  }

  // the digits at the front
  function Digits(r: string): (d: string)
    ensures |d| <= |r| && d == r[..|d|]
  {
    if r != "" && IsDigit(r[0]) then [r[0]] + Digits(r[1..]) else ""
  }

  function Number(d: string): nat {
    if d == "" then 0 else 10 * Number(d[..|d| - 1]) + if IsDigit(d[|d| - 1]) then d[|d| - 1] as int - '0' as int else 0
  }

  const INT_MIN := -0x8000_0000
  const INT_MAX := 0x7fff_ffff

  // What follows the digits of the integer part: a fraction, an exponent, or neither. None if one
  // begins and has no digits.
  function Fraction(r: string): (n: Option<nat>)
    ensures n.Some? ==> n.value <= |r|
  {
    if r == "" || r[0] != '.' then Some(0)
    else if Digits(r[1..]) == "" then None else Some(1 + |Digits(r[1..])|)
  }

  function Exponent(r: string): (n: Option<nat>)
    ensures n.Some? ==> n.value <= |r|
  {
    if r == "" || (r[0] != 'e' && r[0] != 'E') then Some(0) else
      var sign := if |r| > 1 && (r[1] == '+' || r[1] == '-') then 1 else 0;
      if Digits(r[1 + sign..]) == "" then None else Some(1 + sign + |Digits(r[1 + sign..])|)
  }

  // The numerals that std::stod converts; for the others it throws. Which these are is open here:
  // every result holds whatever they are.
  const STOD_CONVERTS: string -> bool

  function DoubleIs(numeral: string, rest: string): (p: Option<Parsed<Json>>)
    ensures p.Some? ==> p.value.rest == rest
  {
    if STOD_CONVERTS(numeral) then Some(Parsed(Double(numeral), rest)) else None
  }

  function ParseNumber(r: string): (p: Option<Parsed<Json>>)
    ensures p.Some? ==> |p.value.rest| < |r|
  {
    var minus := if r != "" && r[0] == '-' then 1 else 0;
    var d := Digits(r[minus..]);
    if d == "" then None else
      var n := minus + |d|;
      match Fraction(r[n..])
      case None => None
      case Some(f) =>
        match Exponent(r[n + f..])
        case None => None
        case Some(e) =>
          if f + e > 0 then DoubleIs(r[..n + f + e], r[n + f + e..])
          else IntIs(minus, d, r[n..])
  }

  // std::stoi
  function IntIs(minus: nat, d: string, rest: string): (p: Option<Parsed<Json>>)
    ensures p.Some? ==> p.value.rest == rest
  {
    var i: int := if minus == 1 then -(Number(d) as int) else Number(d) as int;
    if INT_MIN <= i <= INT_MAX then Some(Parsed(Int(i), rest)) else None
  }

  predicate StartsWith(r: string, word: string) {
    word <= r
  }

  function ParseValue(r: string): (p: Option<Parsed<Json>>)
    ensures p.Some? ==> |p.value.rest| < |r|
    decreases |r|, 0
  {
    var q := SkipWhitespace(r);
    if q == "" then None
    else if q[0] == '"' then
      match ParseString(q) case None => None case Some(p) => Some(Parsed(Str(p.value), p.rest))
    else if q[0] == '{' then
      match ParseObject(q[1..]) case None => None case Some(p) => Some(Parsed(Obj(p.value), p.rest))
    else if q[0] == '[' then
      match ParseArray(q[1..]) case None => None case Some(p) => Some(Parsed(Arr(p.value), p.rest))
    else if q[0] == 't' || q[0] == 'f' then
      if StartsWith(q, "true") then Some(Parsed(Bool(true), q[4..]))
      else if StartsWith(q, "false") then Some(Parsed(Bool(false), q[5..]))
      else None
    else if q[0] == 'n' then
      if StartsWith(q, "null") then Some(Parsed(Null, q[4..])) else None
    else if q[0] == '-' || IsDigit(q[0]) then ParseNumber(q)
    else None
  }

  // behind the opening bracket
  function ParseArray(r: string): (p: Option<Parsed<seq<Json>>>)
    ensures p.Some? ==> |p.value.rest| <= |r|
    decreases |r|, 2
  {
    var q := SkipWhitespace(r);
    if q != "" && q[0] == ']' then Some(Parsed([], q[1..])) else ArrayLoop(q, [])
  }

  // A comma at the very end of the text ends the array too.
  function ArrayLoop(r: string, acc: seq<Json>): (p: Option<Parsed<seq<Json>>>)
    ensures p.Some? ==> |p.value.rest| <= |r|
    decreases |r|, 1
  {
    if r == "" then Some(Parsed(acc, "")) else
      match ParseValue(r)
      case None => None
      case Some(p) =>
        var w := SkipWhitespace(p.rest);
        if w == "" then None
        else if w[0] == ']' then Some(Parsed(acc + [p.value], w[1..]))
        else if w[0] == ',' then ArrayLoop(w[1..], acc + [p.value])
        else None
  }

  function ParseObject(r: string): (p: Option<Parsed<seq<Field>>>)
    ensures p.Some? ==> |p.value.rest| <= |r|
    decreases |r|, 2
  {
    var q := SkipWhitespace(r);
    if q != "" && q[0] == '}' then Some(Parsed([], q[1..])) else ObjectLoop(q, [])
  }

  function ObjectLoop(r: string, acc: seq<Field>): (p: Option<Parsed<seq<Field>>>)
    ensures p.Some? ==> |p.value.rest| <= |r|
    decreases |r|, 1
  {
    if r == "" then Some(Parsed(acc, "")) else
      match ParseString(SkipWhitespace(r))
      case None => None
      case Some(k) =>
        var colon := SkipWhitespace(k.rest);
        if colon == "" || colon[0] != ':' then None else
          match ParseValue(colon[1..])
          case None => None
          case Some(p) =>
            var (w, fields) := (SkipWhitespace(p.rest), Put(acc, k.value, p.value));
            if w == "" then None
            else if w[0] == '}' then Some(Parsed(fields, w[1..]))
            else if w[0] == ',' then ObjectLoop(w[1..], fields)
            else None
  }

  // ---------------------------------------------------------------- the printer

  function Spaces(n: nat): (t: string)
    ensures |t| == n
  {
    seq(n, _ => ' ')
  }

  // std::to_string
  function Decimal(n: nat): (d: string)
    ensures d != "" && forall i :: 0 <= i < |d| ==> IsDigit(d[i])
  {
    (if n < 10 then "" else Decimal(n / 10)) + [(n % 10 + '0' as int) as char]
  }

  function IntToString(n: int): string {
    if n < 0 then "-" + Decimal(-n) else Decimal(n)
  }

  // valueToString
  function Print(v: Json, indent: nat, double: string -> string): string
    decreases v, 0
  {
    match v
    case Null => "null"
    case Bool(b) => if b then "true" else "false"
    case Int(n) => IntToString(n)
    case Double(numeral) => double(numeral)
    case Str(s) => "\"" + s + "\""
    case Arr(items) => if items == [] then "[]" else "[\n" + PrintItems(items, indent, double) + Spaces(indent) + "]"
    case Obj(fields) => if fields == [] then "{}"
      else "{\n" + PrintFields(fields, indent, double) + Spaces(indent) + "}"
  }

  function Separator(last: bool): string {
    if last then "\n" else ",\n"
  }

  function PrintItems(items: seq<Json>, indent: nat, double: string -> string): string
    decreases items, 1
  {
    if items == [] then "" else
      Spaces(indent + 2) + Print(items[0], indent + 2, double) + Separator(|items| == 1)
      + PrintItems(items[1..], indent, double)
  }

  function PrintFields(fields: seq<Field>, indent: nat, double: string -> string): string
    decreases fields, 1
  {
    if fields == [] then "" else
      Spaces(indent + 2) + "\"" + fields[0].key + "\": " + Print(fields[0].value, indent + 2, double)
      + Separator(|fields| == 1) + PrintFields(fields[1..], indent, double)
  }

  // Text that needs no escapes.
  predicate Plain(s: string) {
    forall i :: 0 <= i < |s| ==> s[i] != '"' && s[i] != '\\'
  }

  // The values that survive printing: no doubles, and no text that would need escapes.
  ghost predicate Printable(v: Json) {
    match v
    case Null => true
    case Bool(_) => true
    case Int(n) => INT_MIN <= n <= INT_MAX
    case Double(_) => false
    case Str(s) => Plain(s)
    case Arr(items) => forall i :: 0 <= i < |items| ==> Printable(items[i])
    case Obj(fields) =>
      Ordered(fields) && forall i :: 0 <= i < |fields| ==> Plain(fields[i].key) && Printable(fields[i].value)
  }

  // ---------------------------------------------------------------- reading back the pieces

  lemma {:induction false} SkipSpaces(n: nat, t: string)
    ensures SkipWhitespace(Spaces(n) + t) == SkipWhitespace(t)
  {
    if n == 0 {
      assert Spaces(0) + t == t;
    } else {
      assert (Spaces(n) + t)[1..] == Spaces(n - 1) + t;
      SkipSpaces(n - 1, t);
    }
  }

  lemma SkipNewline(t: string)
    ensures SkipWhitespace("\n" + t) == SkipWhitespace(t)
  {
    assert ("\n" + t)[1..] == t;
  }

  lemma {:induction false} ReadString(s: string, t: string, acc: string)
    requires Plain(s)
    ensures StringLoop(s + "\"" + t, acc) == Some(Parsed(acc + s, t))
    decreases |s|
  {
    var r := s + "\"" + t;
    if s == "" {
      assert r[0] == '"' && r[1..] == t && acc + s == acc;
    } else {
      assert r[0] == s[0] && r[1..] == s[1..] + "\"" + t;
      ReadString(s[1..], t, acc + [s[0]]);
      assert acc + [s[0]] + s[1..] == acc + s;
    }
  }

  lemma {:induction false} ReadDigits(d: string, t: string)
    requires forall i :: 0 <= i < |d| ==> IsDigit(d[i])
    requires t == "" || !IsDigit(t[0])
    ensures Digits(d + t) == d
    decreases |d|
  {
    if d == "" {
      assert d + t == t;
    } else {
      assert (d + t)[1..] == d[1..] + t;
      ReadDigits(d[1..], t);
    }
  }

  lemma {:induction false} ReadDecimal(n: nat)
    ensures Number(Decimal(n)) == n
  {
    var d := Decimal(n);
    assert d[..|d| - 1] == if n < 10 then "" else Decimal(n / 10);
    if n >= 10 { ReadDecimal(n / 10); }
  }

  // A number ends where no digit, fraction or exponent follows.
  predicate Delimited(t: string) {
    t == "" || !(IsDigit(t[0]) || t[0] == '.' || t[0] == 'e' || t[0] == 'E')
  }

  // a number with the digits d, a fraction of length f and an exponent of length e
  lemma NumberIs(r: string, minus: nat, d: string, f: nat, e: nat)
    requires r != "" && minus == (if r[0] == '-' then 1 else 0) && d == Digits(r[minus..]) && d != ""
    requires Fraction(r[minus + |d|..]) == Some(f) && Exponent(r[minus + |d| + f..]) == Some(e)
    ensures var n := minus + |d|;
      ParseNumber(r) == if f + e > 0 then DoubleIs(r[..n + f + e], r[n + f + e..]) else IntIs(minus, d, r[n..])
  {
    hide Digits, Fraction, Exponent, Number;
  }

  lemma NoNumber(r: string)
    requires r != ""
    ensures var minus := if r[0] == '-' then 1 else 0;
      Digits(r[minus..]) == "" || Fraction(r[minus + |Digits(r[minus..])|..]).None? ==> ParseNumber(r).None?
    ensures var minus := if r[0] == '-' then 1 else 0; var n := minus + |Digits(r[minus..])|;
      Fraction(r[n..]).Some? && Exponent(r[n + Fraction(r[n..]).value..]).None? ==> ParseNumber(r).None?
  {
    hide Digits, Fraction, Exponent, Number;
  }

  lemma DelimitedEnds(t: string)
    requires Delimited(t)
    ensures Fraction(t) == Exponent(t) == Some(0)
  {
  }

  lemma IntText(n: int, t: string)
    ensures var (r, minus, d) := (IntToString(n) + t, if n < 0 then 1 else 0, Decimal(if n < 0 then -n else n));
      && r != "" && minus == (if r[0] == '-' then 1 else 0) && (r[0] == '-' || IsDigit(r[0]))
        && IntToString(n)[0] == r[0]
      && r[minus..] == d + t && r[minus + |d|..] == t && (d + t)[|d|..] == t
  {
    hide Decimal;
    var d := Decimal(if n < 0 then -n else n);
    assert IsDigit(d[0]);
  }

  lemma ReadInt(n: int, t: string)
    requires INT_MIN <= n <= INT_MAX && Delimited(t)
    ensures ParseNumber(IntToString(n) + t) == Some(Parsed(Int(n), t))
    ensures IntToString(n) != "" && (IntToString(n)[0] == '-' || IsDigit(IntToString(n)[0]))
  {
    DelimitedEnds(t);
    IntText(n, t);
    hide *;
    var (minus, m) := (if n < 0 then 1 else 0, if n < 0 then -n else n);
    ReadDigits(Decimal(m), t);
    ReadDecimal(m);
    NumberIs(IntToString(n) + t, minus, Decimal(m), 0, 0);
    IntIsRead(minus, Decimal(m), n, t);
  }

  lemma IntIsRead(minus: nat, d: string, n: int, t: string)
    requires INT_MIN <= n <= INT_MAX && minus == (if n < 0 then 1 else 0) && Number(d) == if n < 0 then -n else n
    ensures IntIs(minus, d, t) == Some(Parsed(Int(n), t))
  {
  }

  // ---------------------------------------------------------------- the round trip

  // the first character of a printed value tells what it is
  lemma PrintStarts(v: Json, indent: nat, double: string -> string, t: string)
    requires Printable(v)
    ensures var r := Print(v, indent, double) + t;
      r != "" && !IsSpace(r[0]) && r[0] != ']' && r[0] != '}' && SkipWhitespace(r) == r
  {
    if v.Int? { DecimalStarts(v.n); }
  }

  lemma DecimalStarts(n: int)
    ensures var d := IntToString(n); d != "" && (d[0] == '-' || IsDigit(d[0]))
  {
    var d := Decimal(if n < 0 then -n else n);
    assert IsDigit(d[0]);
  }

  // Leading white space does not matter, as long as something follows it.
  lemma SkipTwice(r: string)
    ensures SkipWhitespace(SkipWhitespace(r)) == SkipWhitespace(r)
  {
  }

  lemma ArrayLoopSkips(r: string, acc: seq<Json>)
    requires SkipWhitespace(r) != ""
    ensures ArrayLoop(SkipWhitespace(r), acc) == ArrayLoop(r, acc)
    ensures ArrayLoop("\n" + r, acc) == ArrayLoop(r, acc)
  {
    SkipTwice(r);
    SkipNewline(r);
    assert ParseValue(SkipWhitespace(r)) == ParseValue(r) && ParseValue("\n" + r) == ParseValue(r);
  }

  lemma ObjectLoopSkips(r: string, acc: seq<Field>)
    requires SkipWhitespace(r) != ""
    ensures ObjectLoop(SkipWhitespace(r), acc) == ObjectLoop(r, acc)
    ensures ObjectLoop("\n" + r, acc) == ObjectLoop(r, acc)
  {
    SkipTwice(r);
    SkipNewline(r);
  }

  lemma PutLast(acc: seq<Field>, key: string, value: Json)
    requires forall i :: 0 <= i < |acc| ==> Less(acc[i].key, key)
    ensures Put(acc, key, value) == acc + [Field(key, value)]
  {
    if acc != [] {
      LessIsOrder(acc[0].key, key, acc[0].key);
      LessIsOrder(key, acc[0].key, key);
      PutLast(acc[1..], key, value);
      assert acc == [acc[0]] + acc[1..];
    }
  }

  lemma KeywordRoundTrip(v: Json, indent: nat, double: string -> string, t: string)
    requires v.Null? || v.Bool?
    ensures ParseValue(Print(v, indent, double) + t) == Some(Parsed(v, t))
  {
    var (word, r) := (Print(v, indent, double), Print(v, indent, double) + t);
    assert r[..|word|] == word && r[|word|..] == t && SkipWhitespace(r) == r;
  }

  lemma StringRoundTrip(s: string, t: string)
    requires Plain(s)
    ensures ParseValue("\"" + s + "\"" + t) == Some(Parsed(Str(s), t))
  {
    var r := "\"" + s + "\"" + t;
    assert r[1..] == s + "\"" + t && SkipWhitespace(r) == r;
    ReadString(s, t, "");
    assert "" + s == s;
  }

  lemma IntRoundTrip(n: int, t: string)
    requires INT_MIN <= n <= INT_MAX && Delimited(t)
    ensures ParseValue(IntToString(n) + t) == Some(Parsed(Int(n), t))
  {
    hide IntToString, ParseNumber;
    DecimalStarts(n);
    ReadInt(n, t);
    assert SkipWhitespace(IntToString(n) + t) == IntToString(n) + t;
  }

  lemma BracketRoundTrip(body: string, items: seq<Json>, t: string)
    requires ParseArray(body) == Some(Parsed(items, t))
    ensures ParseValue("[" + body) == Some(Parsed(Arr(items), t))
  {
    hide ParseArray;
    assert ("[" + body)[1..] == body && SkipWhitespace("[" + body) == "[" + body;
  }

  lemma BraceRoundTrip(body: string, fields: seq<Field>, t: string)
    requires ParseObject(body) == Some(Parsed(fields, t))
    ensures ParseValue("{" + body) == Some(Parsed(Obj(fields), t))
  {
    hide ParseObject;
    assert ("{" + body)[1..] == body && SkipWhitespace("{" + body) == "{" + body;
  }

  // What is printed is read back, and reading stops right behind it.
  lemma {:induction false} RoundTrip(v: Json, indent: nat, double: string -> string, t: string)
    requires Printable(v) && (v.Int? ==> Delimited(t))
    ensures ParseValue(Print(v, indent, double) + t) == Some(Parsed(v, t))
    decreases v, 0
  {
    match v
    case Null => KeywordRoundTrip(v, indent, double, t);
    case Bool(b) => KeywordRoundTrip(v, indent, double, t);
    case Int(n) => IntRoundTrip(n, t);
    case Str(s) => StringRoundTrip(s, t);
    case Arr(items) =>
      if items == [] {
        EmptyRoundTrip(t);
        assert "[]" + t == "[" + ("]" + t);
      } else {
        ItemsRoundTrip(items, indent, double, t, []);
        ArrayRoundTrip(items, indent, double, t);
      }
    case Obj(fields) =>
      if fields == [] {
        EmptyRoundTrip(t);
        assert "{}" + t == "{" + ("}" + t);
      } else {
        FieldsRoundTrip(fields, indent, double, t, []);
        ObjectRoundTrip(fields, indent, double, t);
      }
  }

  lemma EmptyRoundTrip(t: string)
    ensures ParseValue("[" + ("]" + t)) == Some(Parsed(Arr([]), t))
    ensures ParseValue("{" + ("}" + t)) == Some(Parsed(Obj([]), t))
  {
    assert ("]" + t)[1..] == t && ("}" + t)[1..] == t;
    BracketRoundTrip("]" + t, [], t);
    BraceRoundTrip("}" + t, [], t);
  }

  lemma ArrayRoundTrip(items: seq<Json>, indent: nat, double: string -> string, t: string)
    requires items != [] && Printable(items[0])
    requires ArrayLoop(PrintItems(items, indent, double) + Spaces(indent) + "]" + t, []) == Some(Parsed([] + items, t))
    ensures ParseValue(Print(Arr(items), indent, double) + t) == Some(Parsed(Arr(items), t))
  {
    hide ParseValue, ArrayLoop, PrintItems;
    var body := PrintItems(items, indent, double) + Spaces(indent) + "]" + t;
    assert body == PrintItems(items, indent, double) + (Spaces(indent) + "]" + t);
    ItemsStart(items, indent, double, Spaces(indent) + "]" + t);
    ArrayBody(body, items, t);
    BracketRoundTrip("\n" + body, items, t);
    assert Print(Arr(items), indent, double) + t == "[" + ("\n" + body);
  }

  lemma ObjectRoundTrip(fields: seq<Field>, indent: nat, double: string -> string, t: string)
    requires fields != []
    requires ObjectLoop(PrintFields(fields, indent, double) + Spaces(indent) + "}" + t, []) ==
      Some(Parsed([] + fields, t))
    ensures ParseValue(Print(Obj(fields), indent, double) + t) == Some(Parsed(Obj(fields), t))
  {
    hide ParseValue, ObjectLoop, PrintFields;
    var body := PrintFields(fields, indent, double) + Spaces(indent) + "}" + t;
    assert body == PrintFields(fields, indent, double) + (Spaces(indent) + "}" + t);
    FieldsStart(fields, indent, double, Spaces(indent) + "}" + t);
    ObjectBody(body, fields, t);
    BraceRoundTrip("\n" + body, fields, t);
    assert Print(Obj(fields), indent, double) + t == "{" + ("\n" + body);
  }

  lemma ItemsStart(items: seq<Json>, indent: nat, double: string -> string, t: string)
    requires items != [] && Printable(items[0])
    ensures var q := SkipWhitespace(PrintItems(items, indent, double) + t); q != "" && q[0] != ']'
  {
    hide SkipWhitespace, Print, Printable, Spaces, Separator;
    var rest := Separator(|items| == 1) + PrintItems(items[1..], indent, double) + t;
    assert PrintItems(items, indent, double) + t == Spaces(indent + 2) + (Print(items[0], indent + 2, double) + rest);
    SkipSpaces(indent + 2, Print(items[0], indent + 2, double) + rest);
    PrintStarts(items[0], indent + 2, double, rest);
  }

  lemma FieldsStart(fields: seq<Field>, indent: nat, double: string -> string, t: string)
    requires fields != []
    ensures var q := SkipWhitespace(PrintFields(fields, indent, double) + t); q != "" && q[0] != '}'
  {
    hide Print, PrintFields, Spaces;
    FieldsText(fields, indent, double, t);
    var rest := fields[0].key + "\"" + (":" + (" " + (Print(fields[0].value, indent + 2, double)
      + if |fields| == 1 then "\n" + t else "," + ("\n" + (PrintFields(fields[1..], indent, double) + t)))));
    SkipSpaces(indent + 2, "\"" + rest);
  }

  lemma ArrayBody(body: string, items: seq<Json>, t: string)
    requires var q := SkipWhitespace(body); q != "" && q[0] != ']'
    requires ArrayLoop(body, []) == Some(Parsed([] + items, t))
    ensures ParseArray("\n" + body) == Some(Parsed(items, t))
  {
    SkipNewline(body);
    ArrayLoopSkips(body, []);
    assert [] + items == items;
  }

  lemma ObjectBody(body: string, fields: seq<Field>, t: string)
    requires var q := SkipWhitespace(body); q != "" && q[0] != '}'
    requires ObjectLoop(body, []) == Some(Parsed([] + fields, t))
    ensures ParseObject("\n" + body) == Some(Parsed(fields, t))
  {
    SkipNewline(body);
    ObjectLoopSkips(body, []);
    assert [] + fields == fields;
  }

  // the two ways the loop goes on behind an element
  lemma LastItem(r: string, v: Json, n: nat, t: string, acc: seq<Json>)
    requires r != "" && ParseValue(r) == Some(Parsed(v, "\n" + (Spaces(n) + ("]" + t))))
    ensures ArrayLoop(r, acc) == Some(Parsed(acc + [v], t))
  {
    hide ParseValue;
    SkipNewline(Spaces(n) + ("]" + t));
    SkipSpaces(n, "]" + t);
    assert ("]" + t)[1..] == t;
  }

  lemma ItemAndMore(r: string, v: Json, body: string, acc: seq<Json>)
    requires r != "" && ParseValue(r) == Some(Parsed(v, "," + ("\n" + body))) && SkipWhitespace(body) != ""
    ensures ArrayLoop(r, acc) == ArrayLoop(body, acc + [v])
  {
    hide ParseValue;
    var rest := "," + ("\n" + body);
    assert rest[1..] == "\n" + body && SkipWhitespace(rest) == rest;
    ArrayLoopSkips(body, acc + [v]);
  }

  // the printed text of the items from the first on, taken apart
  lemma ItemsText(items: seq<Json>, indent: nat, double: string -> string, close: string)
    requires items != []
    ensures PrintItems(items, indent, double) + close == Spaces(indent + 2) + (Print(items[0], indent + 2, double)
      + if |items| == 1 then "\n" + close else "," + ("\n" + (PrintItems(items[1..], indent, double) + close)))
  {
    hide Print;
    if |items| == 1 { assert PrintItems(items[1..], indent, double) == ""; }
  }

  lemma {:induction false} ItemsRoundTrip(items: seq<Json>, indent: nat, double: string -> string, t: string,
                                          acc: seq<Json>)
    requires items != [] && forall i :: 0 <= i < |items| ==> Printable(items[i])
    ensures ArrayLoop(PrintItems(items, indent, double) + Spaces(indent) + "]" + t, acc) == Some(Parsed(acc + items, t))
    decreases items, 1
  {
    hide ParseValue, ArrayLoop, Print, PrintItems, SkipWhitespace, Printable;
    var (v, close) := (items[0], Spaces(indent) + ("]" + t));
    var r := PrintItems(items, indent, double) + Spaces(indent) + "]" + t;
    assert r == PrintItems(items, indent, double) + close;
    ItemsText(items, indent, double, close);
    var body := PrintItems(items[1..], indent, double) + close;
    var after := if |items| == 1 then "\n" + close else "," + ("\n" + body);
    RoundTrip(v, indent + 2, double, after);
    PrintStarts(v, indent + 2, double, after);
    ValueBehindSpaces(indent + 2, Print(v, indent + 2, double) + after);
    if |items| == 1 {
      LastItem(r, v, indent, t, acc);
      assert acc + [v] == acc + items;
    } else {
      ItemsStart(items[1..], indent, double, close);
      ItemAndMore(r, v, body, acc);
      ItemsRoundTrip(items[1..], indent, double, t, acc + [v]);
      assert PrintItems(items[1..], indent, double) + Spaces(indent) + "]" + t == body;
      assert acc + [v] + items[1..] == acc + items;
    }
  }

  lemma ValueBehindSpaces(n: nat, r: string)
    requires r != "" && !IsSpace(r[0])
    ensures ParseValue(Spaces(n) + r) == ParseValue(r)
  {
    SkipSpaces(n, r);
  }

  // the key, the colon and the value of a field
  ghost predicate ReadsField(r: string, f: Field, rest: string) {
    && r != "" && ParseString(SkipWhitespace(r)).Some?
    && var k := ParseString(SkipWhitespace(r)).value;
       var colon := SkipWhitespace(k.rest);
       && k.value == f.key && colon != "" && colon[0] == ':' && ParseValue(colon[1..]) == Some(Parsed(f.value, rest))
  }

  lemma LastField(r: string, f: Field, n: nat, t: string, acc: seq<Field>)
    requires ReadsField(r, f, "\n" + (Spaces(n) + ("}" + t)))
    ensures ObjectLoop(r, acc) == Some(Parsed(Put(acc, f.key, f.value), t))
  {
    hide ParseValue, ParseString, Put;
    SkipNewline(Spaces(n) + ("}" + t));
    SkipSpaces(n, "}" + t);
    assert ("}" + t)[1..] == t;
  }

  lemma FieldAndMore(r: string, f: Field, body: string, acc: seq<Field>)
    requires ReadsField(r, f, "," + ("\n" + body)) && SkipWhitespace(body) != ""
    ensures ObjectLoop(r, acc) == ObjectLoop(body, Put(acc, f.key, f.value))
  {
    hide ParseValue, ParseString, Put;
    var rest := "," + ("\n" + body);
    assert rest[1..] == "\n" + body && SkipWhitespace(rest) == rest;
    ObjectLoopSkips(body, Put(acc, f.key, f.value));
  }

  lemma FieldsText(fields: seq<Field>, indent: nat, double: string -> string, close: string)
    requires fields != []
    ensures PrintFields(fields, indent, double) + close ==
      Spaces(indent + 2) + ("\"" + (fields[0].key + "\"" + (":" + (" " + (Print(fields[0].value, indent + 2, double)
      + if |fields| == 1 then "\n" + close else "," + ("\n" + (PrintFields(fields[1..], indent, double) + close)))))))
  {
    hide Print, Spaces;
    var (f, tail) := (fields[0], PrintFields(fields[1..], indent, double));
    FieldText(Spaces(indent + 2), f.key, Print(f.value, indent + 2, double), Separator(|fields| == 1), tail, close);
    if |fields| == 1 {
      assert tail == "" && "\n" + ("" + close) == "\n" + close;
    } else {
      assert ",\n" + (tail + close) == "," + ("\n" + (tail + close));
    }
  }

  lemma FieldText(front: string, key: string, value: string, sep: string, tail: string, close: string)
    ensures front + "\"" + key + "\": " + value + sep + tail + close
         == front + ("\"" + (key + "\"" + (":" + (" " + (value + (sep + (tail + close)))))))
  {
  }

  lemma FieldIsRead(n: nat, f: Field, value: string, rest: string)
    requires Plain(f.key) && ParseValue(value) == Some(Parsed(f.value, rest)) && value != "" && !IsSpace(value[0])
    ensures ReadsField(Spaces(n) + ("\"" + (f.key + "\"" + (":" + (" " + value)))), f, rest)
  {
    hide ParseValue, ParseString;
    var colon := ":" + (" " + value);
    KeyBehindSpaces(n, f.key, colon);
    assert SkipWhitespace(colon) == colon && colon[1..] == " " + value;
    ValueBehindSpaces(1, value);
    assert Spaces(1) + value == " " + value;
  }

  lemma {:induction false} FieldsRoundTrip(fields: seq<Field>, indent: nat, double: string -> string, t: string,
                                           acc: seq<Field>)
    requires fields != [] && Ordered(acc + fields)
    requires forall i :: 0 <= i < |fields| ==> Plain(fields[i].key) && Printable(fields[i].value)
    ensures ObjectLoop(PrintFields(fields, indent, double) + Spaces(indent) + "}" + t, acc) ==
      Some(Parsed(acc + fields, t))
    decreases fields, 1
  {
    hide ParseValue, ParseString, ObjectLoop, Print, PrintFields, SkipWhitespace, Printable, Plain, Put, ReadsField;
    var (f, close) := (fields[0], Spaces(indent) + ("}" + t));
    var r := PrintFields(fields, indent, double) + Spaces(indent) + "}" + t;
    assert r == PrintFields(fields, indent, double) + close;
    FieldsText(fields, indent, double, close);
    var body := PrintFields(fields[1..], indent, double) + close;
    var after := if |fields| == 1 then "\n" + close else "," + ("\n" + body);
    RoundTrip(f.value, indent + 2, double, after);
    PrintStarts(f.value, indent + 2, double, after);
    FieldIsRead(indent + 2, f, Print(f.value, indent + 2, double) + after, after);
    forall i | 0 <= i < |acc|
      ensures Less(acc[i].key, f.key)
    {
      assert (acc + fields)[i] == acc[i] && (acc + fields)[|acc|] == f;
    }
    PutLast(acc, f.key, f.value);
    assert f == Field(f.key, f.value);
    if |fields| == 1 {
      LastField(r, f, indent, t, acc);
      assert acc + [f] == acc + fields;
    } else {
      FieldsStart(fields[1..], indent, double, close);
      FieldAndMore(r, f, body, acc);
      assert acc + [f] + fields[1..] == acc + fields;
      FieldsRoundTrip(fields[1..], indent, double, t, acc + [f]);
      assert PrintFields(fields[1..], indent, double) + Spaces(indent) + "}" + t == body;
    }
  }

  lemma KeyBehindSpaces(n: nat, key: string, t: string)
    requires Plain(key)
    ensures ParseString(SkipWhitespace(Spaces(n) + ("\"" + (key + "\"" + t)))) == Some(Parsed(key, t))
  {
    var q := "\"" + (key + "\"" + t);
    SkipSpaces(n, q);
    assert q[1..] == key + "\"" + t;
    ReadString(key, t, "");
    assert "" + key == key;
  }

  // ---------------------------------------------------------------- lists that are not closed

  // A text that ends behind a comma is taken for a complete array.
  lemma CommaAtTheEnd(v: Json, indent: nat, double: string -> string)
    requires Printable(v)
    ensures ParseValue("[" + (Print(v, indent, double) + ",")) == Some(Parsed(Arr([v]), ""))
  {
    hide ParseValue, Print, Printable;
    var r := Print(v, indent, double) + ",";
    RoundTrip(v, indent, double, ",");
    PrintStarts(v, indent, double, ",");
    assert ","[1..] == "" && [] + [v] == [v] && SkipWhitespace(",") == ",";
    assert ArrayLoop("", [v]) == Some(Parsed([v], ""));
    assert ArrayLoop(r, []) == ArrayLoop("", [v]);
    BracketRoundTrip(r, [v], "");
  }

  // ---------------------------------------------------------------- files

  // the text saveToFile writes for a list of values
  function FileText(data: seq<Json>, double: string -> string): string {
    "[\n" + PrintItems(data, 0, double) + "]"
  }

  lemma SavedIsRead(data: seq<Json>, double: string -> string)
    requires forall i :: 0 <= i < |data| ==> Printable(data[i])
    ensures ParseValue(FileText(data, double)) == Some(Parsed(Arr(data), ""))
  {
    if data == [] {
      assert FileText(data, double) == "[" + "\n]";
      SkipNewline("]");
      assert "\n" + "]" == "\n]" && "]"[1..] == "";
      BracketRoundTrip("\n]", [], "");
    } else {
      RoundTrip(Arr(data), 0, double, "");
      assert Spaces(0) == "";
      assert Print(Arr(data), 0, double) + "" == FileText(data, double);
    }
  }
}
