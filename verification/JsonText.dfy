/**
  The documents of RFC 8259, apart from the escapes with four hexadecimal digits, and their texts
  with all the freedom the grammar leaves: white space between any two tokens, every way to escape a
  character, every spelling of a number, keys in any order and more than once. The parser reads each
  of these texts as the document it stands for.
*/
module JsonText {
  import opened Common
  import opened Json

  // ---------------------------------------------------------------- texts and what they stand for

  // a character of a string, as it is or as a backslash and a letter
  datatype Char = Plainly(c: char) | Escape(letter: char)

  // section 7 of RFC 8259
  const ESCAPES: map<char, char> :=
    map['"' := '"', '\\' := '\\', '/' := '/', 'b' := 8 as char, 'f' := 12 as char, 'n' := 10 as char, 'r' := 13 as char,
        't' := 9 as char]

  datatype Scale = Scale(e: char, sign: string, digits: string)

  datatype Numeral = Numeral(minus: bool, whole: string, fraction: Option<string>, exponent: Option<Scale>)

  datatype Text =
    | NullText
    | BoolText(b: bool)
    | NumberText(numeral: Numeral)
    | StringText(chars: seq<Char>)
    | ArrayText(space: string, items: seq<Item>)         // the space stands in an empty array
    | ObjectText(space: string, members: seq<Member>)

  datatype Item = Item(before: string, text: Text, after: string)

  datatype Member = Member(before: string, key: seq<Char>, afterKey: string, beforeValue: string, text: Text,
                           after: string)

  predicate CharOk(c: Char) {
    match c case Plainly(c) => c != '"' && c != '\\' case Escape(letter) => letter in ESCAPES
  }

  predicate CharsOk(cs: seq<Char>) {
    forall i :: 0 <= i < |cs| ==> CharOk(cs[i])
  }

  predicate Space(w: string) {
    forall i :: 0 <= i < |w| ==> w[i] == ' ' || w[i] == 9 as char || w[i] == 10 as char || w[i] == 13 as char
  }

  predicate AllDigits(d: string) {
    d != "" && forall i :: 0 <= i < |d| ==> '0' <= d[i] <= '9'
  }

  function Sign(n: Numeral): string {
    if n.minus then "-" else ""
  }

  function FractionText(n: Numeral): string {
    match n.fraction case None => "" case Some(d) => "." + d
  }

  function ExponentText(n: Numeral): string {
    match n.exponent case None => "" case Some(x) => [x.e] + (x.sign + x.digits)
  }

  function NumeralText(n: Numeral): string {
    Sign(n) + (n.whole + (FractionText(n) + ExponentText(n)))
  }

  predicate IsInteger(n: Numeral) {
    n.fraction.None? && n.exponent.None?
  }

  function Integer(n: Numeral): int {
    if n.minus then -(Number(n.whole) as int) else Number(n.whole) as int
  }

  predicate NumeralOk(n: Numeral) {
    && AllDigits(n.whole)
    && (n.fraction.Some? ==> AllDigits(n.fraction.value))
    && (n.exponent.Some? ==>
          && var x := n.exponent.value;
          && (x.e == 'e' || x.e == 'E') && (x.sign == "" || x.sign == "+" || x.sign == "-") && AllDigits(x.digits))
    && if IsInteger(n) then -2147483648 <= Integer(n) <= 2147483647 else STOD_CONVERTS(NumeralText(n))
  }

  predicate TextOk(x: Text)
    decreases x, 0
  {
    match x
    case NullText => true
    case BoolText(_) => true
    case NumberText(n) => NumeralOk(n)
    case StringText(cs) => CharsOk(cs)
    case ArrayText(space, items) => Space(space) && ItemsOk(items)
    case ObjectText(space, members) => Space(space) && MembersOk(members)
  }

  predicate ItemsOk(items: seq<Item>)
    decreases items, 1
  {
    items != [] ==> Space(items[0].before) && Space(items[0].after) && TextOk(items[0].text) && ItemsOk(items[1..])
  }

  predicate MembersOk(members: seq<Member>)
    decreases members, 1
  {
    members != [] ==>
      var m := members[0];
      && Space(m.before) && Space(m.afterKey) && Space(m.beforeValue) && Space(m.after) && CharsOk(m.key)
      && TextOk(m.text) && MembersOk(members[1..])
  }

  // the characters, followed by t
  function SpellChars(cs: seq<Char>, t: string): string {
    if cs == [] then t else
      match cs[0]
      case Plainly(c) => [c] + SpellChars(cs[1..], t)
      case Escape(letter) => "\\" + ([letter] + SpellChars(cs[1..], t))
  }

  // the text x, followed by t
  function Spell(x: Text, t: string): string
    decreases x, 0
  {
    match x
    case NullText => "null" + t
    case BoolText(b) => (if b then "true" else "false") + t
    case NumberText(n) => NumeralText(n) + t
    case StringText(cs) => "\"" + SpellChars(cs, "\"" + t)
    case ArrayText(space, items) => "[" + if items == [] then space + ("]" + t) else SpellItems(items, t)
    case ObjectText(space, members) => "{" + if members == [] then space + ("}" + t) else SpellMembers(members, t)
  }

  function SpellItems(items: seq<Item>, t: string): string
    requires items != []
    decreases items, 1
  {
    var rest := if |items| == 1 then "]" + t else "," + SpellItems(items[1..], t);
    items[0].before + Spell(items[0].text, items[0].after + rest)
  }

  function SpellMembers(members: seq<Member>, t: string): string
    requires members != []
    decreases members, 1
  {
    var m := members[0];
    var rest := if |members| == 1 then "}" + t else "," + SpellMembers(members[1..], t);
    m.before + ("\"" + SpellChars(m.key, "\"" + (m.afterKey + (":" + (m.beforeValue + Spell(m.text, m.after + rest))))))
  }

  function Content(cs: seq<Char>): string
    requires CharsOk(cs)
  {
    if cs == [] then "" else
      [match cs[0] case Plainly(c) => c case Escape(letter) => ESCAPES[letter]] + Content(cs[1..])
  }

  function Meaning(x: Text): Json
    requires TextOk(x)
    decreases x, 0
  {
    match x
    case NullText => Null
    case BoolText(b) => Bool(b)
    case NumberText(n) => if IsInteger(n) then Int(Integer(n)) else Double(NumeralText(n))
    case StringText(cs) => Str(Content(cs))
    case ArrayText(_, items) => Arr(ItemsMeaning(items))
    case ObjectText(_, members) => Obj(MembersMeaning([], members))
  }

  function ItemsMeaning(items: seq<Item>): seq<Json>
    requires ItemsOk(items)
    decreases items, 1
  {
    if items == [] then [] else [Meaning(items[0].text)] + ItemsMeaning(items[1..])
  }

  // the fields so far, and each member assigned in turn
  function MembersMeaning(fields: seq<Field>, members: seq<Member>): seq<Field>
    requires MembersOk(members)
    decreases members, 1
  {
    if members == [] then fields
    else MembersMeaning(Put(fields, Content(members[0].key), Meaning(members[0].text)), members[1..])
  }

  // ---------------------------------------------------------------- white space

  lemma {:induction false} SpaceIsSkipped(w: string, r: string)
    requires Space(w)
    ensures SkipWhitespace(w + r) == SkipWhitespace(r)
  {
    if w == "" {
      assert w + r == r;
    } else {
      assert (w + r)[1..] == w[1..] + r;
      SpaceIsSkipped(w[1..], r);
    }
  }

  // white space for std::isspace
  predicate IsoSpace(c: char) {
    c as int in {9, 10, 11, 12, 13, 32}
  }

  // What is skipped is white space, and what follows is not.
  lemma {:induction false} SkippedExactly(r: string) returns (k: nat)
    ensures k <= |r| && SkipWhitespace(r) == r[k..] && (forall i :: 0 <= i < k ==> IsoSpace(r[i]))
    ensures k == |r| || !IsoSpace(r[k])
  {
    if r == "" || !IsoSpace(r[0]) {
      k := 0;
    } else {
      k := SkippedExactly(r[1..]);
      assert forall i :: 0 < i < k + 1 ==> r[i] == r[1..][i - 1];
      k := k + 1;
    }
  }

  lemma ValueBehind(w: string, r: string)
    requires Space(w)
    ensures ParseValue(w + r) == ParseValue(r)
  {
    SpaceIsSkipped(w, r);
  }

  // Behind a value comes white space, and then one of these.
  lemma MarkBehind(w: string, mark: char, t: string)
    requires Space(w) && (mark == ']' || mark == '}' || mark == ',' || mark == ':')
    ensures SkipWhitespace(w + ([mark] + t)) == [mark] + t && ([mark] + t)[1..] == t
    ensures Delimited(w + ([mark] + t))
  {
    SpaceIsSkipped(w, [mark] + t);
    assert w != "" ==> (w + ([mark] + t))[0] == w[0];
    assert w == "" ==> w + ([mark] + t) == [mark] + t;
  }

  // ---------------------------------------------------------------- strings

  lemma {:induction false} CharsAreRead(cs: seq<Char>, t: string, acc: string)
    requires CharsOk(cs)
    ensures StringLoop(SpellChars(cs, "\"" + t), acc) == Some(Parsed(acc + Content(cs), t))
  {
    var r := SpellChars(cs, "\"" + t);
    if cs == [] {
      assert r[1..] == t && acc + "" == acc;
    } else {
      var c := Content(cs)[0];
      assert CharOk(cs[0]);
      CharsAreRead(cs[1..], t, acc + [c]);
      assert acc + [c] + Content(cs[1..]) == acc + Content(cs);
      match cs[0]
      case Plainly(_) => assert r[1..] == SpellChars(cs[1..], "\"" + t);
      case Escape(letter) => assert r[1] == letter && r[2..] == SpellChars(cs[1..], "\"" + t);
    }
  }

  lemma StringIsRead(cs: seq<Char>, t: string)
    requires CharsOk(cs)
    ensures ParseString("\"" + SpellChars(cs, "\"" + t)) == Some(Parsed(Content(cs), t))
  {
    var r := "\"" + SpellChars(cs, "\"" + t);
    assert r[1..] == SpellChars(cs, "\"" + t);
    CharsAreRead(cs, t, "");
    assert "" + Content(cs) == Content(cs);
  }

  // the usual escaping of a string
  function EscapedChar(c: char): string {
    if c == '"' then "\\\"" else if c == '\\' then "\\\\"
    else if c == 8 as char then "\\b" else if c == 9 as char then "\\t" else if c == 10 as char then "\\n"
    else if c == 12 as char then "\\f" else if c == 13 as char then "\\r" else [c]
  }

  function Escaped(s: string): string {
    if s == "" then "" else EscapedChar(s[0]) + Escaped(s[1..])
  }

  lemma EscapedCharIsRead(c: char, r: string, acc: string)
    ensures StringLoop(EscapedChar(c) + r, acc) == StringLoop(r, acc + [c])
  {
    var q := EscapedChar(c) + r;
    if |EscapedChar(c)| == 2 {
      assert q[0] == '\\' && q[1] == EscapedChar(c)[1] && q[2..] == r;
    } else {
      assert q[0] == c && q[1..] == r;
    }
  }

  lemma {:induction false} EscapedLoop(s: string, t: string, acc: string)
    ensures StringLoop(Escaped(s) + ("\"" + t), acc) == Some(Parsed(acc + s, t))
  {
    if s == "" {
      var r := "\"" + t;
      assert Escaped(s) + r == r && r[1..] == t && acc + s == acc;
    } else {
      hide StringLoop, EscapedChar;
      var r := Escaped(s[1..]) + ("\"" + t);
      assert Escaped(s) + ("\"" + t) == EscapedChar(s[0]) + r;
      EscapedCharIsRead(s[0], r, acc);
      EscapedLoop(s[1..], t, acc + [s[0]]);
      assert acc + [s[0]] + s[1..] == acc + s;
    }
  }

  // Every string is read back from its escaped text.
  lemma EscapedIsRead(s: string, t: string)
    ensures ParseString("\"" + (Escaped(s) + ("\"" + t))) == Some(Parsed(s, t))
  {
    var r := "\"" + (Escaped(s) + ("\"" + t));
    assert r[1..] == Escaped(s) + ("\"" + t);
    EscapedLoop(s, t, "");
    assert "" + s == s;
  }

  // An escaped character that RFC 8259 gives no meaning stands for itself; so the escape of a code
  // point by four digits is read as the letter u and the digits.
  lemma OtherEscapes(c: char, t: string, acc: string)
    requires c !in ESCAPES
    ensures StringLoop("\\" + ([c] + t), acc) == StringLoop(t, acc + [c])
  {
    var r := "\\" + ([c] + t);
    assert r[1] == c && r[2..] == t;
  }

  // ---------------------------------------------------------------- numbers

  predicate NoDigit(t: string) {
    t == "" || !('0' <= t[0] <= '9')
  }

  lemma DigitsAre(d: string, t: string)
    requires (forall i :: 0 <= i < |d| ==> '0' <= d[i] <= '9') && NoDigit(t)
    ensures Digits(d + t) == d
  {
    ReadDigits(d, t);
  }

  lemma FractionIsRead(n: Numeral, t: string)
    requires NumeralOk(n) && NoDigit(t) && (n.fraction.None? ==> t == "" || t[0] != '.')
    ensures Fraction(FractionText(n) + t) == Some(|FractionText(n)|)
  {
    var r := FractionText(n) + t;
    match n.fraction
    case None => assert r == t;
    case Some(d) =>
      assert r[1..] == d + t;
      DigitsAre(d, t);
  }

  lemma ExponentIsRead(n: Numeral, t: string)
    requires NumeralOk(n) && Delimited(t)
    ensures Exponent(ExponentText(n) + t) == Some(|ExponentText(n)|)
  {
    match n.exponent
    case None => assert ExponentText(n) + t == t;
    case Some(x) =>
      hide NumeralText, Digits, Number, Delimited;
      assert NoDigit(t) by { DelimitedStarts(t); }
      DigitsAre(x.digits, t);
      assert ExponentText(n) + t == [x.e] + (x.sign + (x.digits + t));
      ScaleIsRead(x.e, x.sign, x.digits, t);
  }

  lemma DelimitedStarts(t: string)
    requires Delimited(t)
    ensures NoDigit(t)
  {
  }

  lemma ScaleIsRead(e: char, sign: string, digits: string, t: string)
    requires (e == 'e' || e == 'E') && (sign == "" || sign == "+" || sign == "-") && AllDigits(digits)
    requires Digits(digits + t) == digits
    ensures Exponent([e] + (sign + (digits + t))) == Some(1 + |sign| + |digits|)
  {
    hide Digits;
    var r := [e] + (sign + (digits + t));
    if sign == "" {
      assert r[1] == digits[0] && r[1..] == digits + t;
    } else {
      assert r[1] == sign[0] && r[2..] == digits + t;
    }
  }

  lemma NumeralParts(n: Numeral, t: string)
    ensures var r := NumeralText(n) + t; var (k, f, e) := (|Sign(n)| + |n.whole|, |FractionText(n)|, |ExponentText(n)|);
      && r[|Sign(n)|..] == n.whole + (FractionText(n) + (ExponentText(n) + t))
      && r[k..] == FractionText(n) + (ExponentText(n) + t)
      && r[k + f..] == ExponentText(n) + t && r[k + f + e..] == t && r[..k + f + e] == NumeralText(n)
  {
    hide FractionText, ExponentText;
  }

  lemma NumeralIsRead(n: Numeral, t: string)
    requires NumeralOk(n) && Delimited(t)
    ensures ParseNumber(NumeralText(n) + t) ==
      Some(Parsed(if IsInteger(n) then Int(Integer(n)) else Double(NumeralText(n)), t))
  {
    hide *;
    NumeralLengths(n, t);
    NumeralPlaces(n, t);
    NumberIs(NumeralText(n) + t, |Sign(n)|, n.whole, |FractionText(n)|, |ExponentText(n)|);
    NumeralValue(n, t);
  }

  lemma NumeralPlaces(n: Numeral, t: string)
    requires NumeralOk(n)
    ensures var (r, s, f, e) := (NumeralText(n) + t, |Sign(n)|, |FractionText(n)|, |ExponentText(n)|);
      && r != "" && s == (if r[0] == '-' then 1 else 0) && s + |n.whole| + f + e <= |r|
      && r[s..] == n.whole + (FractionText(n) + (ExponentText(n) + t))
      && r[s + |n.whole|..] == FractionText(n) + (ExponentText(n) + t)
      && r[s + |n.whole| + f..] == ExponentText(n) + t
      && r[s + |n.whole| + f + e..] == t && r[..s + |n.whole| + f + e] == NumeralText(n)
  {
    NumeralParts(n, t);
    NumeralStarts(n, t);
    hide FractionText, ExponentText, Sign, Number, Integer;
  }

  // the three parts end where they should
  lemma NumeralLengths(n: Numeral, t: string)
    requires NumeralOk(n) && Delimited(t)
    ensures n.whole != "" && Digits(n.whole + (FractionText(n) + (ExponentText(n) + t))) == n.whole
    ensures Fraction(FractionText(n) + (ExponentText(n) + t)) == Some(|FractionText(n)|)
    ensures Exponent(ExponentText(n) + t) == Some(|ExponentText(n)|)
  {
    ExponentStarts(n, t);
    FractionIsRead(n, ExponentText(n) + t);
    ExponentIsRead(n, t);
    FractionStarts(n, ExponentText(n) + t);
    hide Digits, Fraction, Exponent, FractionText, ExponentText, Integer, NumeralText;
    DigitsAre(n.whole, FractionText(n) + (ExponentText(n) + t));
  }

  // An integer that does not fit an int is refused.
  lemma OutOfRange(n: Numeral, t: string)
    requires AllDigits(n.whole) && IsInteger(n) && !(-2147483648 <= Integer(n) <= 2147483647) && Delimited(t)
    ensures ParseNumber(NumeralText(n) + t) == None
  {
    NumeralParts(n, t);
    NumeralStarts(n, t);
    DelimitedEnds(t);
    DelimitedStarts(t);
    DigitsAre(n.whole, t);
    assert "" + ("" + t) == t && n.whole + ("" + "") == n.whole;
    hide Digits, Fraction, Exponent, Number, ParseNumber;
    NumberIs(NumeralText(n) + t, |Sign(n)|, n.whole, 0, 0);
  }

  // A point or an exponent without digits is refused.
  lemma NoDigitsBehind(d: string, mark: char, t: string)
    requires AllDigits(d) && (mark == '.' || mark == 'e' || mark == 'E')
    requires NoDigit(t) && (mark != '.' ==> t == "" || (t[0] != '+' && t[0] != '-'))
    ensures ParseNumber(d + ([mark] + t)) == None
  {
    var (r, rest) := (d + ([mark] + t), [mark] + t);
    assert r[0] == d[0] && r[0..] == r && r[|d|..] == rest && rest[1..] == t && rest[0..] == rest;
    DigitsAre(d, rest);
    DigitsAre("", t);
    assert "" + t == t;
    hide Digits, ParseNumber, Number;
    NoNumber(r);
  }

  lemma NumeralValue(n: Numeral, t: string)
    requires NumeralOk(n)
    ensures (if |FractionText(n)| + |ExponentText(n)| > 0 then DoubleIs(NumeralText(n), t)
      else IntIs(|Sign(n)|, n.whole, t))
         == Some(Parsed(if IsInteger(n) then Int(Integer(n)) else Double(NumeralText(n)), t))
  {
    hide Number, NumeralText;
  }

  lemma NumeralStarts(n: Numeral, t: string)
    requires AllDigits(n.whole)
    ensures var r := NumeralText(n) + t;
      && r != "" && (if n.minus then r[0] == '-' else '0' <= r[0] <= '9')
      && |Sign(n)| == (if r[0] == '-' then 1 else 0)
  {
    var r := NumeralText(n) + t;
    assert !n.minus ==> r[0] == n.whole[0];
  }

  lemma ExponentStarts(n: Numeral, t: string)
    requires NumeralOk(n) && Delimited(t)
    ensures var r := ExponentText(n) + t; NoDigit(r) && (r == "" || r[0] != '.')
  {
    assert n.exponent.None? ==> ExponentText(n) + t == t;
  }

  lemma FractionStarts(n: Numeral, t: string)
    requires NoDigit(t)
    ensures NoDigit(FractionText(n) + t)
  {
    assert n.fraction.None? ==> FractionText(n) + t == t;
  }

  // ---------------------------------------------------------------- the order of keys

  lemma FirstAgree(a: string, b: string, k: nat)
    requires k <= |a| && k < |b| && a[..k] == b[..k]
    ensures k == 0 || a[0] == b[0]
  {
    assert k > 0 ==> a[..k][0] == a[0] && b[..k][0] == b[0];
  }

  // Keys are ordered by the first character in which they differ, a key before its extensions.
  lemma {:induction false} LessExactly(a: string, b: string)
    ensures Less(a, b) <==>
      exists k :: 0 <= k <= |a| && k < |b| && a[..k] == b[..k] && (k == |a| || a[k] < b[k])
    decreases |a|
  {
    if a != "" && b != "" && a[0] == b[0] {
      LessExactly(a[1..], b[1..]);
      if k :|
          && 0 <= k <= |a[1..]| && k < |b[1..]| && a[1..][..k] == b[1..][..k]
          && (k == |a[1..]| || a[1..][k] < b[1..][k])
      {
        assert a[..k + 1] == [a[0]] + a[1..][..k] && b[..k + 1] == [b[0]] + b[1..][..k];
      }
      if k :| 0 <= k <= |a| && k < |b| && a[..k] == b[..k] && (k == |a| || a[k] < b[k]) {
        assert k > 0 && a[1..][..k - 1] == a[..k][1..] && b[1..][..k - 1] == b[..k][1..];
      }
    } else {
      assert a[..0] == "";
      assert b[..0] == "";
      forall k | 0 <= k <= |a| && k < |b| && a[..k] == b[..k] ensures k == 0 || a[0] == b[0] { FirstAgree(a, b, k); }
    }
  }

  // ---------------------------------------------------------------- documents

  // what a text must not run into: more digits behind a number
  predicate Ends(x: Text, t: string) {
    x.NumberText? ==> Delimited(t)
  }

  // A text begins with a character that tells what it is.
  lemma TextStarts(x: Text, t: string)
    requires TextOk(x)
    ensures var r := Spell(x, t);
      r != "" && !IsSpace(r[0]) && r[0] != ']' && r[0] != '}' && SkipWhitespace(r) == r
  {
    if x.NumberText? { NumeralStarts(x.numeral, t); }
  }

  lemma WordIsRead(x: Text, t: string)
    requires x.NullText? || x.BoolText?
    ensures ParseValue(Spell(x, t)) == Some(Parsed(Meaning(x), t))
  {
    var word := if x.NullText? then "null" else if x.b then "true" else "false";
    var r := word + t;
    assert r[..|word|] == word && r[|word|..] == t && SkipWhitespace(r) == r;
  }

  lemma DigitBegins(r: string)
    requires r != "" && (r[0] == '-' || '0' <= r[0] <= '9')
    ensures ParseValue(r) == ParseNumber(r)
  {
    hide ParseNumber;
    assert SkipWhitespace(r) == r;
  }

  lemma NumberIsRead(n: Numeral, t: string)
    requires NumeralOk(n) && Delimited(t)
    ensures ParseValue(NumeralText(n) + t) == Some(Parsed(Meaning(NumberText(n)), t))
  {
    NumeralIsRead(n, t);
    NumeralStarts(n, t);
    hide NumeralOk;
    DigitBegins(NumeralText(n) + t);
  }

  lemma StringValueIsRead(cs: seq<Char>, t: string)
    requires CharsOk(cs)
    ensures ParseValue("\"" + SpellChars(cs, "\"" + t)) == Some(Parsed(Str(Content(cs)), t))
  {
    StringIsRead(cs, t);
    hide ParseString, SpellChars, Content;
    var r := "\"" + SpellChars(cs, "\"" + t);
    assert SkipWhitespace(r) == r;
  }

  // Every text that stands for a document is read as that document, and reading stops behind it.
  lemma {:induction false} TextIsRead(x: Text, t: string)
    requires TextOk(x) && Ends(x, t)
    ensures ParseValue(Spell(x, t)) == Some(Parsed(Meaning(x), t))
    decreases x, 0
  {
    match x
    case NumberText(n) => NumberIsRead(n, t);
    case StringText(cs) => StringValueIsRead(cs, t);
    case ArrayText(space, items) =>
      if items == [] {
        EmptyArrayIsRead(space, t);
      } else {
        ItemsAreRead(items, t, []);
        ArrayIsRead(space, items, t);
      }
    case ObjectText(space, members) =>
      if members == [] {
        EmptyObjectIsRead(space, t);
      } else {
        MembersAreRead(members, t, []);
        ObjectIsRead(space, members, t);
      }
    case _ => WordIsRead(x, t);
  }

  lemma EmptyArrayIsRead(space: string, t: string)
    requires Space(space)
    ensures ParseValue("[" + (space + ("]" + t))) == Some(Parsed(Arr([]), t))
  {
    MarkBehind(space, ']', t);
    BracketRoundTrip(space + ("]" + t), [], t);
  }

  lemma EmptyObjectIsRead(space: string, t: string)
    requires Space(space)
    ensures ParseValue("{" + (space + ("}" + t))) == Some(Parsed(Obj([]), t))
  {
    MarkBehind(space, '}', t);
    BraceRoundTrip(space + ("}" + t), [], t);
  }

  // the first item begins behind its white space
  lemma ItemsBegin(items: seq<Item>, t: string)
    requires items != [] && ItemsOk(items)
    ensures var q := SkipWhitespace(SpellItems(items, t)); q != "" && q[0] != ']' && SpellItems(items, t) != ""
  {
    hide Spell, TextOk, Space;
    var rest := if |items| == 1 then "]" + t else "," + SpellItems(items[1..], t);
    SpaceIsSkipped(items[0].before, Spell(items[0].text, items[0].after + rest));
    TextStarts(items[0].text, items[0].after + rest);
  }

  lemma ArrayIsRead(space: string, items: seq<Item>, t: string)
    requires items != [] && TextOk(ArrayText(space, items))
    requires ArrayLoop(SpellItems(items, t), []) == Some(Parsed([] + ItemsMeaning(items), t))
    ensures ParseValue(Spell(ArrayText(space, items), t)) == Some(Parsed(Meaning(ArrayText(space, items)), t))
  {
    hide ArrayLoop, ItemsMeaning, SpellItems;
    var r := SpellItems(items, t);
    ItemsBegin(items, t);
    ArrayLoopSkips(r, []);
    assert [] + ItemsMeaning(items) == ItemsMeaning(items);
    BracketRoundTrip(r, ItemsMeaning(items), t);
  }

  // behind an item the array ends
  lemma LastIsRead(r: string, v: Json, after: string, t: string, acc: seq<Json>)
    requires r != "" && Space(after) && ParseValue(r) == Some(Parsed(v, after + ("]" + t)))
    ensures ArrayLoop(r, acc) == Some(Parsed(acc + [v], t))
  {
    hide ParseValue;
    MarkBehind(after, ']', t);
  }

  // ... or goes on
  lemma OneIsRead(r: string, v: Json, after: string, body: string, acc: seq<Json>)
    requires r != "" && Space(after) && ParseValue(r) == Some(Parsed(v, after + ("," + body)))
    ensures ArrayLoop(r, acc) == ArrayLoop(body, acc + [v])
  {
    hide ParseValue;
    MarkBehind(after, ',', body);
  }

  lemma ItemFacts(items: seq<Item>, t: string)
    requires items != [] && ItemsOk(items)
    ensures var (first, r) := (items[0], SpellItems(items, t));
      && Space(first.before) && Space(first.after) && TextOk(first.text) && ItemsOk(items[1..])
      && ItemsMeaning(items) == [Meaning(first.text)] + ItemsMeaning(items[1..])
      && r == first.before + Spell(first.text, first.after + if |items| == 1 then "]" + t
        else "," + SpellItems(items[1..], t))
  {
    hide Spell, Meaning, TextOk, Space;
  }

  lemma {:induction false} ItemsAreRead(items: seq<Item>, t: string, acc: seq<Json>)
    requires items != [] && ItemsOk(items)
    ensures ArrayLoop(SpellItems(items, t), acc) == Some(Parsed(acc + ItemsMeaning(items), t))
    decreases items, 1
  {
    hide *;
    var (first, r) := (items[0], SpellItems(items, t));
    ItemFacts(items, t);
    ItemsBegin(items, t);
    var v := Meaning(first.text);
    if |items| == 1 {
      MarkBehind(first.after, ']', t);
      NumberEnds(first.text, first.after + ("]" + t));
      TextIsRead(first.text, first.after + ("]" + t));
      ValueBehind(first.before, Spell(first.text, first.after + ("]" + t)));
      LastIsRead(r, v, first.after, t, acc);
      NoItems(items[1..]);
      assert [v] + ItemsMeaning(items[1..]) == [v];
    } else {
      var body := SpellItems(items[1..], t);
      MarkBehind(first.after, ',', body);
      NumberEnds(first.text, first.after + ("," + body));
      TextIsRead(first.text, first.after + ("," + body));
      ValueBehind(first.before, Spell(first.text, first.after + ("," + body)));
      OneIsRead(r, v, first.after, body, acc);
      ItemsAreRead(items[1..], t, acc + [v]);
      assert acc + [v] + ItemsMeaning(items[1..]) == acc + ([v] + ItemsMeaning(items[1..]));
    }
  }

  lemma NumberEnds(x: Text, t: string)
    requires Delimited(t)
    ensures Ends(x, t)
  {
  }

  lemma NoItems(items: seq<Item>)
    requires |items| == 0
    ensures ItemsOk(items) && ItemsMeaning(items) == []
  {
  }

  lemma MembersBegin(members: seq<Member>, t: string)
    requires members != [] && MembersOk(members)
    ensures var q := SkipWhitespace(SpellMembers(members, t)); q != "" && q[0] != '}' && SpellMembers(members, t) != ""
  {
    hide Spell, TextOk, Space, SpellChars;
    var m := members[0];
    var rest := if |members| == 1 then "}" + t else "," + SpellMembers(members[1..], t);
    SpaceIsSkipped(m.before,
      "\"" + SpellChars(m.key, "\"" + (m.afterKey + (":" + (m.beforeValue + Spell(m.text, m.after + rest))))));
  }

  lemma ObjectIsRead(space: string, members: seq<Member>, t: string)
    requires members != [] && TextOk(ObjectText(space, members))
    requires ObjectLoop(SpellMembers(members, t), []) == Some(Parsed(MembersMeaning([], members), t))
    ensures ParseValue(Spell(ObjectText(space, members), t)) == Some(Parsed(Meaning(ObjectText(space, members)), t))
  {
    hide ObjectLoop, MembersMeaning, SpellMembers;
    var r := SpellMembers(members, t);
    MembersBegin(members, t);
    ObjectLoopSkips(r, []);
    BraceRoundTrip(r, MembersMeaning([], members), t);
  }

  // The key and the colon are read, and the value.
  lemma MemberIsRead(m: Member, rest: string)
    requires Space(m.before) && Space(m.afterKey) && Space(m.beforeValue) && CharsOk(m.key) && TextOk(m.text)
    requires ParseValue(Spell(m.text, rest)) == Some(Parsed(Meaning(m.text), rest))
    ensures var r := m.before +
      ("\"" + SpellChars(m.key, "\"" + (m.afterKey + (":" + (m.beforeValue + Spell(m.text, rest))))));
      ReadsField(r, Field(Content(m.key), Meaning(m.text)), rest)
  {
    hide ParseValue, ParseString, Spell, SpellChars, Space, Meaning, TextOk;
    var value := m.beforeValue + Spell(m.text, rest);
    var colon := m.afterKey + (":" + value);
    var q := "\"" + SpellChars(m.key, "\"" + colon);
    SpaceIsSkipped(m.before, q);
    StringIsRead(m.key, colon);
    MarkBehind(m.afterKey, ':', value);
    ValueBehind(m.beforeValue, Spell(m.text, rest));
  }

  lemma LastMember(r: string, f: Field, after: string, t: string, acc: seq<Field>)
    requires Space(after) && ReadsField(r, f, after + ("}" + t))
    ensures ObjectLoop(r, acc) == Some(Parsed(Put(acc, f.key, f.value), t))
  {
    hide ParseValue, ParseString, Put;
    MarkBehind(after, '}', t);
  }

  lemma OneMember(r: string, f: Field, after: string, body: string, acc: seq<Field>)
    requires Space(after) && ReadsField(r, f, after + ("," + body))
    ensures ObjectLoop(r, acc) == ObjectLoop(body, Put(acc, f.key, f.value))
  {
    hide ParseValue, ParseString, Put;
    MarkBehind(after, ',', body);
  }

  lemma {:induction false} MembersAreRead(members: seq<Member>, t: string, acc: seq<Field>)
    requires members != [] && MembersOk(members)
    ensures ObjectLoop(SpellMembers(members, t), acc) == Some(Parsed(MembersMeaning(acc, members), t))
    decreases members, 1
  {
    hide ParseValue, ObjectLoop, Spell, SpellChars, SkipWhitespace, TextOk, Space, Meaning, Content, Put, ReadsField;
    var (m, r) := (members[0], SpellMembers(members, t));
    var body := if |members| == 1 then "" else SpellMembers(members[1..], t);
    var rest := if |members| == 1 then "}" + t else "," + body;
    if |members| == 1 { MarkBehind(m.after, '}', t); } else { MarkBehind(m.after, ',', body); }
    TextIsRead(m.text, m.after + rest);
    MemberIsRead(m, m.after + rest);
    var f := Field(Content(m.key), Meaning(m.text));
    if |members| == 1 {
      LastMember(r, f, m.after, t, acc);
    } else {
      OneMember(r, f, m.after, body, acc);
      MembersAreRead(members[1..], t, Put(acc, f.key, f.value));
    }
  }

  // ---------------------------------------------------------------- the layout

  // One element a line, two spaces deeper than what it is part of, with the closing bracket below
  // the line that opens it.
  lemma LayoutOfItems(v: Json, w: Json, indent: nat, double: string -> string)
    ensures Print(Arr([v, w]), indent, double)
         == "[\n" + Spaces(indent + 2) + Print(v, indent + 2, double) + ",\n"
            + Spaces(indent + 2) + Print(w, indent + 2, double) + "\n" + Spaces(indent) + "]"
  {
    hide Spaces;
    var items := [v, w];
    assert items[1..] == [w] && [w][1..] == [];
    assert PrintItems([], indent, double) == "";
    assert PrintItems([w], indent, double) == Spaces(indent + 2) + Print(w, indent + 2, double) + "\n";
    assert PrintItems(items, indent, double) ==
      Spaces(indent + 2) + Print(v, indent + 2, double) + ",\n" + PrintItems([w], indent, double);
  }

  lemma LayoutOfField(key: string, v: Json, indent: nat, double: string -> string)
    ensures Print(Obj([Field(key, v)]), indent, double)
         == "{\n" + Spaces(indent + 2) + "\"" + key + "\": " + Print(v, indent + 2, double)
            + "\n" + Spaces(indent) + "}"
  {
    hide Spaces;
    var fields := [Field(key, v)];
    assert fields[1..] == [];
    assert PrintFields([], indent, double) == "";
    assert PrintFields(fields, indent, double) ==
      Spaces(indent + 2) + "\"" + key + "\": " + Print(v, indent + 2, double) + "\n";
  }
}
