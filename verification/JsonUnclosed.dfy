/**
  The texts that json.hpp accepts although an array or an object is not closed. The strict grammar
  is the parser's with one difference: a list must end in its closing bracket.
*/
module JsonUnclosed {
  import opened Common
  import opened Json

  // ---------------------------------------------------------------- the strict grammar

  function StrictValue(r: string): (p: Option<Parsed<Json>>)
    ensures p.Some? ==> |p.value.rest| < |r|
    decreases |r|, 0
  {
    var q := SkipWhitespace(r);
    if q != "" && q[0] == '{' then
      match StrictObject(q[1..]) case None => None case Some(p) => Some(Parsed(Obj(p.value), p.rest))
    else if q != "" && q[0] == '[' then
      match StrictArray(q[1..]) case None => None case Some(p) => Some(Parsed(Arr(p.value), p.rest))
    else ParseValue(q)
  }

  function StrictArray(r: string): (p: Option<Parsed<seq<Json>>>)
    ensures p.Some? ==> |p.value.rest| <= |r|
    decreases |r|, 2
  {
    var q := SkipWhitespace(r);
    if q != "" && q[0] == ']' then Some(Parsed([], q[1..])) else StrictItems(q, [])
  }

  function StrictItems(r: string, acc: seq<Json>): (p: Option<Parsed<seq<Json>>>)
    ensures p.Some? ==> |p.value.rest| <= |r|
    decreases |r|, 1
  {
    match StrictValue(r)
    case None => None
    case Some(p) =>
      var w := SkipWhitespace(p.rest);
      if w == "" then None
      else if w[0] == ']' then Some(Parsed(acc + [p.value], w[1..]))
      else if w[0] == ',' then StrictItems(w[1..], acc + [p.value])
      else None
  }

  function StrictObject(r: string): (p: Option<Parsed<seq<Field>>>)
    ensures p.Some? ==> |p.value.rest| <= |r|
    decreases |r|, 2
  {
    var q := SkipWhitespace(r);
    if q != "" && q[0] == '}' then Some(Parsed([], q[1..])) else StrictFields(q, [])
  }

  // a key and the text of its value, behind the colon
  function Key(r: string): (p: Option<Parsed<string>>)
    ensures p.Some? ==> |p.value.rest| < |r|
  {
    match ParseString(SkipWhitespace(r))
    case None => None
    case Some(k) =>
      var colon := SkipWhitespace(k.rest);
      if colon == "" || colon[0] != ':' then None else Some(Parsed(k.value, colon[1..]))
  }

  function StrictFields(r: string, acc: seq<Field>): (p: Option<Parsed<seq<Field>>>)
    ensures p.Some? ==> |p.value.rest| <= |r|
    decreases |r|, 1
  {
    match Key(r)
    case None => None
    case Some(k) =>
      match StrictValue(k.rest)
      case None => None
      case Some(p) =>
        var (w, fields) := (SkipWhitespace(p.rest), Put(acc, k.value, p.value));
        if w == "" then None
        else if w[0] == '}' then Some(Parsed(fields, w[1..]))
        else if w[0] == ',' then StrictFields(w[1..], fields)
        else None
  }

  // ---------------------------------------------------------------- the two grammars

  // What the strict grammar accepts the parser accepts, and the other way round as long as some
  // text is left.
  ghost predicate Agree<T>(strict: Option<Parsed<T>>, p: Option<Parsed<T>>) {
    && (strict.Some? ==> p == strict)
    && (p.Some? && p.value.rest != "" ==> strict == p)
  }

  lemma {:induction false} ValuesAgree(r: string)
    ensures Agree(StrictValue(r), ParseValue(r))
    decreases |r|, 0
  {
    hide StrictArray, StrictObject, ParseArray, ParseObject, ParseNumber, ParseString;
    var q := SkipWhitespace(r);
    SkipTwice(r);
    if q != "" && q[0] == '{' { ObjectsAgree(q[1..]); }
    if q != "" && q[0] == '[' { ArraysAgree(q[1..]); }
  }

  lemma {:induction false} ArraysAgree(r: string)
    ensures Agree(StrictArray(r), ParseArray(r))
    decreases |r|, 2
  {
    hide StrictItems, ArrayLoop;
    ItemsAgree(SkipWhitespace(r), []);
  }

  lemma {:induction false} ItemsAgree(r: string, acc: seq<Json>)
    ensures Agree(StrictItems(r, acc), ArrayLoop(r, acc))
    decreases |r|, 1
  {
    hide StrictValue, ParseValue;
    ValuesAgree(r);
    if r == "" { NoValue(); }
    if StrictValue(r).Some? {
      var w := SkipWhitespace(StrictValue(r).value.rest);
      if w != "" && w[0] == ',' { ItemsAgree(w[1..], acc + [StrictValue(r).value.value]); }
    }
  }

  lemma NoValue()
    ensures StrictValue("") == None && Key("") == None
  {
  }

  lemma {:induction false} ObjectsAgree(r: string)
    ensures Agree(StrictObject(r), ParseObject(r))
    decreases |r|, 2
  {
    hide StrictFields, ObjectLoop;
    FieldsAgree(SkipWhitespace(r), []);
  }

  // the loop of parseObject in terms of Key
  lemma ObjectLoopIs(r: string, acc: seq<Field>)
    requires r != ""
    ensures ObjectLoop(r, acc) ==
      match Key(r)
      case None => None
      case Some(k) =>
        match ParseValue(k.rest)
        case None => None
        case Some(p) =>
          var (w, fields) := (SkipWhitespace(p.rest), Put(acc, k.value, p.value));
          if w == "" then None
          else if w[0] == '}' then Some(Parsed(fields, w[1..]))
          else if w[0] == ',' then ObjectLoop(w[1..], fields)
          else None
  {
    hide ParseValue, ParseString, Put;
  }

  lemma {:induction false} FieldsAgree(r: string, acc: seq<Field>)
    ensures Agree(StrictFields(r, acc), ObjectLoop(r, acc))
    decreases |r|, 1
  {
    hide StrictValue, ParseValue, ParseString, Key, Put;
    if r == "" {
      NoValue();
    } else {
      ObjectLoopIs(r, acc);
      if Key(r).Some? {
        var k := Key(r).value;
        ValuesAgree(k.rest);
        if StrictValue(k.rest).Some? {
          var p := StrictValue(k.rest).value;
          var w := SkipWhitespace(p.rest);
          if w != "" && w[0] == ',' { FieldsAgree(w[1..], Put(acc, k.value, p.value)); }
        }
      }
    }
  }

  // ---------------------------------------------------------------- another last character

  predicate Mark(c: char) { c == ',' || c == ']' || c == '}' }

  function Last(r: string): char
    requires r != ""
  {
    r[|r| - 1]
  }

  function Swap(r: string, d: char): (q: string)
    requires r != ""
    ensures |q| == |r| && Last(q) == d && forall i :: 0 <= i < |r| - 1 ==> q[i] == r[i]
  {
    r[..|r| - 1] + [d]
  }

  // As long as text is left, reading does not depend on a last character that is a comma or a
  // closing bracket.
  ghost predicate Stable<T>(p: Option<Parsed<T>>, p': Option<Parsed<T>>, c: char, d: char) {
    p.Some? && p.value.rest != "" ==>
      Last(p.value.rest) == c && p' == Some(Parsed(p.value.value, Swap(p.value.rest, d)))
  }

  lemma SwapRest(r: string, k: nat, d: char)
    requires k < |r|
    ensures Last(r[k..]) == Last(r) && Swap(r, d)[k..] == Swap(r[k..], d)
  {
  }

  lemma SwapBack(r: string, d: char)
    requires r != ""
    ensures Swap(Swap(r, d), Last(r)) == r
  {
  }

  lemma {:induction false} SkipSwap(r: string, d: char)
    requires r != "" && Mark(Last(r)) && Mark(d)
    ensures var q := SkipWhitespace(r);
      q != "" && Last(q) == Last(r) && SkipWhitespace(Swap(r, d)) == Swap(q, d)
        && q[0] == (if |q| == 1 then Last(r) else Swap(q, d)[0])
  {
    if IsSpace(r[0]) {
      SwapRest(r, 1, d);
      SkipSwap(r[1..], d);
    }
  }

  lemma {:induction false} StringLoopStable(r: string, acc: string, d: char)
    requires r != "" && Mark(Last(r)) && Mark(d)
    ensures Stable(StringLoop(r, acc), StringLoop(Swap(r, d), acc), Last(r), d)
    decreases |r|
  {
    if |r| > 1 {
      SwapRest(r, 1, d);
      if r[0] == '\\' {
        if |r| > 2 {
          SwapRest(r, 2, d);
          StringLoopStable(r[2..], acc + [Unescape(r[1])], d);
        }
      } else if r[0] != '"' {
        StringLoopStable(r[1..], acc + [r[0]], d);
      }
    }
  }

  lemma StringStable(r: string, d: char)
    requires r != "" && Mark(Last(r)) && Mark(d)
    ensures Stable(ParseString(r), ParseString(Swap(r, d)), Last(r), d)
  {
    if |r| > 1 {
      SwapRest(r, 1, d);
      StringLoopStable(r[1..], "", d);
    }
  }

  lemma {:induction false} DigitsStable(r: string, d: char)
    requires r != "" && Mark(Last(r)) && Mark(d)
    ensures Digits(Swap(r, d)) == Digits(r) && |Digits(r)| < |r|
  {
    if IsDigit(r[0]) {
      SwapRest(r, 1, d);
      DigitsStable(r[1..], d);
    }
  }

  lemma FractionStable(r: string, d: char)
    requires r != "" && Mark(Last(r)) && Mark(d)
    ensures Fraction(Swap(r, d)) == Fraction(r) && (Fraction(r).Some? ==> Fraction(r).value < |r|)
  {
    if r[0] == '.' {
      SwapRest(r, 1, d);
      DigitsStable(r[1..], d);
    }
  }

  lemma ExponentStable(r: string, d: char)
    requires r != "" && Mark(Last(r)) && Mark(d)
    ensures Exponent(Swap(r, d)) == Exponent(r) && (Exponent(r).Some? ==> Exponent(r).value < |r|)
  {
    hide Digits, IsDigit;
    if r[0] == 'e' || r[0] == 'E' {
      var sign := if r[1] == '+' || r[1] == '-' then 1 else 0;
      SwapRest(r, 1 + sign, d);
      DigitsStable(r[1 + sign..], d);
    }
  }

  lemma NumberStable(r: string, d: char)
    requires r != "" && Mark(Last(r)) && Mark(d)
    ensures Stable(ParseNumber(r), ParseNumber(Swap(r, d)), Last(r), d)
  {
    hide Digits, Fraction, Exponent, Number, Swap, ParseNumber;
    NoNumber(r);
    var (s, minus) := (Swap(r, d), if r[0] == '-' then 1 else 0);
    if |r| > 1 {
      SwapRest(r, minus, d);
      DigitsStable(r[minus..], d);
      var ds := Digits(r[minus..]);
      var n := minus + |ds|;
      SwapRest(r, n, d);
      FractionStable(r[n..], d);
      if ds != "" && Fraction(r[n..]).Some? {
        var f := Fraction(r[n..]).value;
        SwapRest(r, n + f, d);
        ExponentStable(r[n + f..], d);
        if Exponent(r[n + f..]).Some? {
          NumberEnds(r, s, d, minus, ds, f, Exponent(r[n + f..]).value);
        }
      }
    }
  }

  lemma NumberEnds(r: string, s: string, d: char, minus: nat, ds: string, f: nat, e: nat)
    requires r != "" && s == Swap(r, d) && minus < |r| && ds != "" && Digits(s[minus..]) == Digits(r[minus..]) == ds
    requires minus == (if r[0] == '-' then 1 else 0) == (if s[0] == '-' then 1 else 0)
    requires minus + |ds| + f + e < |r|
    requires Fraction(r[minus + |ds|..]) == Fraction(s[minus + |ds|..]) == Some(f)
    requires Exponent(r[minus + |ds| + f..]) == Exponent(s[minus + |ds| + f..]) == Some(e)
    ensures Stable(ParseNumber(r), ParseNumber(s), Last(r), d)
  {
    hide ParseNumber, Digits, Fraction, Exponent, Swap, Number;
    var k := minus + |ds| + f + e;
    NumberIs(r, minus, ds, f, e);
    NumberIs(s, minus, ds, f, e);
    SwapRest(r, k, d);
    if f + e > 0 { assert s[..k] == r[..k]; }
  }

  lemma WordStable(r: string, d: char, word: string)
    requires r != "" && Mark(Last(r)) && Mark(d) && word != "" && !Mark(Last(word))
    ensures StartsWith(Swap(r, d), word) == StartsWith(r, word)
    ensures StartsWith(r, word) ==>
      && |word| < |r| && Last(r[|word|..]) == Last(r)
      && Swap(r, d)[|word|..] == Swap(r[|word|..], d)
  {
    var s := Swap(r, d);
    if |word| < |r| {
      assert s[..|word|] == r[..|word|];
      SwapRest(r, |word|, d);
    }
  }

  lemma TextStable(q: string, d: char)
    requires |q| > 1 && Mark(Last(q)) && Mark(d) && q[0] == '"'
    ensures Stable(ParseValue(q), ParseValue(Swap(q, d)), Last(q), d)
  {
    hide ParseString, ParseArray, ParseObject, ParseNumber, StartsWith;
    StringStable(q, d);
  }

  lemma NullStable(q: string, d: char)
    requires |q| > 1 && Mark(Last(q)) && Mark(d) && q[0] == 'n'
    ensures Stable(ParseValue(q), ParseValue(Swap(q, d)), Last(q), d)
  {
    hide ParseValue, StartsWith;
    NullValue(q);
    NullValue(Swap(q, d));
    WordStable(q, d, "null");
  }

  lemma NullValue(q: string)
    requires q != "" && q[0] == 'n'
    ensures ParseValue(q) == if StartsWith(q, "null") then Some(Parsed(Null, q[|"null"|..])) else None
  {
    hide ParseArray, ParseObject, ParseString, ParseNumber;
  }

  // the two other keywords
  lemma BoolValue(q: string)
    requires q != "" && (q[0] == 't' || q[0] == 'f')
    ensures ParseValue(q) ==
      if StartsWith(q, "true") then Some(Parsed(Bool(true), q[|"true"|..]))
      else if StartsWith(q, "false") then Some(Parsed(Bool(false), q[|"false"|..]))
      else None
  {
    hide ParseArray, ParseObject, ParseString, ParseNumber;
  }

  lemma BoolStable(q: string, d: char)
    requires |q| > 1 && Mark(Last(q)) && Mark(d) && (q[0] == 't' || q[0] == 'f')
    ensures Stable(ParseValue(q), ParseValue(Swap(q, d)), Last(q), d)
  {
    hide ParseValue, StartsWith;
    BoolValue(q);
    BoolValue(Swap(q, d));
    WordStable(q, d, "true");
    WordStable(q, d, "false");
  }

  // a value that is no list
  lemma ScalarStable(q: string, d: char)
    requires q != "" && Mark(Last(q)) && Mark(d) && !IsSpace(q[0]) && q[0] != '[' && q[0] != '{'
    ensures Stable(ParseValue(q), ParseValue(Swap(q, d)), Last(q), d)
  {
    if |q| > 1 {
      if q[0] == '"' {
        TextStable(q, d);
      } else if q[0] == 'n' {
        NullStable(q, d);
      } else if q[0] == 't' || q[0] == 'f' {
        BoolStable(q, d);
      } else {
        hide ParseNumber, ParseArray, ParseObject, ParseString, StartsWith;
        NumberStable(q, d);
      }
    }
  }

  lemma {:induction false} ValueStable(r: string, d: char)
    requires r != "" && Mark(Last(r)) && Mark(d)
    ensures Stable(StrictValue(r), StrictValue(Swap(r, d)), Last(r), d)
    decreases |r|, 0
  {
    hide ParseValue, StrictArray, StrictObject, SkipWhitespace;
    SkipSwap(r, d);
    var q := SkipWhitespace(r);
    if |q| > 1 && (q[0] == '{' || q[0] == '[') {
      SwapRest(q, 1, d);
      if q[0] == '{' { ObjectStable(q[1..], d); } else { ArrayStable(q[1..], d); }
    } else {
      ScalarStable(q, d);
    }
  }

  lemma {:induction false} ArrayStable(r: string, d: char)
    requires r != "" && Mark(Last(r)) && Mark(d)
    ensures Stable(StrictArray(r), StrictArray(Swap(r, d)), Last(r), d)
    decreases |r|, 2
  {
    hide StrictItems, SkipWhitespace;
    SkipSwap(r, d);
    var q := SkipWhitespace(r);
    if |q| == 1 {
      MarkIsNoItem(q, []);
    } else {
      SwapRest(q, 1, d);
      ItemsStable(q, [], d);
    }
  }

  lemma MarkIsNoItem(q: string, acc: seq<Json>)
    requires |q| == 1 && Mark(q[0])
    ensures StrictValue(q) == None && StrictItems(q, acc) == None && Key(q) == None
  {
  }

  lemma {:induction false} ItemsStable(r: string, acc: seq<Json>, d: char)
    requires r != "" && Mark(Last(r)) && Mark(d)
    ensures Stable(StrictItems(r, acc), StrictItems(Swap(r, d), acc), Last(r), d)
    decreases |r|, 1
  {
    hide StrictValue, SkipWhitespace;
    ValueStable(r, d);
    if StrictValue(r).Some? && StrictValue(r).value.rest != "" {
      var p := StrictValue(r).value;
      SkipSwap(p.rest, d);
      var w := SkipWhitespace(p.rest);
      if |w| > 1 {
        SwapRest(w, 1, d);
        if w[0] == ',' { ItemsStable(w[1..], acc + [p.value], d); }
      } else {
        NoValue();
      }
    } else {
      SkipNothing();
    }
  }

  lemma SkipNothing()
    ensures SkipWhitespace("") == ""
  {
  }

  lemma {:induction false} ObjectStable(r: string, d: char)
    requires r != "" && Mark(Last(r)) && Mark(d)
    ensures Stable(StrictObject(r), StrictObject(Swap(r, d)), Last(r), d)
    decreases |r|, 2
  {
    hide StrictFields, SkipWhitespace;
    SkipSwap(r, d);
    var q := SkipWhitespace(r);
    if |q| == 1 {
      MarkIsNoField(q, []);
    } else {
      SwapRest(q, 1, d);
      FieldsStable(q, [], d);
    }
  }

  lemma MarkIsNoField(q: string, acc: seq<Field>)
    requires |q| == 1 && Mark(q[0])
    ensures StrictFields(q, acc) == None
  {
  }

  lemma KeyStable(r: string, d: char)
    requires r != "" && Mark(Last(r)) && Mark(d)
    ensures Stable(Key(r), Key(Swap(r, d)), Last(r), d)
  {
    hide SkipWhitespace, ParseString;
    SkipSwap(r, d);
    var q := SkipWhitespace(r);
    StringStable(q, d);
    if ParseString(q).Some? && ParseString(q).value.rest != "" {
      var k := ParseString(q).value;
      SkipSwap(k.rest, d);
      var colon := SkipWhitespace(k.rest);
      if |colon| > 1 { SwapRest(colon, 1, d); }
    } else {
      SkipNothing();
    }
  }

  lemma {:induction false} FieldsStable(r: string, acc: seq<Field>, d: char)
    requires r != "" && Mark(Last(r)) && Mark(d)
    ensures Stable(StrictFields(r, acc), StrictFields(Swap(r, d), acc), Last(r), d)
    decreases |r|, 1
  {
    hide StrictValue, SkipWhitespace, Key, Put;
    NoValue();
    SkipNothing();
    KeyStable(r, d);
    if Key(r).Some? && Key(r).value.rest != "" {
      var k := Key(r).value;
      ValueStable(k.rest, d);
      if StrictValue(k.rest).Some? && StrictValue(k.rest).value.rest != "" {
        var p := StrictValue(k.rest).value;
        SkipSwap(p.rest, d);
        var w := SkipWhitespace(p.rest);
        if |w| > 1 {
          SwapRest(w, 1, d);
          if w[0] == ',' { FieldsStable(w[1..], Put(acc, k.value, p.value), d); }
        }
      }
    }
  }

  // ---------------------------------------------------------------- what is left is the end of the text

  ghost predicate Suffix(t: string, r: string) {
    |t| <= |r| && r[|r| - |t|..] == t
  }

  lemma Suffixes(t: string, s: string, r: string)
    requires Suffix(t, s) && Suffix(s, r)
    ensures Suffix(t, r) && (t != "" ==> Last(t) == Last(s) == Last(r))
  {
    assert r[|r| - |s|..][|s| - |t|..] == r[|r| - |t|..];
    assert t != "" ==> t[|t| - 1] == s[|s| - 1] == r[|r| - 1];
  }

  lemma Dropped(r: string, k: nat)
    requires k <= |r|
    ensures Suffix(r[k..], r)
  {
  }

  lemma {:induction false} SkipSuffix(r: string)
    ensures Suffix(SkipWhitespace(r), r)
  {
    if r != "" && IsSpace(r[0]) {
      SkipSuffix(r[1..]);
      Dropped(r, 1);
      Suffixes(SkipWhitespace(r[1..]), r[1..], r);
    }
  }

  lemma {:induction false} StringLoopSuffix(r: string, acc: string)
    ensures StringLoop(r, acc).Some? ==> Suffix(StringLoop(r, acc).value.rest, r)
    decreases |r|
  {
    if r != "" && StringLoop(r, acc).Some? && r[0] != '"' {
      var (k, next) := if r[0] == '\\' then (2, acc + [Unescape(r[1])]) else (1, acc + [r[0]]);
      StringLoopSuffix(r[k..], next);
      Dropped(r, k);
      Suffixes(StringLoop(r[k..], next).value.rest, r[k..], r);
    }
  }

  lemma StringSuffix(r: string)
    ensures ParseString(r).Some? ==> Suffix(ParseString(r).value.rest, r)
  {
    if ParseString(r).Some? {
      StringLoopSuffix(r[1..], "");
      Dropped(r, 1);
      Suffixes(ParseString(r).value.rest, r[1..], r);
    }
  }

  lemma ScalarSuffix(q: string)
    requires q == "" || (!IsSpace(q[0]) && q[0] != '[' && q[0] != '{')
    ensures ParseValue(q).Some? ==> Suffix(ParseValue(q).value.rest, q)
  {
    hide ParseString, Digits, Number, Fraction, Exponent;
    StringSuffix(q);
  }

  lemma {:induction false} ValueSuffix(r: string)
    ensures StrictValue(r).Some? ==> Suffix(StrictValue(r).value.rest, r)
    decreases |r|, 0
  {
    hide ParseValue, StrictArray, StrictObject, SkipWhitespace, Suffix;
    var q := SkipWhitespace(r);
    SkipSuffix(r);
    if StrictValue(r).Some? {
      if q != "" && (q[0] == '{' || q[0] == '[') {
        if q[0] == '{' { ObjectSuffix(q[1..]); } else { ArraySuffix(q[1..]); }
        Dropped(q, 1);
        Suffixes(StrictValue(r).value.rest, q[1..], q);
      } else {
        ScalarSuffix(q);
      }
      Suffixes(StrictValue(r).value.rest, q, r);
    }
  }

  lemma {:induction false} ArraySuffix(r: string)
    ensures StrictArray(r).Some? ==> Suffix(StrictArray(r).value.rest, r)
    decreases |r|, 2
  {
    hide StrictItems, SkipWhitespace, Suffix;
    var q := SkipWhitespace(r);
    SkipSuffix(r);
    if StrictArray(r).Some? {
      if q != "" && q[0] == ']' { Dropped(q, 1); } else { ItemsSuffix(q, []); }
      Suffixes(StrictArray(r).value.rest, q, r);
    }
  }

  // white space and one character are skipped
  lemma SkipOneSuffix(rest: string, r: string)
    requires Suffix(rest, r) && SkipWhitespace(rest) != ""
    ensures Suffix(SkipWhitespace(rest)[1..], r)
  {
    hide Suffix, SkipWhitespace;
    var w := SkipWhitespace(rest);
    SkipSuffix(rest);
    Dropped(w, 1);
    Suffixes(w, rest, r);
    Suffixes(w[1..], w, r);
  }

  lemma {:induction false} ItemsSuffix(r: string, acc: seq<Json>)
    ensures StrictItems(r, acc).Some? ==> Suffix(StrictItems(r, acc).value.rest, r)
    decreases |r|, 1
  {
    hide StrictValue, SkipWhitespace, Suffix;
    ValueSuffix(r);
    if StrictItems(r, acc).Some? {
      var p := StrictValue(r).value;
      var w := SkipWhitespace(p.rest);
      SkipOneSuffix(p.rest, r);
      if w[0] == ',' {
        ItemsSuffix(w[1..], acc + [p.value]);
        Suffixes(StrictItems(r, acc).value.rest, w[1..], r);
      }
    }
  }

  lemma {:induction false} ObjectSuffix(r: string)
    ensures StrictObject(r).Some? ==> Suffix(StrictObject(r).value.rest, r)
    decreases |r|, 2
  {
    hide StrictFields, SkipWhitespace, Suffix;
    var q := SkipWhitespace(r);
    SkipSuffix(r);
    if StrictObject(r).Some? {
      if q != "" && q[0] == '}' { Dropped(q, 1); } else { FieldsSuffix(q, []); }
      Suffixes(StrictObject(r).value.rest, q, r);
    }
  }

  lemma KeySuffix(r: string)
    ensures Key(r).Some? ==> Suffix(Key(r).value.rest, r)
  {
    hide ParseString, SkipWhitespace, Suffix;
    var q := SkipWhitespace(r);
    SkipSuffix(r);
    StringSuffix(q);
    if Key(r).Some? {
      Suffixes(ParseString(q).value.rest, q, r);
      SkipOneSuffix(ParseString(q).value.rest, r);
    }
  }

  lemma {:induction false} FieldsSuffix(r: string, acc: seq<Field>)
    ensures StrictFields(r, acc).Some? ==> Suffix(StrictFields(r, acc).value.rest, r)
    decreases |r|, 1
  {
    hide StrictValue, SkipWhitespace, Suffix, Key, Put;
    KeySuffix(r);
    if StrictFields(r, acc).Some? {
      var k := Key(r).value;
      ValueSuffix(k.rest);
      var p := StrictValue(k.rest).value;
      var w := SkipWhitespace(p.rest);
      Suffixes(p.rest, k.rest, r);
      SkipOneSuffix(p.rest, r);
      if w[0] == ',' {
        FieldsSuffix(w[1..], Put(acc, k.value, p.value));
        Suffixes(StrictFields(r, acc).value.rest, w[1..], r);
      }
    }
  }

  // ---------------------------------------------------------------- lists that are not closed

  // The text, with its last character, a comma, replaced by the closing bracket, is a whole list.
  ghost predicate ClosedBy<T>(r: string, closed: Option<Parsed<T>>) {
    r != "" && Last(r) == ',' && closed.Some? && closed.value.rest == ""
  }

  // p is accepted only because the end of the text closes the list, and stands for the closed list
  ghost predicate Unclosed<T>(strict: Option<Parsed<T>>, p: Option<Parsed<T>>, r: string, closed: Option<Parsed<T>>) {
    && (strict.None? && p.Some? <==> ClosedBy(r, closed))
    && (ClosedBy(r, closed) ==> p == closed)
  }

  // The loop accepts without a closing bracket exactly if the text ends in a comma in its place.
  lemma {:induction false} ItemsUnclosed(r: string, acc: seq<Json>)
    requires r != ""
    ensures Unclosed(StrictItems(r, acc), ArrayLoop(r, acc), r, StrictItems(Swap(r, ']'), acc))
    decreases |r|, 1
  {
    hide StrictValue, ParseValue, SkipWhitespace;
    SkipNothing();
    ValuesAgree(r);
    var s := Swap(r, ']');
    if Last(r) == ',' {
      ValueStable(r, ']');
      ValueStable(s, ',');
      SwapBack(r, ']');
    }
    if StrictValue(r).Some? && StrictValue(r).value.rest != "" {
      ItemsGoOn(r, acc, StrictValue(r).value);
    }
  }

  // the same behind an item
  lemma {:induction false} ItemsGoOn(r: string, acc: seq<Json>, p: Parsed<Json>)
    requires r != "" && StrictValue(r) == ParseValue(r) == Some(p) && p.rest != ""
    requires Last(r) == ',' ==>
      && Last(p.rest) == ','
      && StrictValue(Swap(r, ']')) == Some(Parsed(p.value, Swap(p.rest, ']')))
    ensures Unclosed(StrictItems(r, acc), ArrayLoop(r, acc), r, StrictItems(Swap(r, ']'), acc))
    decreases |r|, 0
  {
    hide StrictValue, ParseValue, SkipWhitespace, Suffix;
    NoValue();
    var w := SkipWhitespace(p.rest);
    SkipNothing();
    if Last(r) == ',' { SkipSwap(p.rest, ']'); }
    if w != "" {
      ValueSuffix(r);
      SkipSuffix(p.rest);
      Suffixes(w, p.rest, r);
      if |w| > 1 {
        SwapRest(w, 1, ']');
        if w[0] == ',' { ItemsUnclosed(w[1..], acc + [p.value]); }
      }
    }
  }

  lemma {:induction false} FieldsUnclosed(r: string, acc: seq<Field>)
    requires r != ""
    ensures Unclosed(StrictFields(r, acc), ObjectLoop(r, acc), r, StrictFields(Swap(r, '}'), acc))
    decreases |r|, 1
  {
    hide StrictValue, ParseValue, SkipWhitespace, Key, ObjectLoop, Put;
    NoValue();
    SkipNothing();
    ObjectLoopIs(r, acc);
    var s := Swap(r, '}');
    if Last(r) == ',' {
      KeyStable(r, '}');
      KeyStable(s, ',');
      SwapBack(r, '}');
    }
    if Key(r).Some? && Key(r).value.rest != "" {
      FieldUnclosed(r, acc, Key(r).value);
    }
  }

  // the same behind a key
  lemma {:induction false} FieldUnclosed(r: string, acc: seq<Field>, k: Parsed<string>)
    requires r != "" && Key(r) == Some(k) && k.rest != ""
    requires Last(r) == ',' ==> Last(k.rest) == ',' && Key(Swap(r, '}')) == Some(Parsed(k.value, Swap(k.rest, '}')))
    ensures Unclosed(StrictFields(r, acc), ObjectLoop(r, acc), r, StrictFields(Swap(r, '}'), acc))
    decreases |r|, 0, 1
  {
    hide StrictValue, ParseValue, SkipWhitespace, Key, ObjectLoop, Put;
    SkipNothing();
    ObjectLoopIs(r, acc);
    ValuesAgree(k.rest);
    if Last(r) == ',' {
      ValueStable(k.rest, '}');
      ValueStable(Swap(k.rest, '}'), ',');
      SwapBack(k.rest, '}');
    }
    if StrictValue(k.rest).Some? && StrictValue(k.rest).value.rest != "" {
      FieldsGoOn(r, acc, k, StrictValue(k.rest).value);
    }
  }

  // the same behind a field
  lemma {:induction false} FieldsGoOn(r: string, acc: seq<Field>, k: Parsed<string>, p: Parsed<Json>)
    requires r != "" && Key(r) == Some(k) && StrictValue(k.rest) == ParseValue(k.rest) == Some(p) && p.rest != ""
      && k.rest != ""
    requires Last(r) == ',' ==>
      && Last(k.rest) == ',' && Key(Swap(r, '}')) == Some(Parsed(k.value, Swap(k.rest, '}')))
      && Last(p.rest) == ',' && StrictValue(Swap(k.rest, '}')) == Some(Parsed(p.value, Swap(p.rest, '}')))
    ensures Unclosed(StrictFields(r, acc), ObjectLoop(r, acc), r, StrictFields(Swap(r, '}'), acc))
    decreases |r|, 0, 0
  {
    hide StrictValue, ParseValue, SkipWhitespace, Suffix, Key, ObjectLoop, Put;
    NoValue();
    ObjectLoopIs(r, acc);
    ObjectLoopAtEnd(Put(acc, k.value, p.value));
    var w := SkipWhitespace(p.rest);
    SkipNothing();
    if Last(r) == ',' { SkipSwap(p.rest, '}'); }
    if w != "" {
      KeySuffix(r);
      ValueSuffix(k.rest);
      Suffixes(p.rest, k.rest, r);
      SkipSuffix(p.rest);
      Suffixes(w, p.rest, r);
      if |w| > 1 {
        SwapRest(w, 1, '}');
        if w[0] == ',' { FieldsUnclosed(w[1..], Put(acc, k.value, p.value)); }
      }
    }
  }

  lemma ObjectLoopAtEnd(acc: seq<Field>)
    ensures ObjectLoop("", acc) == Some(Parsed(acc, ""))
  {
  }

  // ---------------------------------------------------------------- the exact condition

  // The text is the opening bracket and white space; or something stands between the bracket and
  // a comma at the very end, and with a closing bracket for the comma it is a whole value.
  ghost predicate Ends(q: string, open: char, close: char) {
    && q != "" && q[0] == open
    && var r := SkipWhitespace(q[1..]);
       r == "" || (r != "," && ClosedBy(q, StrictValue(Swap(q, close))))
  }

  lemma ArrayValue(q: string)
    requires q != "" && q[0] == '['
    ensures ParseValue(q) == match ParseArray(q[1..]) case None => None
      case Some(p) => Some(Parsed(Arr(p.value), p.rest))
    ensures StrictValue(q) == match StrictArray(q[1..]) case None => None
      case Some(p) => Some(Parsed(Arr(p.value), p.rest))
  {
    hide ParseArray, StrictArray;
  }

  lemma ObjectValue(q: string)
    requires q != "" && q[0] == '{'
    ensures ParseValue(q) == match ParseObject(q[1..]) case None => None
      case Some(p) => Some(Parsed(Obj(p.value), p.rest))
    ensures StrictValue(q) == match StrictObject(q[1..]) case None => None
      case Some(p) => Some(Parsed(Obj(p.value), p.rest))
  {
    hide ParseObject, StrictObject;
  }

  // The text behind the bracket, white space skipped, and the same text closed.
  lemma Behind(q: string, d: char)
    requires q != "" && SkipWhitespace(q[1..]) != "" && Mark(d)
    ensures var r := SkipWhitespace(q[1..]);
      && |q| > 1 && Last(r) == Last(q) && Swap(q, d)[0] == q[0]
      && (Last(q) == ',' ==> SkipWhitespace(Swap(q, d)[1..]) == Swap(r, d))
  {
    SkipNothing();
    SkipSuffix(q[1..]);
    Dropped(q, 1);
    hide SkipWhitespace, Suffix;
    Suffixes(SkipWhitespace(q[1..]), q[1..], q);
    SwapRest(q, 1, d);
    if Last(q) == ',' { SkipSwap(q[1..], d); }
  }

  // When an array is accepted unclosed, and what it is taken for.
  lemma ArrayUnclosed(q: string)
    requires q != "" && q[0] == '['
    ensures StrictValue(q).None? && ParseValue(q).Some? <==> Ends(q, '[', ']')
    ensures Ends(q, '[', ']') ==>
      ParseValue(q) == if SkipWhitespace(q[1..]) == "" then Some(Parsed(Arr([]), "")) else StrictValue(Swap(q, ']'))
  {
    hide StrictItems, ArrayLoop, ParseValue, StrictValue, SkipWhitespace;
    ArrayValue(q);
    var r := SkipWhitespace(q[1..]);
    if r == "" {
      EmptyLoops();
    } else {
      Behind(q, ']');
      ArrayValue(Swap(q, ']'));
      if r == "," { MarkIsNoItem(r, []); LoneMark(r); }
      ItemsUnclosed(r, []);
    }
  }

  lemma ObjectUnclosed(q: string)
    requires q != "" && q[0] == '{'
    ensures StrictValue(q).None? && ParseValue(q).Some? <==> Ends(q, '{', '}')
    ensures Ends(q, '{', '}') ==>
      ParseValue(q) == if SkipWhitespace(q[1..]) == "" then Some(Parsed(Obj([]), "")) else StrictValue(Swap(q, '}'))
  {
    hide StrictFields, ObjectLoop, ParseValue, StrictValue, SkipWhitespace;
    ObjectValue(q);
    var r := SkipWhitespace(q[1..]);
    if r == "" {
      EmptyLoops();
    } else {
      Behind(q, '}');
      ObjectValue(Swap(q, '}'));
      if r == "," { LoneMark(r); }
      FieldsUnclosed(r, []);
    }
  }

  lemma LoneMark(q: string)
    requires |q| == 1 && Mark(q[0])
    ensures ArrayLoop(q, []) == None && ObjectLoop(q, []) == None
  {
  }

  lemma EmptyLoops()
    ensures ArrayLoop("", []) == Some(Parsed([], "")) && ObjectLoop("", []) == Some(Parsed([], ""))
    ensures StrictItems("", []) == None && StrictFields("", []) == None
  {
  }

  // For every text: the parser accepts a value that is not closed exactly if its list, in which
  // all inner lists are closed, ends at the end of the text as Ends says.
  lemma UnclosedExactly(text: string)
    ensures var q := SkipWhitespace(text);
      StrictValue(text).None? && ParseValue(text).Some? <==> Ends(q, '[', ']') || Ends(q, '{', '}')
    ensures StrictValue(text).Some? ==> ParseValue(text) == StrictValue(text)
  {
    hide Ends, StrictArray, StrictObject, ParseArray, ParseObject, ParseNumber, ParseString;
    var q := SkipWhitespace(text);
    SkipTwice(text);
    ValuesAgree(text);
    assert StrictValue(q) == StrictValue(text) && ParseValue(q) == ParseValue(text);
    if q != "" && q[0] == '[' {
      ArrayUnclosed(q);
      OpensWith(q, '{', '}');
    } else if q != "" && q[0] == '{' {
      ObjectUnclosed(q);
      OpensWith(q, '[', ']');
    } else {
      OpensWith(q, '[', ']');
      OpensWith(q, '{', '}');
    }
  }

  lemma OpensWith(q: string, open: char, close: char)
    ensures Ends(q, open, close) ==> q != "" && q[0] == open
  {
  }

  // Nothing behind the bracket, and a comma behind the last item, are the two ways to end.
  lemma EndsForExample()
    ensures ParseValue("[ ") == Some(Parsed(Arr([]), "")) && ParseValue("{") == Some(Parsed(Obj([]), ""))
    ensures ParseValue("[,") == None
  {
    assert "[ "[1..] == " " && " "[1..] == "" && "{"[1..] == "" && "[,"[1..] == ",";
    ArrayValue("[ ");
    ObjectValue("{");
    ArrayValue("[,");
    LoneMark(",");
    EmptyLoops();
    assert SkipWhitespace(" ") == "" && SkipWhitespace(",") == ",";
  }
}
