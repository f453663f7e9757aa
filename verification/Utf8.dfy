/**
  The streaming UTF-8 validator of websocketpp/utf8_validator.hpp, a table-driven automaton,
  compared with the grammar in section 4 of RFC 3629. Masks and shifts of the code point are
  written as remainders and products.
*/
module Utf8 {
  import opened Common

  // ---------------------------------------------------------------- the table

  // the lines of utf8d, the first of which give the class of a byte and the last the transitions
  type Line = l: seq<nat> | |l| == 32 witness seq(32, _ => 0)
  type HalfLine = l: seq<nat> | |l| == 16 witness seq(16, _ => 0)

  const LINE_80: Line := [1,1,1,1,1,1,1,1,1,1,1,1,1,1,1,1,9,9,9,9,9,9,9,9,9,9,9,9,9,9,9,9]
  const LINE_A0: Line := [7,7,7,7,7,7,7,7,7,7,7,7,7,7,7,7,7,7,7,7,7,7,7,7,7,7,7,7,7,7,7,7]
  const LINE_C0: Line := [8,8,2,2,2,2,2,2,2,2,2,2,2,2,2,2,2,2,2,2,2,2,2,2,2,2,2,2,2,2,2,2]
  const LINE_E0: HalfLine := [0xa,0x3,0x3,0x3,0x3,0x3,0x3,0x3,0x3,0x3,0x3,0x3,0x3,0x4,0x3,0x3]
  const LINE_F0: HalfLine := [0xb,0x6,0x6,0x6,0x5,0x8,0x8,0x8,0x8,0x8,0x8,0x8,0x8,0x8,0x8,0x8]
  const LINE_S0: HalfLine := [0x0,0x1,0x2,0x3,0x5,0x8,0x7,0x1,0x1,0x1,0x4,0x6,0x1,0x1,0x1,0x1]
  const LINE_S1: Line := [1,1,1,1,1,1,1,1,1,1,1,1,1,1,1,1,1,0,1,1,1,1,1,0,1,0,1,1,1,1,1,1]
  const LINE_S3: Line := [1,2,1,1,1,1,1,2,1,2,1,1,1,1,1,1,1,1,1,1,1,1,1,2,1,1,1,1,1,1,1,1]
  const LINE_S5: Line := [1,2,1,1,1,1,1,1,1,2,1,1,1,1,1,1,1,1,1,1,1,1,1,3,1,3,1,1,1,1,1,1]
  const LINE_S7: Line := [1,3,1,1,1,1,1,3,1,3,1,1,1,1,1,1,1,3,1,1,1,1,1,1,1,1,1,1,1,1,1,1]

  function Utf8d(i: nat): nat
    requires i < 400
  {
    if i < 0x80 then 0
    else if i < 0xa0 then LINE_80[i - 0x80]
    else if i < 0xc0 then LINE_A0[i - 0xa0]
    else if i < 0xe0 then LINE_C0[i - 0xc0]
    else if i < 0xf0 then LINE_E0[i - 0xe0]
    else if i < 0x100 then LINE_F0[i - 0xf0]
    else if i < 0x110 then LINE_S0[i - 0x100]
    else if i < 0x130 then LINE_S1[i - 0x110]
    else if i < 0x150 then LINE_S3[i - 0x130]
    else if i < 0x170 then LINE_S5[i - 0x150]
    else LINE_S7[i - 0x170]
  }

  const ACCEPT := 0
  const REJECT := 1

  // the class of a byte, by ranges
  function Class(b: Byte): (c: nat)
    ensures c < 12
  {
    if b < 0x80 then 0 else if b < 0x90 then 1 else if b < 0xa0 then 9 else if b < 0xc0 then 7
    else if b < 0xc2 then 8 else if b < 0xe0 then 2
    else if b == 0xe0 then 10 else if b == 0xed then 4 else if b < 0xf0 then 3
    else if b == 0xf0 then 11 else if b < 0xf4 then 6 else if b == 0xf4 then 5 else 8
  }

  lemma ClassOfByte(b: Byte)
    ensures Utf8d(b) == Class(b)
  {
  }

  // where a state goes on a class
  function Transition(state: nat, c: nat): (s: nat)
    requires state < 9 && c < 12
    ensures s < 9
  {
    match state
    case 0 =>
      if c == 0 then 0 else if c == 2 then 2 else if c == 3 then 3 else if c == 4 then 5
      else if c == 5 then 8 else if c == 6 then 7 else if c == 10 then 4 else if c == 11 then 6 else 1
    case 1 => 1
    case 2 => if c == 1 || c == 7 || c == 9 then 0 else 1
    case 3 => if c == 1 || c == 7 || c == 9 then 2 else 1
    case 4 => if c == 7 then 2 else 1
    case 5 => if c == 1 || c == 9 then 2 else 1
    case 6 => if c == 7 || c == 9 then 3 else 1
    case 7 => if c == 1 || c == 7 || c == 9 then 3 else 1
    case _ => if c == 1 then 3 else 1
  }

  lemma TransitionOfTable(state: nat, c: nat)
    requires state < 9 && c < 12
    ensures Utf8d(256 + state * 16 + c) == Transition(state, c)
  {
    match state
    case 0 =>
    case 1 =>
    case 2 =>
    case 3 =>
    case 4 =>
    case 5 =>
    case 6 =>
    case 7 =>
    case _ =>
  }

  // ---------------------------------------------------------------- the grammar

  predicate Tail(b: Byte) { 0x80 <= b <= 0xBF }

  // what may follow a lead byte of three or four
  predicate SecondOk(lead: Byte, b: Byte) {
    if lead == 0xE0 then 0xA0 <= b <= 0xBF
    else if lead == 0xED then 0x80 <= b <= 0x9F
    else if lead == 0xF0 then 0x90 <= b <= 0xBF
    else if lead == 0xF4 then 0x80 <= b <= 0x8F
    else Tail(b)
  }

  // UTF8-1, UTF8-2, UTF8-3 and UTF8-4
  predicate IsChar(c: seq<Byte>) {
    match |c|
    case 1 => c[0] <= 0x7F
    case 2 => 0xC2 <= c[0] <= 0xDF && Tail(c[1])
    case 3 => 0xE0 <= c[0] <= 0xEF && SecondOk(c[0], c[1]) && Tail(c[2])
    case 4 => 0xF0 <= c[0] <= 0xF4 && SecondOk(c[0], c[1]) && Tail(c[2]) && Tail(c[3])
    case _ => false
  }

  ghost predicate AllChars(cs: seq<seq<Byte>>) {
    forall i :: 0 <= i < |cs| ==> IsChar(cs[i])
  }

  // a concatenation of characters
  ghost predicate IsUtf8(s: seq<Byte>) {
    exists cs {:trigger Flatten(cs)} :: AllChars(cs) && Flatten(cs) == s
  }

  // The first bytes of a character, with at least one byte missing.
  predicate Begins(p: seq<Byte>) {
    match |p|
    case 1 => 0xC2 <= p[0] <= 0xF4
    case 2 => 0xE0 <= p[0] <= 0xF4 && SecondOk(p[0], p[1])
    case 3 => 0xF0 <= p[0] <= 0xF4 && SecondOk(p[0], p[1]) && Tail(p[2])
    case _ => false
  }

  // a byte without the bits that mark its place
  function Bits(b: Byte, mark: int): int { b - mark }

  // the code point of a character (section 3 of RFC 3629)
  function CodePoint(c: seq<Byte>): int
    requires IsChar(c)
  {
    match |c|
    case 1 => c[0]
    case 2 => Bits(c[0], 0xC0) * 64 + Bits(c[1], 0x80)
    case 3 => (Bits(c[0], 0xE0) * 64 + Bits(c[1], 0x80)) * 64 + Bits(c[2], 0x80)
    case _ => ((Bits(c[0], 0xF0) * 64 + Bits(c[1], 0x80)) * 64 + Bits(c[2], 0x80)) * 64 + Bits(c[3], 0x80)
  }

  // the encoding of a code point, as the table in section 3 of RFC 3629 builds it
  function Encode(n: int): seq<Byte>
    requires 0 <= n < 0x110000
  {
    if n < 0x80 then [n]
    else if n < 0x800 then [0xC0 + n / 64, 0x80 + n % 64]
    else if n < 0x10000 then [0xE0 + n / 4096, 0x80 + n / 64 % 64, 0x80 + n % 64]
    else [0xF0 + n / 262144, 0x80 + n / 4096 % 64, 0x80 + n / 64 % 64, 0x80 + n % 64]
  }

  lemma Digits(n: int, a: int, b: int, c: int, d: int)
    requires 0 <= b < 64 && 0 <= c < 64 && 0 <= d < 64 && n == ((a * 64 + b) * 64 + c) * 64 + d
    ensures n % 64 == d && n / 64 % 64 == c && n / 4096 % 64 == b && n / 262144 == a
    ensures n / 64 == (a * 64 + b) * 64 + c && n / 4096 == a * 64 + b
  {
    Divide((a * 64 + b) * 64 + c, d, 64);
    Divide(a * 64 + b, c, 64);
    Divide(a, b, 64);
    Divide(a * 64 + b, c * 64 + d, 4096);
    Divide(a, (b * 64 + c) * 64 + d, 262144);
  }

  lemma Divide(q: int, r: int, d: int)
    requires (d == 64 || d == 4096 || d == 262144) && 0 <= r < d
    ensures (q * d + r) / d == q && (q * d + r) % d == r
  {
  }

  // The grammar admits exactly the encodings of code points that are not surrogates.
  lemma CharsAreEncodings(c: seq<Byte>)
    requires IsChar(c)
    ensures 0 <= CodePoint(c) < 0x110000 && !(0xD800 <= CodePoint(c) < 0xE000)
    ensures Encode(CodePoint(c)) == c
  {
    var n := CodePoint(c);
    match |c|
    case 1 =>
    case 2 => Digits(n, 0, 0, c[0] - 0xC0, c[1] - 0x80);
    case 3 => Digits(n, 0, c[0] - 0xE0, c[1] - 0x80, c[2] - 0x80);
    case _ => Digits(n, c[0] - 0xF0, c[1] - 0x80, c[2] - 0x80, c[3] - 0x80);
  }

  lemma EncodingsAreChars(n: int)
    requires 0 <= n < 0x110000 && !(0xD800 <= n < 0xE000)
    ensures IsChar(Encode(n)) && CodePoint(Encode(n)) == n
  {
    Digits(n, n / 262144, n / 4096 % 64, n / 64 % 64, n % 64);
  }

  // ---------------------------------------------------------------- decode

  const TWO_TO_32 := 0x1_0000_0000

  function Power2(k: nat): (p: nat)
    ensures p > 0
  {
    if k == 0 then 1 else 2 * Power2(k - 1)
  }

  // the lead byte's share of the code point: a mask of 8 - class bits
  function LeadBits(kind: nat, b: Byte): nat {
    if kind > 8 then 0 else b % Power2(8 - kind)
  }

  // one step of decode: the new state and code point
  function Decode(state: nat, codepoint: nat, b: Byte): (r: (nat, nat))
    requires state < 9 && codepoint < TWO_TO_32
    ensures r.0 < 9 && r.1 < TWO_TO_32
  {
    ClassOfByte(b);
    var kind := Utf8d(b);
    TransitionOfTable(state, kind);
    LeadBitsSmall(kind, b);
    (Utf8d(256 + state * 16 + kind),
     if state != ACCEPT then (codepoint * 64 + b % 64) % TWO_TO_32 else LeadBits(kind, b))
  }

  lemma LeadBitsSmall(kind: nat, b: Byte)
    ensures LeadBits(kind, b) < 256
  {
    if kind <= 8 { Power2Small(8 - kind); }
  }

  lemma {:induction false} Power2Small(k: nat)
    requires k <= 8
    ensures 1 <= Power2(k) <= 256
  {
    match k
    case 0 =>
    case 1 =>
    case 2 =>
    case 3 =>
    case 4 =>
    case 5 =>
    case 6 =>
    case 7 =>
    case _ => assert Power2(8) == 256;
  }

  // ---------------------------------------------------------------- what the states stand for

  // the state after the first bytes of a character
  ghost function StateOf(p: seq<Byte>): (state: nat)
    requires Begins(p)
    ensures state < 9 && state != ACCEPT && state != REJECT
  {
    match |p|
    case 1 =>
      if p[0] < 0xE0 then 2 else if p[0] == 0xE0 then 4 else if p[0] == 0xED then 5 else if p[0] < 0xF0 then 3
      else if p[0] == 0xF0 then 6 else if p[0] == 0xF4 then 8 else 7
    case 2 => if p[0] < 0xF0 then 2 else 3
    case _ => 2
  }

  // the code point so far
  ghost function BitsOf(p: seq<Byte>): int
    requires Begins(p)
  {
    var lead := Bits(p[0], if p[0] < 0xE0 then 0xC0 else if p[0] < 0xF0 then 0xE0 else 0xF0);
    match |p|
    case 1 => lead
    case 2 => lead * 64 + Bits(p[1], 0x80)
    case _ => (lead * 64 + Bits(p[1], 0x80)) * 64 + Bits(p[2], 0x80)
  }

  // The first byte of a character.
  lemma FirstByte(b: Byte, codepoint: nat)
    requires codepoint < TWO_TO_32
    ensures var (state, n) := Decode(ACCEPT, codepoint, b);
      if IsChar([b]) then state == ACCEPT && n == CodePoint([b])
      else if Begins([b]) then state == StateOf([b]) && n == BitsOf([b])
      else state == REJECT
  {
    ClassOfByte(b);
    TransitionOfTable(ACCEPT, Class(b));
    Power2Values();
  }

  lemma Power2Values()
    ensures Power2(8) == 256 && Power2(6) == 64 && Power2(5) == 32 && Power2(4) == 16 && Power2(3) == 8
      && Power2(2) == 4
  {
  }

  lemma TailBits(b: Byte)
    ensures Tail(b) ==> b % 64 == Bits(b, 0x80)
  {
  }

  // Another byte of a character.
  lemma NextByte(p: seq<Byte>, b: Byte, codepoint: nat)
    requires Begins(p) && codepoint == BitsOf(p) < TWO_TO_32
    ensures var (state, n) := Decode(StateOf(p), codepoint, b);
      if IsChar(p + [b]) then state == ACCEPT && n == CodePoint(p + [b])
      else if Begins(p + [b]) then state == StateOf(p + [b]) && n == BitsOf(p + [b])
      else state == REJECT
  {
    hide Utf8d, Transition, Class, IsChar, Begins, StateOf, BitsOf, CodePoint, LeadBits;
    ClassOfByte(b);
    TransitionOfTable(StateOf(p), Class(b));
    NextState(p, b);
    NextCodePoint(p, b);
  }

  lemma NextState(p: seq<Byte>, b: Byte)
    requires Begins(p)
    ensures var state := Transition(StateOf(p), Class(b));
      if IsChar(p + [b]) then state == ACCEPT
      else if Begins(p + [b]) then state == StateOf(p + [b])
      else state == REJECT
  {
    match |p|
    case 1 =>
    case 2 =>
    case _ =>
  }

  lemma NextCodePoint(p: seq<Byte>, b: Byte)
    requires Begins(p)
    ensures StateOf(p) != ACCEPT && 0 <= BitsOf(p) * 64 + b % 64 < TWO_TO_32
    ensures IsChar(p + [b]) ==> BitsOf(p) * 64 + b % 64 == CodePoint(p + [b])
    ensures Begins(p + [b]) ==> BitsOf(p) * 64 + b % 64 == BitsOf(p + [b])
  {
    TailBits(b);
    match |p|
    case 1 =>
    case 2 =>
    case _ =>
  }

  // ---------------------------------------------------------------- characters as a prefix code

  lemma PrefixOfChar(c: seq<Byte>, n: nat)
    requires IsChar(c) && 0 < n < |c|
    ensures Begins(c[..n])
  {
  }

  lemma NoCharInBeginning(p: seq<Byte>, n: nat)
    requires Begins(p) && n <= |p|
    ensures !IsChar(p[..n])
  {
  }

  lemma NoCharInChar(c: seq<Byte>, n: nat)
    requires IsChar(c) && n < |c|
    ensures !IsChar(c[..n])
  {
    if n > 0 {
      PrefixOfChar(c, n);
      NoCharInBeginning(c[..n], n);
      assert c[..n][..n] == c[..n];
    }
  }

  // Of two characters at the front of the same text none is longer.
  lemma SameChar(c: seq<Byte>, d: seq<Byte>, s: seq<Byte>)
    requires IsChar(c) && IsChar(d) && c <= s && d <= s
    ensures c == d
  {
    hide IsChar;
    assert |c| < |d| ==> c == d[..|c|];
    assert |d| < |c| ==> d == c[..|d|];
    if |c| < |d| {
      NoCharInChar(d, |c|);
    } else if |d| < |c| {
      NoCharInChar(c, |d|);
    }
  }

  lemma FirstChar(ds: seq<seq<Byte>>)
    requires AllChars(ds) && ds != []
    ensures ds[0] <= Flatten(ds) && Flatten(ds) == ds[0] + Flatten(ds[1..]) && IsChar(ds[0])
  {
    assert ds == [ds[0]] + ds[1..];
    FlattenConcat([ds[0]], ds[1..]);
    FlattenAppend([], ds[0]);
    assert [] + [ds[0]] == [ds[0]];
  }

  // A text has one division into characters: one that starts like cs goes on with the rest.
  lemma {:induction false} StripChars(cs: seq<seq<Byte>>, u: seq<Byte>, ds: seq<seq<Byte>>)
    requires AllChars(cs) && AllChars(ds) && Flatten(ds) == Flatten(cs) + u
    ensures |cs| <= |ds| && ds[..|cs|] == cs && Flatten(ds[|cs|..]) == u
  {
    if cs != [] {
      FirstChar(cs);
      var rest := Flatten(cs[1..]) + u;
      assert Flatten(ds) == cs[0] + rest;
      assert |Flatten(ds)| > 0;
      FirstChar(ds);
      SameChar(cs[0], ds[0], Flatten(ds));
      assert Flatten(ds[1..]) == Flatten(ds)[|ds[0]|..] == rest;
      StripChars(cs[1..], u, ds[1..]);
      assert ds[..|cs|] == [ds[0]] + ds[1..][..|cs| - 1] && ds[|cs|..] == ds[1..][|cs| - 1..];
    } else {
      assert ds[0..] == ds;
    }
  }

  // ---------------------------------------------------------------- the automaton on whole inputs

  // State and code point after the bytes s; nothing is consumed after a rejection.
  ghost function Run(s: seq<Byte>): (r: (nat, nat))
    ensures r.0 < 9 && r.1 < TWO_TO_32
  {
    if s == [] then (ACCEPT, 0) else
      var (state, codepoint) := Run(s[..|s| - 1]);
      if state == REJECT then (REJECT, codepoint) else Decode(state, codepoint, s[|s| - 1])
  }

  // s is the characters cs and then the beginning part of one more, and the automaton knows.
  ghost predicate Shape(s: seq<Byte>, cs: seq<seq<Byte>>, part: seq<Byte>, state: nat, codepoint: nat) {
    && AllChars(cs) && s == Flatten(cs) + part
    && if part == [] then state == ACCEPT && (cs != [] ==> codepoint == CodePoint(cs[|cs| - 1]))
       else Begins(part) && state == StateOf(part) && codepoint == BitsOf(part)
  }

  lemma StepShape(s: seq<Byte>, cs: seq<seq<Byte>>, part: seq<Byte>, state: nat, codepoint: nat, b: Byte)
    requires Shape(s, cs, part, state, codepoint) && state < 9 && codepoint < TWO_TO_32
    ensures var (next, n) := Decode(state, codepoint, b);
      if IsChar(part + [b]) then Shape(s + [b], cs + [part + [b]], [], next, n)
      else if Begins(part + [b]) then Shape(s + [b], cs, part + [b], next, n)
      else next == REJECT
  {
    hide Decode, Flatten, IsChar, Begins, CodePoint, BitsOf;
    if part == [] {
      assert part + [b] == [b];
      FirstByte(b, codepoint);
    } else {
      NextByte(part, b, codepoint);
    }
    FlattenAppend(cs, part + [b]);
    assert Flatten(cs) + (part + [b]) == s + [b];
  }

  lemma RunStep(s: seq<Byte>, b: Byte)
    ensures Run(s + [b]) == if Run(s).0 == REJECT then (REJECT, Run(s).1) else Decode(Run(s).0, Run(s).1, b)
  {
    assert (s + [b])[..|s|] == s;
  }

  lemma {:induction false} RunHasShape(s: seq<Byte>)
    requires Run(s).0 != REJECT
    ensures exists cs, part :: Shape(s, cs, part, Run(s).0, Run(s).1)
  {
    hide Decode, Shape, IsChar, Begins;
    if s == [] {
      StartShape();
    } else {
      var (init, b) := (s[..|s| - 1], s[|s| - 1]);
      assert s == init + [b];
      RunStep(init, b);
      RunHasShape(init);
      var cs, part :| Shape(init, cs, part, Run(init).0, Run(init).1);
      StepShape(init, cs, part, Run(init).0, Run(init).1, b);
    }
  }

  lemma StartShape()
    ensures Shape([], [], [], ACCEPT, 0)
  {
  }

  // When a beginning goes wrong no continuation helps.
  lemma Hopeless(cs: seq<seq<Byte>>, part: seq<Byte>, b: Byte, t: seq<Byte>)
    requires AllChars(cs) && (part == [] || Begins(part)) && !IsChar(part + [b]) && !Begins(part + [b])
    ensures !IsUtf8(Flatten(cs) + part + [b] + t)
  {
    if IsUtf8(Flatten(cs) + part + [b] + t) {
      var u := part + [b] + t;
      var ds :| AllChars(ds) && Flatten(ds) == Flatten(cs) + part + [b] + t;
      assert Flatten(ds) == Flatten(cs) + u;
      StripChars(cs, u, ds);
      var rest := ds[|cs|..];
      FirstChar(rest);
      CharCovers(part, b, t, rest[0]);
    }
  }

  lemma CharNotEmpty(c: seq<Byte>)
    requires IsChar(c)
    ensures 0 < |c| <= 4
  {
  }

  lemma CharCovers(part: seq<Byte>, b: Byte, t: seq<Byte>, d: seq<Byte>)
    requires (part == [] || Begins(part)) && IsChar(d) && d <= part + [b] + t
    ensures IsChar(part + [b]) || Begins(part + [b])
  {
    hide IsChar, Begins;
    CharNotEmpty(d);
    var n := |part| + 1;
    if part != [] && |d| <= |part| {
      assert d == part[..|d|];
      NoCharInBeginning(part, |d|);
    } else {
      assert d[..n] == part + [b];
      if n < |d| { PrefixOfChar(d, n); } else { assert d[..n] == d; }
    }
  }

  lemma {:induction false} RejectedIsHopeless(s: seq<Byte>, t: seq<Byte>)
    requires Run(s).0 == REJECT
    ensures !IsUtf8(s + t)
  {
    hide Decode, IsChar, Begins, IsUtf8;
    assert s != [];
    var (init, b) := (s[..|s| - 1], s[|s| - 1]);
    assert s == init + [b] && s + t == init + ([b] + t);
    RunStep(init, b);
    if Run(init).0 == REJECT {
      RejectedIsHopeless(init, [b] + t);
    } else {
      RunHasShape(init);
      var cs, part :| Shape(init, cs, part, Run(init).0, Run(init).1);
      FirstRejection(init, cs, part, Run(init).0, Run(init).1, b, t);
    }
  }

  lemma FirstRejection(s: seq<Byte>, cs: seq<seq<Byte>>, part: seq<Byte>, state: nat, codepoint: nat, b: Byte,
                       t: seq<Byte>)
    requires Shape(s, cs, part, state, codepoint) && state < 9 && codepoint < TWO_TO_32
      && Decode(state, codepoint, b).0 == REJECT
    ensures !IsUtf8(s + ([b] + t))
  {
    hide Decode, IsChar, Begins, IsUtf8;
    StepShape(s, cs, part, state, codepoint, b);
    NotRejecting(part + [b]);
    Hopeless(cs, part, b, t);
    assert s + ([b] + t) == Flatten(cs) + part + [b] + t;
  }

  lemma NotRejecting(p: seq<Byte>)
    ensures Begins(p) ==> StateOf(p) != REJECT
  {
  }

  // The automaton accepts exactly the concatenations of well-formed characters.
  lemma AcceptsExactlyUtf8(s: seq<Byte>)
    ensures Run(s).0 == ACCEPT <==> IsUtf8(s)
  {
    if Run(s).0 == REJECT {
      RejectedIsHopeless(s, []);
      assert s + [] == s;
    } else {
      RunHasShape(s);
      var cs, part :| Shape(s, cs, part, Run(s).0, Run(s).1);
      if part == [] {
        assert Flatten(cs) + [] == Flatten(cs);
      } else if IsUtf8(s) {
        var ds :| AllChars(ds) && Flatten(ds) == s;
        StripChars(cs, part, ds);
        FirstChar(ds[|cs|..]);
        assert part[..|ds[|cs|]|] == ds[|cs|];
        NoCharInBeginning(part, |ds[|cs|]|);
      }
    }
  }

  lemma Completion(p: seq<Byte>) returns (t: seq<Byte>)
    requires Begins(p)
    ensures IsChar(p + t)
  {
    var second := if p[0] == 0xE0 then 0xA0 else if p[0] == 0xF0 then 0x90 else 0x80;
    match |p|
    case 1 => t := if p[0] < 0xE0 then [0x80] else if p[0] < 0xF0 then [second, 0x80] else [second, 0x80, 0x80];
    case 2 => t := if p[0] < 0xF0 then [0x80] else [0x80, 0x80];
    case _ => t := [0x80];
  }

  // What is not rejected can still become valid.
  lemma NotRejectedHasHope(s: seq<Byte>) returns (t: seq<Byte>)
    requires Run(s).0 != REJECT
    ensures IsUtf8(s + t)
  {
    hide Run, IsChar, Begins;
    RunHasShape(s);
    var cs, part :| Shape(s, cs, part, Run(s).0, Run(s).1);
    if part == [] {
      t := [];
      assert Flatten(cs) == s + t;
    } else {
      t := Completion(part);
      FlattenAppend(cs, part + t);
      assert AllChars(cs + [part + t]) && Flatten(cs + [part + t]) == s + t;
    }
  }

  // A rejection comes exactly when no continuation could be valid: never late, never early.
  lemma RejectsExactlyTheHopeless(s: seq<Byte>)
    ensures Run(s).0 == REJECT <==> forall t :: !IsUtf8(s + t)
  {
    hide Run, IsUtf8;
    if Run(s).0 == REJECT {
      forall t ensures !IsUtf8(s + t) { RejectedIsHopeless(s, t); }
    } else {
      var t := NotRejectedHasHope(s);
    }
  }

  // At the end of a character the validator holds its code point.
  lemma HoldsCodePoint(text: seq<Byte>, c: seq<Byte>)
    requires IsUtf8(text) && IsChar(c)
    ensures Run(text + c) == (ACCEPT, CodePoint(c))
  {
    var s := text + c;
    var cs :| AllChars(cs) && Flatten(cs) == text;
    FlattenAppend(cs, c);
    assert AllChars(cs + [c]) && Flatten(cs + [c]) == s;
    AcceptsExactlyUtf8(s);
    RunHasShape(s);
    var ds, part :| Shape(s, ds, part, Run(s).0, Run(s).1);
    assert part == [];
    assert Flatten(ds) + [] == Flatten(ds) && Flatten(cs + [c]) + [] == Flatten(cs + [c]);
    StripChars(cs + [c], [], ds);
    StripChars(ds, [], cs + [c]);
    assert ds == cs + [c];
  }

  // ---------------------------------------------------------------- the validator

  class Validator {
    var state: nat
    var codepoint: nat

    ghost var fed: seq<Byte>  // every byte handed in so far

    ghost predicate Valid()
      reads this
    {
      state == Run(fed).0 && codepoint < TWO_TO_32 && (state != REJECT ==> codepoint == Run(fed).1)
    }

    constructor ()
      ensures Valid() && fed == []
    {
      state, codepoint, fed := ACCEPT, 0, [];
    }

    method Consume(b: Byte) returns (ok: bool)
      requires Valid()
      modifies this
      ensures Valid() && fed == old(fed) + [b] && ok == (Run(fed).0 != REJECT)
    {
      RejectAbsorbs(codepoint, b);
      fed := fed + [b];
      assert fed[..|fed| - 1] == old(fed);
      var next := Decode(state, codepoint, b);
      state, codepoint := next.0, next.1;
      ok := state != REJECT;
    }

    // decode over a range: it stops at the first byte that is rejected. An empty range says
    // nothing about what came before.
    method DecodeRange(bytes: seq<Byte>) returns (ok: bool)
      requires Valid()
      modifies this
      ensures Valid() && fed == old(fed) + bytes
      ensures ok == (bytes == [] || Run(fed).0 != REJECT)
    {
      hide Run;
      for i := 0 to |bytes|
        invariant Valid() && fed == old(fed) + bytes[..i] && (i > 0 ==> state != REJECT)
      {
        assert old(fed) + bytes[..i + 1] == fed + [bytes[i]];
        ok := Consume(bytes[i]);
        if !ok {
          RejectionStays(fed, bytes[i + 1..]);
          fed := fed + bytes[i + 1..];
          assert fed == old(fed) + bytes;
          return false;
        }
      }
      assert bytes[..|bytes|] == bytes;
      return true;
    }

    method Complete() returns (done: bool)
      requires Valid()
      ensures done == IsUtf8(fed)
    {
      AcceptsExactlyUtf8(fed);
      return state == ACCEPT;
    }

    method Reset()
      modifies this
      ensures Valid() && fed == []
    {
      state, codepoint, fed := ACCEPT, 0, [];
    }
  }

  lemma RejectAbsorbs(codepoint: nat, b: Byte)
    requires codepoint < TWO_TO_32
    ensures Decode(REJECT, codepoint, b).0 == REJECT
  {
    ClassOfByte(b);
    TransitionOfTable(REJECT, Class(b));
  }

  lemma {:induction false} RejectionStays(s: seq<Byte>, t: seq<Byte>)
    requires Run(s).0 == REJECT
    ensures Run(s + t).0 == REJECT
  {
    if t == [] {
      assert s + t == s;
    } else {
      assert (s + t)[..|s + t| - 1] == s + t[..|t| - 1];
      RejectionStays(s, t[..|t| - 1]);
    }
  }

  method Validate(s: seq<Byte>) returns (ok: bool)
    ensures ok == IsUtf8(s)
  {
    var v := new Validator();
    ok := v.DecodeRange(s);
    assert [] + s == s;
    if !ok {
      RejectedIsHopeless(s, []);
      assert s + [] == s;
      return false;
    }
    ok := v.Complete();
  }

  // However the bytes are cut into ranges, the answer is that for the whole.
  method ValidateInChunks(chunks: seq<seq<Byte>>) returns (ok: bool)
    ensures ok == IsUtf8(Flatten(chunks))
  {
    hide Run, IsUtf8;
    var v := new Validator();
    for i := 0 to |chunks|
      invariant fresh(v) && v.Valid() && v.fed == Flatten(chunks[..i])
    {
      assert chunks[..i + 1] == chunks[..i] + [chunks[i]];
      FlattenAppend(chunks[..i], chunks[i]);
      ok := v.DecodeRange(chunks[i]);
      if !ok {
        assert chunks == chunks[..i + 1] + chunks[i + 1..];
        FlattenConcat(chunks[..i + 1], chunks[i + 1..]);
        RejectedIsHopeless(v.fed, Flatten(chunks[i + 1..]));
        return false;
      }
    }
    assert chunks[..|chunks|] == chunks;
    ok := v.Complete();
  }
}
