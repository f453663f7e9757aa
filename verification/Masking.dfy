/**
  The payload masking of websocketpp/frame.hpp: byte by byte, word by word, and in chunks with a
  rotating key. Words have 64 bits; memory may be little-endian or big-endian. A pointer into a
  buffer is an array and an offset.
*/
module Masking {
  type Byte = bv8
  type Word = bv64

  // ---------------------------------------------------------------- words in memory

  // the k-th least significant octet
  function Octet(w: Word, k: nat): Byte
    requires k < 8
  {
    match k
    case 0 => (w & 0xFF) as Byte
    case 1 => ((w >> 8) & 0xFF) as Byte
    case 2 => ((w >> 16) & 0xFF) as Byte
    case 3 => ((w >> 24) & 0xFF) as Byte
    case 4 => ((w >> 32) & 0xFF) as Byte
    case 5 => ((w >> 40) & 0xFF) as Byte
    case 6 => ((w >> 48) & 0xFF) as Byte
    case _ => ((w >> 56) & 0xFF) as Byte
  }

  // the byte at address j of a word
  function ByteAt(little: bool, w: Word, j: nat): Byte
    requires j < 8
  {
    Octet(w, if little then j else 7 - j)
  }

  function Join(b0: Byte, b1: Byte, b2: Byte, b3: Byte, b4: Byte, b5: Byte, b6: Byte, b7: Byte): Word {
    (b0 as Word) | ((b1 as Word) << 8) | ((b2 as Word) << 16) | ((b3 as Word) << 24)
    | ((b4 as Word) << 32) | ((b5 as Word) << 40) | ((b6 as Word) << 48) | ((b7 as Word) << 56)
  }

  // the word that eight bytes in memory make
  function WordOf(little: bool, b: seq<Byte>): Word
    requires |b| == 8
  {
    if little then Join(b[0], b[1], b[2], b[3], b[4], b[5], b[6], b[7])
    else Join(b[7], b[6], b[5], b[4], b[3], b[2], b[1], b[0])
  }

  // shifts by whole bytes
  function Right(w: Word, bytes: nat): Word
    requires bytes < 8
  {
    match bytes
    case 0 => w
    case 1 => w >> 8
    case 2 => w >> 16
    case 3 => w >> 24
    case 4 => w >> 32
    case 5 => w >> 40
    case 6 => w >> 48
    case _ => w >> 56
  }

  function Left(w: Word, bytes: nat): Word
    requires bytes < 8
  {
    match bytes
    case 0 => w
    case 1 => w << 8
    case 2 => w << 16
    case 3 => w << 24
    case 4 => w << 32
    case 5 => w << 40
    case 6 => w << 48
    case _ => w << 56
  }

  function CircshiftPreparedKey(little: bool, key: Word, offset: nat): Word
    requires offset < 8
  {
    if offset == 0 then key
    else if little then Right(key, offset) | Left(key, 8 - offset)
    else Left(key, offset) | Right(key, 8 - offset)
  }

  // ---------------------------------------------------------------- octets of the operations

  lemma XorOctet(v: Word, w: Word, k: nat)
    requires k < 8
    ensures Octet(v ^ w, k) == Octet(v, k) ^ Octet(w, k)
  {
    match k
    case 0 =>
    case 1 =>
    case 2 =>
    case 3 =>
    case 4 =>
    case 5 =>
    case 6 =>
    case _ =>
  }

  function RotateRight(w: Word, bytes: nat): Word
    requires 0 < bytes < 8
  {
    Right(w, bytes) | Left(w, 8 - bytes)
  }

  lemma RotateByOne(w: Word, k: nat)
    requires k < 8
    ensures Octet(RotateRight(w, 1), k) == Octet(w, (k + 1) % 8)
  {
    match k
    case 0 =>
    case 1 =>
    case 2 =>
    case 3 =>
    case 4 =>
    case 5 =>
    case 6 =>
    case _ =>
  }

  lemma RotateOneMore(w: Word, bytes: nat)
    requires 1 < bytes < 8
    ensures RotateRight(w, bytes) == RotateRight(RotateRight(w, bytes - 1), 1)
  {
    match bytes
    case 2 =>
    case 3 =>
    case 4 =>
    case 5 =>
    case 6 =>
    case _ =>
  }

  lemma {:induction false} RotateOctet(w: Word, bytes: nat, k: nat)
    requires 0 < bytes < 8 && k < 8
    ensures Octet(RotateRight(w, bytes), k) == Octet(w, (k + bytes) % 8)
  {
    hide Octet, RotateRight;
    if bytes == 1 {
      RotateByOne(w, k);
    } else {
      RotateOneMore(w, bytes);
      RotateByOne(RotateRight(w, bytes - 1), k);
      RotateOctet(w, bytes - 1, (k + 1) % 8);
    }
  }

  // Shifting the key by some bytes moves the bytes in memory that far to the front, whatever the
  // byte order.
  lemma CircshiftMovesBytes(little: bool, key: Word, offset: nat, j: nat)
    requires offset < 8 && j < 8
    ensures ByteAt(little, CircshiftPreparedKey(little, key, offset), j) == ByteAt(little, key, (j + offset) % 8)
  {
    hide Octet, CircshiftPreparedKey, RotateRight;
    CircshiftRotates(little, key, offset);
    if offset > 0 {
      if little {
        RotateOctet(key, offset, j);
      } else {
        RotateOctet(key, 8 - offset, 7 - j);
      }
    }
  }

  lemma CircshiftRotates(little: bool, key: Word, offset: nat)
    requires offset < 8
    ensures CircshiftPreparedKey(little, key, offset) ==
      if offset == 0 then key else RotateRight(key, if little then offset else 8 - offset)
  {
    hide Left, Right;
    if offset > 0 && !little { Commutes(Left(key, offset), Right(key, 8 - offset)); }
  }

  lemma Commutes(v: Word, w: Word)
    ensures v | w == w | v
  {
  }

  lemma XorBytes(little: bool, v: Word, w: Word, j: nat)
    requires j < 8
    ensures ByteAt(little, v ^ w, j) == ByteAt(little, v, j) ^ ByteAt(little, w, j)
  {
    hide Octet;
    XorOctet(v, w, if little then j else 7 - j);
  }

  lemma JoinLow(b0: Byte, b1: Byte, b2: Byte, b3: Byte, b4: Byte, b5: Byte, b6: Byte, b7: Byte)
    ensures var w := Join(b0, b1, b2, b3, b4, b5, b6, b7);
      Octet(w, 0) == b0 && Octet(w, 1) == b1 && Octet(w, 2) == b2 && Octet(w, 3) == b3
  {
  }

  lemma JoinHigh(b0: Byte, b1: Byte, b2: Byte, b3: Byte, b4: Byte, b5: Byte, b6: Byte, b7: Byte)
    ensures var w := Join(b0, b1, b2, b3, b4, b5, b6, b7);
      Octet(w, 4) == b4 && Octet(w, 5) == b5 && Octet(w, 6) == b6 && Octet(w, 7) == b7
  {
  }

  lemma WordOfBytes(little: bool, b: seq<Byte>, j: nat)
    requires |b| == 8 && j < 8
    ensures ByteAt(little, WordOf(little, b), j) == b[j]
  {
    hide Octet, Join;
    var c := if little then b else [b[7], b[6], b[5], b[4], b[3], b[2], b[1], b[0]];
    JoinLow(c[0], c[1], c[2], c[3], c[4], c[5], c[6], c[7]);
    JoinHigh(c[0], c[1], c[2], c[3], c[4], c[5], c[6], c[7]);
    var k := if little then j else 7 - j;
    match k
    case 0 =>
    case 1 =>
    case 2 =>
    case 3 =>
    case 4 =>
    case 5 =>
    case 6 =>
    case _ =>
  }

  // ---------------------------------------------------------------- keys

  // a masking key: four bytes in memory, also read as a 32-bit number
  type Key = k: seq<Byte> | |k| == 4 witness [0, 0, 0, 0]

  function Number(little: bool, key: Key): Word {
    if little then Join(key[0], key[1], key[2], key[3], 0, 0, 0, 0)
    else Join(key[3], key[2], key[1], key[0], 0, 0, 0, 0)
  }

  function PrepareMaskingKey(little: bool, key: Key): Word {
    (Number(little, key) << 32) | Number(little, key)
  }

  // The word key holds the masking key, starting at key byte off.
  ghost predicate KeyIs(little: bool, w: Word, key: Key, off: nat) {
    forall j {:trigger ByteAt(little, w, j)} :: 0 <= j < 8 ==> ByteAt(little, w, j) == key[(off + j) % 4]
  }

  lemma Doubled(b0: Byte, b1: Byte, b2: Byte, b3: Byte)
    ensures var i := Join(b0, b1, b2, b3, 0, 0, 0, 0); (i << 32) | i == Join(b0, b1, b2, b3, b0, b1, b2, b3)
  {
  }

  lemma PreparedWord(little: bool, key: Key)
    ensures PrepareMaskingKey(little, key) ==
      WordOf(little, [key[0], key[1], key[2], key[3], key[0], key[1], key[2], key[3]])
  {
    hide Join;
    if little {
      Doubled(key[0], key[1], key[2], key[3]);
    } else {
      Doubled(key[3], key[2], key[1], key[0]);
    }
  }

  lemma PreparedKey(little: bool, key: Key)
    ensures KeyIs(little, PrepareMaskingKey(little, key), key, 0)
  {
    hide PrepareMaskingKey, WordOf, ByteAt;
    var b := [key[0], key[1], key[2], key[3], key[0], key[1], key[2], key[3]];
    PreparedWord(little, key);
    forall j | 0 <= j < 8
      ensures ByteAt(little, WordOf(little, b), j) == b[j] && b[j] == key[(0 + j) % 4]
    {
      WordOfBytes(little, b, j);
    }
  }

  lemma SameResidue(off: nat, length: nat, l: nat, j: nat)
    requires l < 8 && l % 4 == length % 4 && j < 8
    ensures (off + (j + l) % 8) % 4 == (off + length + j) % 4
  {
    assert (j + l) % 8 == j + l || (j + l) % 8 == j + l - 8;
    var d := (length - l) / 4;
    assert length == l + 4 * d;
  }

  // The shifted key goes on where length bytes have been masked.
  lemma ShiftedKey(little: bool, w: Word, key: Key, off: nat, length: nat, l: nat)
    requires KeyIs(little, w, key, off) && l < 8 && l % 4 == length % 4
    ensures KeyIs(little, CircshiftPreparedKey(little, w, l), key, off + length)
  {
    hide ByteAt, CircshiftPreparedKey;
    forall j | 0 <= j < 8
      ensures ByteAt(little, CircshiftPreparedKey(little, w, l), j) == key[(off + length + j) % 4]
    {
      CircshiftMovesBytes(little, w, l, j);
      SameResidue(off, length, l, j);
    }
  }

  // ---------------------------------------------------------------- what masking means

  // Section 5.3 of RFC 6455: octet i of the message is combined with octet i modulo 4 of the key.
  ghost function Masked(s: seq<Byte>, key: Key, off: nat): (r: seq<Byte>)
    ensures |r| == |s| && forall i :: 0 <= i < |s| ==> r[i] == s[i] ^ key[(off + i) % 4]
  {
    seq(|s|, i requires 0 <= i < |s| => s[i] ^ key[(off + i) % 4])
  }

  lemma XorTwice(a: Byte, b: Byte)
    ensures (a ^ b) ^ b == a
  {
  }

  lemma MaskedTwice(s: seq<Byte>, key: Key, off: nat)
    ensures Masked(Masked(s, key, off), key, off) == s
  {
    forall i | 0 <= i < |s|
      ensures Masked(Masked(s, key, off), key, off)[i] == s[i]
    {
      XorTwice(s[i], key[(off + i) % 4]);
    }
  }

  lemma MaskedConcat(a: seq<Byte>, b: seq<Byte>, key: Key, off: nat)
    ensures Masked(a + b, key, off) == Masked(a, key, off) + Masked(b, key, off + |a|)
  {
  }

  // ---------------------------------------------------------------- masking in buffers

  // Bytes [to, to + done) of the output are the masked input, nothing else has changed.
  ghost predicate Progress(before: seq<Byte>, now: seq<Byte>, to: nat, masked: seq<Byte>) {
    && |now| == |before| && to + |masked| <= |before|
    && now == before[..to] + masked + before[to + |masked|..]
  }

  // The first i bytes are masked, the rest of both buffers is as before.
  ghost predicate MaskedSoFar(input: array<Byte>, from: nat, output: array<Byte>, to: nat, s: seq<Byte>,
                              before: seq<Byte>, m: seq<Byte>, i: nat)
    requires from + |s| <= input.Length && to + |m| <= output.Length && |m| == |s| && |before| == output.Length
    reads input, output
  {
    && i <= |s|
    && (forall q {:trigger output[q]} :: to <= q < to + i ==> output[q] == m[q - to])
    && (forall q {:trigger output[q]} :: 0 <= q < output.Length && !(to <= q < to + i) ==> output[q] == before[q])
    && (forall p {:trigger s[p]} :: i <= p < |s| ==> input[from + p] == s[p])
  }

  // One more masked byte; the bytes still to be read are the old ones, also in place.
  method StoreByte(input: array<Byte>, from: nat, output: array<Byte>, to: nat, ghost s: seq<Byte>,
                   ghost before: seq<Byte>, ghost m: seq<Byte>, i: nat, b: Byte)
    requires from + |s| <= input.Length && to + |m| <= output.Length && |m| == |s| && |before| == output.Length
    requires input != output || from == to
    requires MaskedSoFar(input, from, output, to, s, before, m, i) && i < |s| && b == m[i]
    modifies output
    ensures MaskedSoFar(input, from, output, to, s, before, m, i + 1)
  {
    output[to + i] := b;
  }

  // byte_mask
  method ByteMask(input: array<Byte>, from: nat, output: array<Byte>, to: nat, length: nat, key: Key, keyOffset: nat)
    requires from + length <= input.Length && to + length <= output.Length
    requires input != output || from == to
    modifies output
    ensures Progress(old(output[..]), output[..], to, Masked(old(input[from..from + length]), key, keyOffset))
  {
    ghost var (s, before) := (input[from..from + length], output[..]);
    ghost var m := Masked(s, key, keyOffset);
    var keyIndex := keyOffset % 4;
    for i := 0 to length
      invariant keyIndex == (keyOffset + i) % 4
      invariant MaskedSoFar(input, from, output, to, s, before, m, i)
    {
      assert input[from + i] == s[i];
      StoreByte(input, from, output, to, s, before, m, i, input[from + i] ^ key[keyIndex]);
      keyIndex := (keyIndex + 1) % 4;
    }
    Pointwise(before, output[..], to, m);
  }

  // one step of a word loop: eight bytes are read as a word, masked and stored as a word
  method StoreWord(little: bool, input: array<Byte>, from: nat, output: array<Byte>, to: nat, i: nat, w: Word,
                   ghost s: seq<Byte>, ghost before: seq<Byte>, ghost m: seq<Byte>)
    requires from + |s| <= input.Length && to + |m| <= output.Length && |m| == |s| && |before| == output.Length
    requires input != output || from == to
    requires MaskedSoFar(input, from, output, to, s, before, m, i) && i + 8 <= |s|
    requires forall j {:trigger ByteAt(little, w, j)} :: 0 <= j < 8 ==> m[i + j] == s[i + j] ^ ByteAt(little, w, j)
    modifies output
    ensures MaskedSoFar(input, from, output, to, s, before, m, i + 8)
  {
    hide ByteAt, WordOf;
    var b := input[from + i..from + i + 8];
    SameSlice(input, from, output, to, s, before, m, i);
    var v := WordOf(little, b) ^ w;
    for j := 0 to 8
      invariant MaskedSoFar(input, from, output, to, s, before, m, i + j)
    {
      WordOfBytes(little, b, j);
      XorWithByte(little, WordOf(little, b), w, j, b[j]);
      assert b[j] == s[i + j];
      StoreByte(input, from, output, to, s, before, m, i + j, ByteAt(little, v, j));
    }
  }

  lemma SameSlice(input: array<Byte>, from: nat, output: array<Byte>, to: nat, s: seq<Byte>, before: seq<Byte>,
                  m: seq<Byte>, i: nat)
    requires from + |s| <= input.Length && to + |m| <= output.Length && |m| == |s| && |before| == output.Length
    requires MaskedSoFar(input, from, output, to, s, before, m, i) && i + 8 <= |s|
    ensures input[from + i..from + i + 8] == s[i..i + 8]
  {
    var (a, c) := (input[from + i..from + i + 8], s[i..i + 8]);
    forall j | 0 <= j < 8
      ensures a[j] == c[j]
    {
      assert input[from + (i + j)] == s[i + j];
    }
  }

  lemma XorWithByte(little: bool, v: Word, w: Word, j: nat, x: Byte)
    requires j < 8 && ByteAt(little, v, j) == x
    ensures ByteAt(little, v ^ w, j) == x ^ ByteAt(little, w, j)
  {
    hide ByteAt;
    XorBytes(little, v, w, j);
  }

  lemma Pointwise(before: seq<Byte>, now: seq<Byte>, to: nat, masked: seq<Byte>)
    requires |now| == |before| && to + |masked| <= |before|
    requires forall q {:trigger now[q]} :: to <= q < to + |masked| ==> now[q] == masked[q - to]
    requires forall p :: 0 <= p < |now| && !(to <= p < to + |masked|) ==> now[p] == before[p]
    ensures Progress(before, now, to, masked)
  {
    var r := before[..to] + masked + before[to + |masked|..];
    forall p | 0 <= p < |now|
      ensures now[p] == r[p]
    {
      if to <= p < to + |masked| { assert now[to + (p - to)] == masked[p - to]; }
    }
  }

  // the bytes of a word key that starts at key byte off mask message bytes off, off + 1, ...
  lemma KeyMasksWord(little: bool, w: Word, key: Key, off: nat, s: seq<Byte>, i: nat)
    requires KeyIs(little, w, key, off) && i + 8 <= |s| && i % 4 == 0
    ensures forall j {:trigger ByteAt(little, w, j)} :: 0 <= j < 8 ==>
      Masked(s, key, off)[i + j] == s[i + j] ^ ByteAt(little, w, j)
  {
    hide ByteAt;
    forall j | 0 <= j < 8
      ensures Masked(s, key, off)[i + j] == s[i + j] ^ ByteAt(little, w, j)
    {
      KeyMasksByte(little, w, key, off, s, i, j);
    }
  }

  lemma KeyMasksByte(little: bool, w: Word, key: Key, off: nat, s: seq<Byte>, i: nat, j: nat)
    requires KeyIs(little, w, key, off) && i + j < |s| && i % 4 == 0 && j < 8
    ensures Masked(s, key, off)[i + j] == s[i + j] ^ ByteAt(little, w, j)
  {
    hide ByteAt;
    assert ByteAt(little, w, j) == key[(off + j) % 4];
    assert (off + (i + j)) % 4 == (off + j) % 4;
  }

  // the loop over whole words, the same in both word versions
  method MaskWords(little: bool, input: array<Byte>, from: nat, output: array<Byte>, to: nat, n: nat, w: Word,
                   ghost key: Key, ghost off: nat, ghost s: seq<Byte>, ghost before: seq<Byte>)
    requires from + |s| <= input.Length && to + |s| <= output.Length && |before| == output.Length
    requires input != output || from == to
    requires KeyIs(little, w, key, off) && 8 * n <= |s|
    requires MaskedSoFar(input, from, output, to, s, before, Masked(s, key, off), 0)
    modifies output
    ensures MaskedSoFar(input, from, output, to, s, before, Masked(s, key, off), 8 * n)
  {
    hide ByteAt, KeyIs, Masked;
    for i := 0 to n
      invariant MaskedSoFar(input, from, output, to, s, before, Masked(s, key, off), 8 * i)
    {
      KeyMasksWord(little, w, key, off, s, 8 * i);
      StoreWord(little, input, from, output, to, 8 * i, w, s, before, Masked(s, key, off));
    }
  }

  // word_mask_exact
  method WordMaskExact(little: bool, input: array<Byte>, from: nat, output: array<Byte>, to: nat, length: nat, key: Key)
    requires from + length <= input.Length && to + length <= output.Length
    requires input != output || from == to
    modifies output
    ensures Progress(old(output[..]), output[..], to, Masked(old(input[from..from + length]), key, 0))
  {
    hide ByteAt, KeyIs;
    ghost var (s, before) := (input[from..from + length], output[..]);
    ghost var m := Masked(s, key, 0);
    var preparedKey := PrepareMaskingKey(little, key);
    PreparedKey(little, key);
    var n := length / 8;
    MaskWords(little, input, from, output, to, n, preparedKey, key, 0, s, before);
    for i := n * 8 to length
      invariant MaskedSoFar(input, from, output, to, s, before, m, i)
    {
      assert input[from + i] == s[i];
      StoreByte(input, from, output, to, s, before, m, i, input[from + i] ^ key[i % 4]);
    }
    Pointwise(before, output[..], to, m);
  }

  // lines 781-786: the bytes behind the last whole word, with the key's own bytes
  method MaskRest(little: bool, input: array<Byte>, from: nat, output: array<Byte>, to: nat, start: nat, l: nat,
                  w: Word, ghost key: Key, ghost off: nat, ghost s: seq<Byte>, ghost before: seq<Byte>)
    requires from + |s| <= input.Length && to + |s| <= output.Length && |before| == output.Length
    requires input != output || from == to
    requires KeyIs(little, w, key, off) && l < 8 && start + l == |s| && start % 4 == 0
    requires MaskedSoFar(input, from, output, to, s, before, Masked(s, key, off), start)
    modifies output
    ensures MaskedSoFar(input, from, output, to, s, before, Masked(s, key, off), |s|)
  {
    hide ByteAt, KeyIs, Masked;
    for i := 0 to l
      invariant MaskedSoFar(input, from, output, to, s, before, Masked(s, key, off), start + i)
    {
      KeyMasksByte(little, w, key, off, s, start, i);
      assert input[from + (start + i)] == s[start + i];
      StoreByte(input, from, output, to, s, before, Masked(s, key, off), start + i,
                input[from + (start + i)] ^ ByteAt(little, w, i));
    }
  }

  lemma NoneMasked(input: array<Byte>, from: nat, output: array<Byte>, to: nat, s: seq<Byte>, before: seq<Byte>,
                   m: seq<Byte>)
    requires from + |s| <= input.Length && to + |m| <= output.Length && |m| == |s|
    requires s == input[from..from + |s|] && before == output[..]
    ensures MaskedSoFar(input, from, output, to, s, before, m, 0)
  {
  }

  lemma AllMasked(input: array<Byte>, from: nat, output: array<Byte>, to: nat, s: seq<Byte>, before: seq<Byte>,
                  m: seq<Byte>)
    requires from + |s| <= input.Length && to + |m| <= output.Length && |m| == |s| && |before| == output.Length
    requires MaskedSoFar(input, from, output, to, s, before, m, |s|)
    ensures Progress(before, output[..], to, m)
  {
    Pointwise(before, output[..], to, m);
  }

  // word_mask_circ: the key that comes back masks what follows.
  method WordMaskCirc(little: bool, input: array<Byte>, from: nat, output: array<Byte>, to: nat, length: nat,
                      preparedKey: Word, ghost key: Key, ghost off: nat) returns (next: Word)
    requires from + length <= input.Length && to + length <= output.Length
    requires input != output || from == to
    requires KeyIs(little, preparedKey, key, off)
    modifies output
    ensures Progress(old(output[..]), output[..], to, Masked(old(input[from..from + length]), key, off))
    ensures KeyIs(little, next, key, off + length)
  {
    hide ByteAt, KeyIs, CircshiftPreparedKey, Masked, MaskedSoFar, Progress;
    ghost var (s, before) := (input[from..from + length], output[..]);
    NoneMasked(input, from, output, to, s, before, Masked(s, key, off));
    var n := length / 8;
    var l := length - n * 8;
    MaskWords(little, input, from, output, to, n, preparedKey, key, off, s, before);
    MaskRest(little, input, from, output, to, length - l, l, preparedKey, key, off, s, before);
    AllMasked(input, from, output, to, s, before, Masked(s, key, off));
    ShiftedKey(little, preparedKey, key, off, length, l);
    next := CircshiftPreparedKey(little, preparedKey, l);
  }

  // the first four key bytes: the low half of the word, as four bytes in memory
  function LowBytes(little: bool, w: Word): Key {
    if little then [Octet(w, 0), Octet(w, 1), Octet(w, 2), Octet(w, 3)]
    else [Octet(w, 3), Octet(w, 2), Octet(w, 1), Octet(w, 0)]
  }

  lemma LowBytesAreKey(little: bool, w: Word, key: Key, off: nat, i: nat)
    requires KeyIs(little, w, key, off)
    ensures LowBytes(little, w)[i % 4] == key[(off + i) % 4]
  {
    hide Octet;
    var j := i % 4;
    assert ByteAt(little, w, j) == key[(off + j) % 4] && ByteAt(little, w, j + 4) == key[(off + j + 4) % 4];
    assert (off + i) % 4 == (off + j) % 4 == (off + j + 4) % 4;
  }

  // byte_mask_circ
  method ByteMaskCirc(little: bool, input: array<Byte>, from: nat, output: array<Byte>, to: nat, length: nat,
                      preparedKey: Word, ghost key: Key, ghost off: nat) returns (next: Word)
    requires from + length <= input.Length && to + length <= output.Length
    requires input != output || from == to
    requires KeyIs(little, preparedKey, key, off)
    modifies output
    ensures Progress(old(output[..]), output[..], to, Masked(old(input[from..from + length]), key, off))
    ensures KeyIs(little, next, key, off + length)
  {
    hide ByteAt, KeyIs, CircshiftPreparedKey, LowBytes;
    ghost var (s, before) := (input[from..from + length], output[..]);
    ghost var m := Masked(s, key, off);
    var c := LowBytes(little, preparedKey);
    for i := 0 to length
      invariant MaskedSoFar(input, from, output, to, s, before, m, i)
    {
      LowBytesAreKey(little, preparedKey, key, off, i);
      assert input[from + i] == s[i];
      StoreByte(input, from, output, to, s, before, m, i, input[from + i] ^ c[i % 4]);
    }
    Pointwise(before, output[..], to, m);
    ShiftedKey(little, preparedKey, key, off, length, length % 4);
    next := CircshiftPreparedKey(little, preparedKey, length % 4);
  }

  // ---------------------------------------------------------------- a message in chunks

  ghost function Sum(lengths: seq<nat>): nat {
    if lengths == [] then 0 else Sum(lengths[..|lengths| - 1]) + lengths[|lengths| - 1]
  }

  // A message is masked in place in chunks of any lengths, each by the word or the byte version
  // with the key that the one before returned: the result is the one-shot mask of the whole.
  method MaskInChunks(little: bool, buffer: array<Byte>, lengths: seq<nat>, byWord: seq<bool>, key: Key)
    requires |lengths| == |byWord| && Sum(lengths) == buffer.Length
    modifies buffer
    ensures buffer[..] == Masked(old(buffer[..]), key, 0)
  {
    hide *;
    ghost var before := buffer[..];
    var k := PrepareMaskingKey(little, key);
    PreparedKey(little, key);
    var from := 0;
    StartChunks(before, key, lengths);
    for i := 0 to |lengths|
      invariant from == Sum(lengths[..i]) <= |before| == buffer.Length && KeyIs(little, k, key, from)
      invariant ChunksDone(before, buffer[..], key, from)
    {
      SumBound(lengths, i);
      ghost var now := buffer[..];
      k := MaskChunk(little, buffer, from, lengths[i], byWord[i], k, key);
      ChunkMasked(before, now, buffer[..], key, from, lengths[i]);
      from := from + lengths[i];
    }
    assert lengths[..|lengths|] == lengths;
    AllChunksDone(before, buffer[..], key);
  }

  // the first bytes of the message are masked
  ghost predicate ChunksDone(before: seq<Byte>, now: seq<Byte>, key: Key, done: nat) {
    done <= |before| && now == Masked(before[..done], key, 0) + before[done..]
  }

  lemma StartChunks(s: seq<Byte>, key: Key, lengths: seq<nat>)
    ensures ChunksDone(s, s, key, 0) && Sum(lengths[..0]) == 0
  {
  }

  lemma AllChunksDone(before: seq<Byte>, now: seq<Byte>, key: Key)
    requires ChunksDone(before, now, key, |before|)
    ensures now == Masked(before, key, 0)
  {
    assert before[..|before|] == before && before[|before|..] == [];
  }

  method MaskChunk(little: bool, buffer: array<Byte>, from: nat, length: nat, byWord: bool, k: Word, ghost key: Key)
    returns (next: Word)
    requires from + length <= buffer.Length && KeyIs(little, k, key, from)
    modifies buffer
    ensures Progress(old(buffer[..]), buffer[..], from, Masked(old(buffer[..])[from..from + length], key, from))
    ensures KeyIs(little, next, key, from + length)
  {
    hide KeyIs, Masked, Progress;
    assert buffer[..][from..from + length] == buffer[from..from + length];
    if byWord {
      next := WordMaskCirc(little, buffer, from, buffer, from, length, k, key, from);
    } else {
      next := ByteMaskCirc(little, buffer, from, buffer, from, length, k, key, from);
    }
  }

  lemma {:induction false} SumBound(lengths: seq<nat>, i: nat)
    requires i < |lengths|
    ensures Sum(lengths[..i + 1]) == Sum(lengths[..i]) + lengths[i]
    ensures Sum(lengths[..i + 1]) <= Sum(lengths)
    decreases |lengths| - i
  {
    assert lengths[..i + 1][..i] == lengths[..i];
    if i + 1 < |lengths| { SumBound(lengths, i + 1); } else { assert lengths[..i + 1] == lengths; }
  }

  lemma Pieces(x: seq<Byte>, c: seq<Byte>, r: seq<Byte>)
    ensures var s := x + (c + r); s[..|x|] == x && s[|x|..|x| + |c|] == c && s[|x| + |c|..] == r
  {
  }

  lemma ChunkMasked(before: seq<Byte>, now: seq<Byte>, after: seq<Byte>, key: Key, start: nat, len: nat)
    requires start + len <= |before| == |now| && ChunksDone(before, now, key, start)
    requires Progress(now, after, start, Masked(now[start..start + len], key, start))
    ensures ChunksDone(before, after, key, start + len)
  {
    hide Masked;
    var (a, c, r) := (before[..start], before[start..start + len], before[start + len..]);
    var x := Masked(a, key, 0);
    assert before[start..] == c + r && before[..start + len] == a + c;
    Pieces(x, c, r);
    MaskedConcat(a, c, key, 0);
  }
}
