/**
  The block streaming of websocketpp/common/md5.hpp: messages arrive in pieces of any size, are
  gathered into blocks of 64 bytes, padded and closed with their length. What md5_process does with
  a block is a parameter.
*/
module Md5Stream {
  import opened Common
  import opened Int64

  const TWO_TO_32 := 0x1_0000_0000

  // ---------------------------------------------------------------- the algorithm of RFC 1321

  // the state after all whole blocks of a message
  ghost function Absorb<S>(process: (S, seq<Byte>) -> S, s: S, m: seq<Byte>): S {
    if |m| < 64 then s else Absorb(process, process(s, m[..64]), m[64..])
  }

  function Zeros(n: nat): (z: seq<Byte>)
    ensures |z| == n
  {
    seq(n, _ => 0)
  }

  // the low-order 64 bits of n, low-order byte first
  function LowBytes(n: nat): (b: seq<Byte>)
    ensures |b| == 8
  {
    [n % 0x100, n / 0x100 % 0x100, n / 0x1_0000 % 0x100, n / 0x100_0000 % 0x100,
     n / 0x1_0000_0000 % 0x100, n / 0x100_0000_0000 % 0x100, n / 0x1_0000_0000_0000 % 0x100,
     n / 0x100_0000_0000_0000 % 0x100]
  }

  lemma PadFits(n: nat)
    ensures (n + 1 + (55 - n) % 64 + 8) % 64 == 0
  {
    var q := (55 - n) / 64;
    assert n + 1 + (55 - n) % 64 + 8 == 64 * (1 - q);
  }

  // Sections 3.1 and 3.2: one bit and zeros up to 448 modulo 512 bits, then the length in bits.
  function Padded(m: seq<Byte>): (p: seq<Byte>)
    ensures |p| % 64 == 0 && m <= p
    ensures |m| + 9 <= |p| < |m| + 9 + 64
  {
    PadFits(|m|);
    m + [0x80] + Zeros((55 - |m|) % 64) + LowBytes(8 * |m|)
  }

  lemma {:induction false} AbsorbConcat<S>(process: (S, seq<Byte>) -> S, s: S, a: seq<Byte>, b: seq<Byte>)
    requires |a| % 64 == 0
    ensures Absorb(process, s, a + b) == Absorb(process, Absorb(process, s, a), b)
    decreases |a|
  {
    if |a| == 0 {
      assert a + b == b;
    } else {
      assert (a + b)[..64] == a[..64] && (a + b)[64..] == a[64..] + b;
      AbsorbConcat(process, process(s, a[..64]), a[64..], b);
    }
  }

  lemma AbsorbBlock<S>(process: (S, seq<Byte>) -> S, s: S, b: seq<Byte>)
    requires |b| == 64
    ensures Absorb(process, s, b) == process(s, b)
  {
    assert b[..64] == b && b[64..] == [];
  }

  // ---------------------------------------------------------------- the length counter

  // count[0] and count[1] hold the number of bits modulo 2^64
  ghost predicate Counts(low: nat, high: nat, bytes: nat) {
    low < TWO_TO_32 && high < TWO_TO_32 && high * TWO_TO_32 + low == 8 * bytes % TWO_TO_64
  }

  lemma ModIs(n: nat, q: int, v: nat)
    requires n == q * TWO_TO_64 + v && v < TWO_TO_64
    ensures n % TWO_TO_64 == v
  {
  }

  // the two words after an addition, without the remainders
  lemma CarryWords(low: nat, high: nat, nbytes: nat, low': nat, high': nat) returns (over: nat)
    requires low < TWO_TO_32 && high < TWO_TO_32
    requires low' == (low + 8 * nbytes % TWO_TO_32) % TWO_TO_32
    requires high' == (high + nbytes / 0x2000_0000 + if low' < 8 * nbytes % TWO_TO_32 then 1 else 0) % TWO_TO_32
    ensures low' < TWO_TO_32 && high' < TWO_TO_32
    ensures high' * TWO_TO_32 + low' + over * TWO_TO_64 == high * TWO_TO_32 + low + 8 * nbytes
  {
    var (nbits, top) := (8 * nbytes % TWO_TO_32, nbytes / 0x2000_0000);
    Bits(nbytes);
    var carry := if low + nbits >= TWO_TO_32 then 1 else 0;
    assert low' == low + nbits - carry * TWO_TO_32;
    assert (low' < nbits) <==> carry == 1;
    var sum := high + top + carry;
    over := sum / TWO_TO_32;
    assert sum == over * TWO_TO_32 + high';
  }

  lemma Bits(nbytes: nat)
    ensures 8 * nbytes == nbytes / 0x2000_0000 * TWO_TO_32 + 8 * nbytes % TWO_TO_32
  {
  }

  // Adding the bits of nbytes with a carry between 32-bit words is adding them to the 64-bit count.
  lemma CountsAdd(low: nat, high: nat, bytes: nat, nbytes: nat, low': nat, high': nat)
    requires Counts(low, high, bytes)
    requires low' == (low + 8 * nbytes % TWO_TO_32) % TWO_TO_32
    requires high' == (high + nbytes / 0x2000_0000 + if low' < 8 * nbytes % TWO_TO_32 then 1 else 0) % TWO_TO_32
    ensures Counts(low', high', bytes + nbytes)
  {
    var over := CarryWords(low, high, nbytes, low', high');
    var k := 8 * bytes / TWO_TO_64;
    assert 8 * bytes == k * TWO_TO_64 + (high * TWO_TO_32 + low);
    assert 8 * (bytes + nbytes) == (k + over) * TWO_TO_64 + (high' * TWO_TO_32 + low');
    ModIs(8 * (bytes + nbytes), k + over, high' * TWO_TO_32 + low');
  }

  // The position in the block comes from the low word alone.
  lemma Offset(low: nat, high: nat, bytes: nat)
    requires Counts(low, high, bytes)
    ensures low / 8 % 64 == bytes % 64
  {
  }

  lemma LowByte(m: nat, v: nat)
    ensures (0x100 * m + v) % 0x100 == v % 0x100
  {
  }

  // The four low bytes of a number do not depend on what lies above them.
  lemma LowFour(m: nat, v: nat)
    requires v < TWO_TO_32
    ensures var n := m * TWO_TO_32 + v;
      && n % 0x100 == v % 0x100 && n / 0x100 % 0x100 == v / 0x100 % 0x100
      && n / 0x1_0000 % 0x100 == v / 0x1_0000 % 0x100 && n / 0x100_0000 % 0x100 == v / 0x100_0000 % 0x100
  {
    var n := m * TWO_TO_32 + v;
    assert n / 0x100 == m * 0x100_0000 + v / 0x100;
    assert n / 0x1_0000 == m * 0x1_0000 + v / 0x1_0000;
    assert n / 0x100_0000 == m * 0x100 + v / 0x100_0000;
    LowByte(m * 0x100_0000, v);
    LowByte(m * 0x1_0000, v / 0x100);
    LowByte(m * 0x100, v / 0x1_0000);
    LowByte(m, v / 0x100_0000);
  }

  lemma HighFour(m: nat, v: nat)
    requires v < TWO_TO_32
    ensures var n := m * TWO_TO_32 + v;
      && n / 0x1_0000_0000 == m && n / 0x100_0000_0000 == m / 0x100
      && n / 0x1_0000_0000_0000 == m / 0x1_0000 && n / 0x100_0000_0000_0000 == m / 0x100_0000
  {
    var n := m * TWO_TO_32 + v;
    assert m == m / 0x100 * 0x100 + m % 0x100;
    assert m == m / 0x1_0000 * 0x1_0000 + m % 0x1_0000;
    assert m == m / 0x100_0000 * 0x100_0000 + m % 0x100_0000;
  }

  // the number that eight bytes make, low-order byte first
  function NumberOf(b: seq<Byte>): nat
    requires |b| == 8
  {
    b[0] as nat + 0x100 * b[1] as nat + 0x1_0000 * b[2] as nat + 0x100_0000 * b[3] as nat
    + 0x1_0000_0000 * b[4] as nat + 0x100_0000_0000 * b[5] as nat + 0x1_0000_0000_0000 * b[6] as nat
    + 0x100_0000_0000_0000 * b[7] as nat
  }

  lemma FourBytes(v: nat)
    requires v < TWO_TO_32
    ensures v == v % 0x100 + 0x100 * (v / 0x100 % 0x100) + 0x1_0000 * (v / 0x1_0000 % 0x100)
                 + 0x100_0000 * (v / 0x100_0000 % 0x100)
  {
    var q := v / 0x100;
    assert v == 0x100 * q + v % 0x100;
    assert q == 0x100 * (v / 0x1_0000) + q % 0x100;
    assert v / 0x1_0000 == 0x100 * (v / 0x100_0000) + v / 0x1_0000 % 0x100;
  }

  lemma LowBytesAre(n: nat)
    ensures NumberOf(LowBytes(n)) == n % TWO_TO_64
  {
    var (m, v) := (n / TWO_TO_32, n % TWO_TO_32);
    var (k, w) := (m / TWO_TO_32, m % TWO_TO_32);
    assert n == m * TWO_TO_32 + v && m == k * TWO_TO_32 + w;
    LowFour(m, v);
    HighFour(m, v);
    LowFour(k, w);
    FourBytes(v);
    FourBytes(w);
    ModIs(n, k, w * TWO_TO_32 + v);
  }

  // The padded message is a number of whole blocks, as few as possible: the message, a one bit,
  // zero bits, and in the last eight bytes the number of bits of the message modulo 2^64.
  lemma PaddedExactly(m: seq<Byte>)
    ensures var (p, n) := (Padded(m), |Padded(m)| - 8);
      && |p| % 64 == 0 && |p| - 64 < |m| + 9 <= |p|
      && p[..|m|] == m && p[|m|] == 0x80 && (forall i :: |m| < i < n ==> p[i] == 0)
      && NumberOf(p[n..]) == 8 * |m| % TWO_TO_64
  {
    hide LowBytes;
    var (p, n) := (Padded(m), |Padded(m)| - 8);
    assert p[n..] == LowBytes(8 * |m|);
    LowBytesAre(8 * |m|);
  }

  // Messages of less than 2^61 bytes that are padded alike are alike.
  lemma PaddedUnique(m: seq<Byte>, m': seq<Byte>)
    requires Padded(m) == Padded(m') && |m| < 0x2000_0000_0000_0000 && |m'| < 0x2000_0000_0000_0000
    ensures m == m'
  {
    PaddedExactly(m);
    PaddedExactly(m');
    hide Padded, NumberOf;
    assert 8 * |m| % TWO_TO_64 == 8 * |m| && 8 * |m'| % TWO_TO_64 == 8 * |m'|;
  }

  // md5_finish takes the length from the two words.
  lemma LowBytesOfWords(low: nat, high: nat, bytes: nat)
    requires Counts(low, high, bytes)
    ensures LowBytes(8 * bytes) ==
      [low % 0x100, low / 0x100 % 0x100, low / 0x1_0000 % 0x100, low / 0x100_0000 % 0x100,
       high % 0x100, high / 0x100 % 0x100, high / 0x1_0000 % 0x100, high / 0x100_0000 % 0x100]
  {
    var m := 8 * bytes / TWO_TO_64 * TWO_TO_32 + high;
    assert 8 * bytes == m * TWO_TO_32 + low;
    LowFour(m, low);
    HighFour(m, low);
    LowFour(8 * bytes / TWO_TO_64, high);
  }

  lemma StillAligned(n: nat, p: nat)
    requires (n + p) % 64 == 0
    ensures (n + (p + 64)) % 64 == 0
  {
  }

  // ---------------------------------------------------------------- the stream

  class Md5<S(!new)> {
    const process: (S, seq<Byte>) -> S
    const init: S
    var low: nat           // count[0]
    var high: nat          // count[1]
    var state: S           // abcd
    var buf: seq<Byte>

    ghost var message: seq<Byte>  // everything appended so far

    ghost predicate Valid()
      reads this
    {
      var rest := |message| % 64;
      && Counts(low, high, |message|)
      && |buf| == 64 && buf[..rest] == message[|message| - rest..]
      && state == Absorb(process, init, message[..|message| - rest])
    }

    // md5_init
    constructor (process: (S, seq<Byte>) -> S, init: S)
      ensures Valid() && message == [] && this.process == process && this.init == init
    {
      this.process, this.init := process, init;
      low, high, state, buf, message := 0, 0, init, Zeros(64), [];
    }

    // the length part of md5_append
    method Count(nbytes: nat)
      requires Counts(low, high, |message|)
      modifies this`low, this`high
      ensures Counts(low, high, |message| + nbytes)
    {
      ghost var (low0, high0) := (low, high);
      var nbits := 8 * nbytes % TWO_TO_32;
      high := (high + nbytes / 0x2000_0000) % TWO_TO_32;
      low := (low + nbits) % TWO_TO_32;
      if low < nbits {
        high := (high + 1) % TWO_TO_32;
      }
      CountsAdd(low0, high0, |message|, nbytes, low, high);
    }

    // md5_append
    method Append(data: seq<Byte>)
      requires Valid()
      modifies this
      ensures Valid() && message == old(message) + data
    {
      hide Absorb, Counts;
      Offset(low, high, |message|);
      var offset := low / 8 % 64;
      if data == [] {
        assert message + data == message;
        return;
      }
      Count(|data|);
      var copy := if offset == 0 then 0 else if offset + |data| > 64 then 64 - offset else |data|;
      if offset != 0 && offset + copy < 64 {
        Gathered(message, buf, data, offset);
        buf := buf[..offset] + data[..copy] + buf[offset + copy..];
        message := message + data;
        return;
      }
      if offset != 0 {
        Filled(process, init, message, buf, data, offset, copy);
        buf := buf[..offset] + data[..copy] + buf[offset + copy..];
        state := process(state, buf);
      } else {
        NothingGathered(message, data);
      }
      FullBlocks(data, copy);
    }

    // the loop over full blocks, and the bytes that are left
    method FullBlocks(data: seq<Byte>, from: nat)
      requires Counts(low, high, |message| + |data|) && |buf| == 64 && from <= |data| && (|message| + from) % 64 == 0
      requires state == Absorb(process, init, message + data[..from])
      modifies this
      ensures Valid() && message == old(message) + data
    {
      hide Absorb, Counts;
      StillAligned(|message|, from);
      var p := from;
      while |data| - p >= 64
        invariant p <= |data| && (|message| + p) % 64 == 0
        invariant |buf| == 64 && message == old(message) && low == old(low) && high == old(high)
        invariant state == Absorb(process, init, message + data[..p])
      {
        OneBlock(process, init, message, data, p);
        state := process(state, data[p..p + 64]);
        StillAligned(|message|, p);
        p := p + 64;
      }
      Remaining(message, data, p);
      if p < |data| {
        buf := data[p..] + buf[|data| - p..];
      }
      message := message + data;
    }

    // md5_finish: the blocks processed are those of the padded message.
    method Finish() returns (digest: S)
      requires Valid()
      modifies this
      ensures digest == Absorb(process, init, Padded(old(message)))
    {
      hide Absorb;
      Offset(low, high, |message|);
      LowBytesOfWords(low, high, |message|);
      ghost var m := message;
      var data: seq<Byte> := [low % 0x100, low / 0x100 % 0x100, low / 0x1_0000 % 0x100, low / 0x100_0000 % 0x100,
                              high % 0x100, high / 0x100 % 0x100, high / 0x1_0000 % 0x100, high / 0x100_0000 % 0x100];
      var pad := [0x80] + Zeros(63);
      var length := (55 - low / 8) % 64 + 1;
      PadLength(low, |message|);
      Append(pad[..length]);
      Append(data);
      PaddedInPieces(m, pad[..length], data);
      digest := state;
    }
  }

  lemma PadLength(low: nat, bytes: nat)
    requires low / 8 % 64 == bytes % 64
    ensures (55 - low / 8) % 64 == (55 - bytes) % 64
  {
  }

  lemma PaddedInPieces(m: seq<Byte>, pad: seq<Byte>, data: seq<Byte>)
    requires pad == ([0x80] + Zeros(63))[..(55 - |m|) % 64 + 1] && data == LowBytes(8 * |m|)
    ensures m + pad + data == Padded(m) && (m + pad + data)[..|m + pad + data|] == Padded(m)
  {
    assert pad == [0x80] + Zeros((55 - |m|) % 64);
  }

  // ---------------------------------------------------------------- pieces of a message

  // Everything fits into the block that is being gathered.
  lemma Gathered(m: seq<Byte>, buf: seq<Byte>, data: seq<Byte>, offset: nat)
    requires offset == |m| % 64 && offset + |data| < 64 && |buf| == 64 && buf[..offset] == m[|m| - offset..]
    ensures var (all, n, now) := (m + data, offset + |data|, buf[..offset] + data + buf[offset + |data|..]);
      && |all| % 64 == n && all[..|all| - n] == m[..|m| - offset] && |now| == 64 && now[..n] == all[|all| - n..]
      && data[..|data|] == data
  {
  }

  lemma NothingGathered(m: seq<Byte>, data: seq<Byte>)
    ensures m[..|m| - 0] == m && m + data[..0] == m
  {
  }

  // The block that is being gathered becomes full.
  lemma Filled<S>(process: (S, seq<Byte>) -> S, init: S, m: seq<Byte>, buf: seq<Byte>, data: seq<Byte>, offset: nat,
                  copy: nat)
    requires offset == |m| % 64 && copy <= |data| && offset + copy == 64 && |buf| == 64
      && buf[..offset] == m[|m| - offset..]
    ensures var block := buf[..offset] + data[..copy] + buf[offset + copy..];
      && |block| == 64
      && Absorb(process, init, m + data[..copy]) == process(Absorb(process, init, m[..|m| - offset]), block)
  {
    hide Absorb;
    var (whole, block) := (m[..|m| - offset], m[|m| - offset..] + data[..copy]);
    assert m + data[..copy] == whole + block;
    assert buf[..offset] + data[..copy] + buf[offset + copy..] == block;
    AbsorbConcat(process, init, whole, block);
    AbsorbBlock(process, Absorb(process, init, whole), block);
  }

  lemma OneBlock<S>(process: (S, seq<Byte>) -> S, init: S, m: seq<Byte>, data: seq<Byte>, p: nat)
    requires p + 64 <= |data| && (|m| + p) % 64 == 0
    ensures Absorb(process, init, m + data[..p + 64]) == process(Absorb(process, init, m + data[..p]), data[p..p + 64])
  {
    hide Absorb;
    assert m + data[..p + 64] == (m + data[..p]) + data[p..p + 64];
    AbsorbConcat(process, init, m + data[..p], data[p..p + 64]);
    AbsorbBlock(process, Absorb(process, init, m + data[..p]), data[p..p + 64]);
  }

  lemma Remaining(m: seq<Byte>, data: seq<Byte>, p: nat)
    requires p <= |data| < p + 64 && (|m| + p) % 64 == 0
    ensures var (all, rest) := (m + data, |data| - p);
      |all| % 64 == rest && all[..|all| - rest] == m + data[..p] && all[|all| - rest..] == data[p..]
  {
  }

  // ---------------------------------------------------------------- a message in pieces

  // However the message is cut into pieces, the digest is that of the padded whole.
  method DigestOf<S(!new)>(process: (S, seq<Byte>) -> S, init: S, pieces: seq<seq<Byte>>) returns (digest: S)
    ensures digest == Absorb(process, init, Padded(Flatten(pieces)))
  {
    hide Absorb, Padded;
    var md5 := new Md5(process, init);
    for i := 0 to |pieces|
      invariant fresh(md5) && md5.Valid() && md5.process == process && md5.init == init
      invariant md5.message == Flatten(pieces[..i])
    {
      assert pieces[..i + 1][..i] == pieces[..i];
      md5.Append(pieces[i]);
    }
    assert pieces[..|pieces|] == pieces;
    digest := md5.Finish();
  }
}
