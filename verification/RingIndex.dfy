/**
  Positions in a ring buffer. The queues find a position's cell with a bitwise and of the position
  and the number of cells less one; for a power of two that is the remainder.
*/
module RingIndex {
  import opened Int64

  lemma {:induction false} MulMonotone(a: int, b: int, c: nat)
    requires a <= b
    ensures a * c <= b * c
  {
    if c > 0 {
      MulMonotone(a, b, c - 1);
      assert a * c == a * (c - 1) + a && b * c == b * (c - 1) + b;
    }
  }

  // Quotient and remainder are unique.
  lemma Quotient(n: int, d: int, r: int, c: nat)
    requires c > 0 && 0 <= r < c && n == d * c + r
    ensures n % c == r
  {
    var e := n / c;
    assert (e + 1) * c == e * c + c && (d + 1) * c == d * c + c;
    if e < d {
      MulMonotone(e + 1, d, c);
    } else if d < e {
      MulMonotone(d + 1, e, c);
    }
  }

  // Positions in the same cell are at least a round apart.
  lemma SameCell(i: int, j: int, c: nat)
    requires c > 0 && i % c == j % c && i < j
    ensures i + c <= j
  {
    var (p, q) := (i / c, j / c);
    assert (p + 1) * c == p * c + c;
    if p >= q { MulMonotone(q, p, c); } else { MulMonotone(p + 1, q, c); }
  }

  // Positions closer than a round are in different cells.
  lemma DifferentCells(i: int, j: int, c: nat)
    requires 0 < j - i < c
    ensures i % c != j % c
  {
    if i % c == j % c { SameCell(i, j, c); }
  }

  // A round further is the same cell again.
  lemma RoundLater(i: int, c: nat)
    requires c > 0
    ensures (i + c) % c == i % c
  {
    var (d, r) := (i / c, i % c);
    assert (d + 1) * c == d * c + c;
    Quotient(i + c, d + 1, r, c);
  }

  // ---------------------------------------------------------------- the mask

  // the bitwise and of a two's complement number and a mask that is not negative
  function And(i: int, mask: nat): (r: nat)
    ensures r <= mask
    decreases mask
  {
    if mask == 0 then 0 else 2 * And(i / 2, mask / 2) + if i % 2 == 1 && mask % 2 == 1 then 1 else 0
  }

  predicate PowerOfTwo(n: nat) {
    n == 1 || (n > 1 && n % 2 == 0 && PowerOfTwo(n / 2))
  }

  lemma {:induction false} MaskIsRemainder(i: int, c: nat)
    requires PowerOfTwo(c)
    ensures And(i, c - 1) == i % c
    decreases c
  {
    if c > 1 {
      var h := c / 2;
      assert c - 1 == 2 * (h - 1) + 1;
      MaskIsRemainder(i / 2, h);
      HalfRemainder(i, h);
    }
  }

  lemma HalfRemainder(i: int, h: nat)
    requires h > 0
    ensures i % (2 * h) == 2 * (i / 2 % h) + i % 2
  {
    var (k, e) := (i / 2, i % 2);
    var (d, r) := (k / h, k % h);
    assert k == d * h + r;
    assert d * (2 * h) == 2 * (d * h);
    Quotient(i, d, 2 * r + e, 2 * h);
  }

  // ---------------------------------------------------------------- positions in 64-bit words

  lemma {:induction false} PowerDivides(a: nat, b: nat)
    requires PowerOfTwo(a) && PowerOfTwo(b) && a <= b
    ensures b % a == 0
  {
    if a > 1 {
      PowerDivides(a / 2, b / 2);
      var k := b / 2 / (a / 2);
      assert b / 2 == k * (a / 2);
      assert k * (2 * (a / 2)) == 2 * (k * (a / 2));
      Quotient(b, k, 0, a);
    }
  }

  lemma {:induction false} PowerTimes(a: nat, b: nat)
    requires PowerOfTwo(a) && PowerOfTwo(b)
    ensures PowerOfTwo(a * b)
    decreases a
  {
    if a > 1 {
      var h := a / 2;
      PowerTimes(h, b);
      assert (2 * h) * b == 2 * (h * b);
      assert a * b / 2 == h * b && a * b % 2 == 0;
    }
  }

  lemma WordIsPower()
    ensures PowerOfTwo(TWO_TO_64)
  {
    assert PowerOfTwo(0x100);
    PowerTimes(0x100, 0x100);
    PowerTimes(0x1_0000, 0x1_0000);
    PowerTimes(0x1_0000_0000, 0x1_0000_0000);
  }

  // The slot of a wrapped position is the slot of the position, because the size divides a word.
  lemma WrapKeepsSlot(n: nat, c: nat)
    requires c > 0 && TWO_TO_64 % c == 0
    ensures (n % TWO_TO_64) % c == n % c
  {
    var (a, r, k) := (n / TWO_TO_64, n % TWO_TO_64, TWO_TO_64 / c);
    var (b, s) := (r / c, r % c);
    assert a * (k * c) == (a * k) * c;
    assert n == (a * k) * c + (b * c + s);
    assert (a * k + b) * c == (a * k) * c + b * c;
    Quotient(n, a * k + b, s, c);
  }

  // The mask finds the slot of a position from its word.
  lemma MaskedSlot(n: nat, c: nat)
    requires PowerOfTwo(c) && c <= TWO_TO_64
    ensures And(n % TWO_TO_64, c - 1) == n % c
  {
    WordIsPower();
    PowerDivides(c, TWO_TO_64);
    WrapKeepsSlot(n, c);
    MaskIsRemainder(n % TWO_TO_64, c);
  }

  lemma SmallMod(n: int, d: int)
    requires d > 0 && 0 <= n < d
    ensures n % d == n
  {
  }

  // Wrapped positions differ by what the positions differ by.
  lemma WrapKeepsDistance(h: nat, t: nat)
    requires t <= h && h - t < TWO_TO_64
    ensures (h % TWO_TO_64 - t % TWO_TO_64) % TWO_TO_64 == h - t
    ensures h % TWO_TO_64 == t % TWO_TO_64 <==> h == t
  {
    var d := h / TWO_TO_64 - t / TWO_TO_64;
    assert h % TWO_TO_64 - t % TWO_TO_64 == (h - t) - d * TWO_TO_64;
    Quotient(h % TWO_TO_64 - t % TWO_TO_64, -d, h - t, TWO_TO_64);
  }

  lemma WrapNext(h: nat)
    ensures (h % TWO_TO_64 + 1) % TWO_TO_64 == (h + 1) % TWO_TO_64
  {
    var (d, r) := (h / TWO_TO_64, h % TWO_TO_64);
    if r + 1 == TWO_TO_64 {
      Quotient(h + 1, d + 1, 0, TWO_TO_64);
      Quotient(r + 1, 1, 0, TWO_TO_64);
    } else {
      Quotient(h + 1, d, r + 1, TWO_TO_64);
      SmallMod(r + 1, TWO_TO_64);
    }
  }

  // ---------------------------------------------------------------- any other size

  // Without a power of two, two positions of the first round share a cell.
  lemma {:induction false} MaskClash(c: nat) returns (i: nat, j: nat)
    requires c > 0 && !PowerOfTwo(c)
    ensures 1 <= i < j <= c && And(i, c - 1) == And(j, c - 1)
  {
    if c % 2 == 1 {
      i, j := 2, 3;
      assert And(2, c - 1) == 2 * And(1, (c - 1) / 2);
    } else {
      var p, q := MaskClash(c / 2);
      i, j := 2 * p, 2 * q;
    }
  }
}
