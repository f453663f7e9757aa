/**
  64-bit signed numbers: what remains of a number that does not fit.
*/
module Int64 {
  const INT64_MIN := -0x8000_0000_0000_0000
  const INT64_MAX := 0x7fff_ffff_ffff_ffff
  const TWO_TO_64 := 0x1_0000_0000_0000_0000

  // a sum with what does not fit cut off
  function Wrap(n: int): (w: int)
    ensures INT64_MIN <= w <= INT64_MAX
    ensures INT64_MIN <= n <= INT64_MAX ==> w == n
  {
    (n - INT64_MIN) % TWO_TO_64 + INT64_MIN
  }

  lemma WrapAdd(a: int, b: int)
    ensures Wrap(Wrap(a) + b) == Wrap(a + b)
  {
    var q := (a - INT64_MIN) / TWO_TO_64;
    assert Wrap(a) == a - q * TWO_TO_64;
    Rounds(a + b - INT64_MIN, -q);
  }

  lemma Rounds(n: int, q: int)
    ensures (n + q * TWO_TO_64) % TWO_TO_64 == n % TWO_TO_64
  {
  }

  // What is cut off a number above the range is a multiple of 2^64.
  lemma WrapIsBelow(n: int)
    requires n > INT64_MAX
    ensures Wrap(n) <= n - TWO_TO_64
    ensures n < TWO_TO_64 + INT64_MIN + TWO_TO_64 ==> Wrap(n) == n - TWO_TO_64
  {
    var q := (n - INT64_MIN) / TWO_TO_64;
    assert Wrap(n) == n - q * TWO_TO_64 && q >= 1;
  }
}
