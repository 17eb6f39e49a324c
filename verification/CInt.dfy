/** The C integer arithmetic that the sources rely on: conversion to a 32-bit int or a 64-bit ssize_t,
    the division that truncates toward zero, and the few facts about division that the loop nests need. */
module CInt {

  const INT_MAX: int := 0x7fff_ffff
  const INT_MIN: int := -0x8000_0000

  /** Conversion to int (two's complement). */
  function Int32(x: int): (r: int)
    ensures INT_MIN <= r <= INT_MAX
    ensures INT_MIN <= x <= INT_MAX ==> r == x
  {
    (x + 0x8000_0000) % 0x1_0000_0000 - 0x8000_0000
  }

  /** Conversion to ssize_t (two's complement). */
  function Int64(x: int): (r: int)
    ensures -0x8000_0000_0000_0000 <= r < 0x8000_0000_0000_0000
    ensures -0x8000_0000_0000_0000 <= x < 0x8000_0000_0000_0000 ==> r == x
  {
    (x + 0x8000_0000_0000_0000) % 0x1_0000_0000_0000_0000 - 0x8000_0000_0000_0000
  }

  /** They differ by a multiple of 2^32, which with the range of int determines the result. */
  lemma Int32Congruent(x: int)
    ensures (Int32(x) - x) % 0x1_0000_0000 == 0
  {
  }

  lemma Int32Unique(x: int, y: int)
    requires INT_MIN <= y <= INT_MAX
    ensures Int32(x) == y <==> (x - y) % 0x1_0000_0000 == 0
  {
  }

  /** Conversion of a factor does not show after conversion of the product. */
  lemma Int32Product(count: int, x: int, y: int)
    requires INT_MIN <= y <= INT_MAX
    ensures Int32(count * Int32(x)) == y <==> (count * x - y) % 0x1_0000_0000 == 0
  {
    Int32Congruent(x);
    var k := (Int32(x) - x) / 0x1_0000_0000;
    assert Int32(x) == x + 0x1_0000_0000 * k;
    hide Int32;
    Int32Unique(count * Int32(x), y);
    ScaledMultiple(count, x, k);
    WholeTurns(count * x - y, count * k);
  }

  lemma ScaledMultiple(count: int, x: int, k: int)
    ensures count * (x + 0x1_0000_0000 * k) == count * x + 0x1_0000_0000 * (count * k)
  {
  }

  lemma WholeTurns(n: int, j: int)
    ensures (n + 0x1_0000_0000 * j) % 0x1_0000_0000 == n % 0x1_0000_0000
  {
  }

  /** C's quotient for a positive divisor: truncation toward zero, where Dafny's `/` rounds down. */
  function TruncDiv(a: int, b: int): (r: int)
    requires b > 0
  {
    if a >= 0 then a / b else -((-a) / b)
  }

  /** What is divided lies between the multiple found and the next one away from zero. */
  lemma TruncDivBounds(a: int, b: int)
    requires b > 0
    ensures a >= 0 ==> TruncDiv(a, b) * b <= a < TruncDiv(a, b) * b + b
    ensures a <= 0 ==> TruncDiv(a, b) * b - b < a <= TruncDiv(a, b) * b
  {
    Split(a, b);
    Split(-a, b);
  }

  lemma TruncDivExact(a: int, b: int)
    requires b > 0 && a % b == 0
    ensures TruncDiv(a, b) * b == a
    ensures TruncDiv(a, b) == a / b
  {
    var q := a / b;
    assert a == b * q;
    if a < 0 {
      assert -a == 0 + b * -q;
      DivModUnique(0, b, -q);
    }
  }

  lemma DivModUnique(i: int, e: int, q: int)
    requires 0 <= i < e
    ensures (i + e * q) / e == q
    ensures (i + e * q) % e == i
  {
    var n := i + e * q;
    assert n == e * (n / e) + n % e;
    var k := n / e - q;
    assert e * k == i - n % e;
    MulAway(e, k);
  }

  /** No non-zero multiple of e lies strictly between -e and e. */
  lemma MulAway(e: int, k: int)
    requires 0 < e
    ensures k >= 1 ==> e * k >= e
    ensures k <= -1 ==> e * k <= -e
  {
  }

  lemma Split(m: int, e: int)
    requires 0 < e
    ensures m == m % e + e * (m / e) && 0 <= m % e < e
    ensures 0 <= m ==> 0 <= m / e
  {
  }

  lemma MulMono(a: int, b: int, c: int)
    requires a <= b && 0 <= c
    ensures a * c <= b * c
  {
  }

  /** m < e * p exactly when m / e < p. */
  lemma DivBound(m: int, e: int, p: int)
    requires 0 < e
    ensures m < e * p <==> m / e < p
    ensures 0 <= m ==> 0 <= m / e
  {
    assert m == e * (m / e) + m % e;
    if m / e < p {
      MulMono(m / e + 1, p, e);
    } else {
      MulMono(p, m / e, e);
    }
  }

  lemma MulAssoc(a: int, b: int, c: int)
    ensures (a * b) * c == a * (b * c)
  {
  }

  lemma Distribute(a: int, b: int, c: int)
    ensures (a + b) * c == a * c + b * c
    ensures c * (a + b) == c * a + c * b
  {
  }

  lemma ProductMono(a: int, b: int, c: int, d: int)
    requires 0 <= a <= b && 0 <= c <= d
    ensures a * c <= b * d
  {
    MulMono(a, b, c);
    MulMono(c, d, b);
  }

  lemma NextMultiple(e: int, q: int)
    ensures e + e * q == e * (q + 1)
    ensures q * e + e == (q + 1) * e
  {
  }

  lemma SameMultiple(n: nat, a: int, b: int)
    ensures n * a == n * b <==> n == 0 || a == b
  {
    assert n * a - n * b == n * (a - b);
    if a != b && n > 0 { MulAway(n, a - b); }
  }

  lemma Int64Periodic(x: int, k: int)
    ensures Int64(x + 0x1_0000_0000_0000_0000 * k) == Int64(x)
  {
    var w, n := 0x1_0000_0000_0000_0000, x + 0x8000_0000_0000_0000;
    Split(n, w);
    DivModUnique(n % w, w, n / w + k);
    assert n + w * k == n % w + w * (n / w + k);
  }

  /** Wrapping each partial product is wrapping the product. */
  lemma Int64Product(a: int, b: int)
    ensures Int64(Int64(a) * b) == Int64(a * b)
  {
    var w, n := 0x1_0000_0000_0000_0000, a + 0x8000_0000_0000_0000;
    Split(n, w);
    var k := n / w;
    assert a == Int64(a) + w * k;
    assert a * b == Int64(a) * b + w * (k * b) by { MulAssoc(w, k, b); }
    hide Int64;
    Int64Periodic(Int64(a) * b, k * b);
  }

  lemma QuotientSum(a: nat, b: nat, e: int)
    requires e > 0
    ensures a / e + b / e <= (a + b) / e
  {
    Split(a, e);
    Split(b, e);
    var p, q, low := a / e, b / e, a / e + b / e;
    assert e * low == e * p + e * q;
    DivBound(a + b, e, low);
  }
}
