/**
 * How the game board turns a random double into an index.  `Random.nextDouble`
 * returns `k / 2^53` for a 53-bit integer `k`; the board multiplies it by a
 * count `n` in double arithmetic and truncates the product to an int.  The
 * product `k * n / 2^53` is rounded to the nearest double (ties to even) before
 * the truncation, so the index is not always the integer part of the exact
 * product.  Everything here is exact integer arithmetic on the numerator.
 */
module Doubles {

  /** 2^53: a uniform double in [0, 1) is `k / Unit` for some `0 <= k < Unit`. */
  const Unit: nat := 0x20_0000_0000_0000

  function Pow2(e: nat): (r: nat)
    ensures r >= 1
  {
    if e == 0 then 1 else 2 * Pow2(e - 1)
  }

  lemma {:induction false} Pow2Add(a: nat, b: nat)
    ensures Pow2(a + b) == Pow2(a) * Pow2(b)
  {
    if b > 0 {
      Pow2Add(a, b - 1);
      assert Pow2(a + b) == 2 * Pow2(a + (b - 1));
      assert Pow2(b) == 2 * Pow2(b - 1);
    }
  }

  lemma {:induction false} Pow2Mono(a: nat, b: nat)
    requires a <= b
    ensures Pow2(a) <= Pow2(b)
  {
    if a < b {
      Pow2Mono(a, b - 1);
    }
  }

  lemma UnitIsPow2()
    ensures Pow2(53) == Unit
  {
    assert Pow2(0) == 1;
    assert Pow2(4) == 16;
    assert Pow2(8) == 256;
    assert Pow2(12) == 4096;
    assert Pow2(16) == 65536;
    assert Pow2(20) == 1048576;
    assert Pow2(24) == 16777216;
    assert Pow2(28) == 268435456;
    assert Pow2(32) == 4294967296;
    assert Pow2(36) == 68719476736;
    assert Pow2(40) == 1099511627776;
    assert Pow2(44) == 17592186044416;
    assert Pow2(48) == 281474976710656;
    assert Pow2(52) == 4503599627370496;
  }

  /** The number of binary digits of `m`. */
  function BitLength(m: nat): (r: nat)
    ensures m == 0 ==> r == 0
    ensures m > 0 ==> r >= 1 && Pow2(r - 1) <= m
    ensures m < Pow2(r)
  {
    if m == 0 then 0 else 1 + BitLength(m / 2)
  }

  /** A number between 2^(e-1) and 2^e has `e` binary digits. */
  lemma BitLengthIs(m: nat, e: nat)
    requires e >= 1 && Pow2(e - 1) <= m < Pow2(e)
    ensures BitLength(m) == e
  {
    var r := BitLength(m);
    if r < e {
      Pow2Mono(r, e - 1);
    } else if r > e {
      Pow2Mono(e, r - 1);
    }
  }

  lemma {:induction false} MulMono(a: int, c: int, n: nat)
    requires a <= c
    ensures a * n <= c * n
  {
    if n > 0 {
      MulMono(a, c, n - 1);
      assert a * n == a * (n - 1) + a && c * n == c * (n - 1) + c;
    }
  }

  lemma ModAddDivisor(x: nat, u: nat)
    requires u > 0
    ensures (x + u) % u == x % u
  {
    var a, b := x % u, x / u;
    var a', b' := (x + u) % u, (x + u) / u;
    assert x == b * u + a;
    assert x + u == b' * u + a';
    assert (b + 1) * u == b * u + u;
    if b' > b + 1 {
      assert (b + 2) * u == b * u + 2 * u;
      MulMono(b + 2, b', u);
    } else if b' < b + 1 {
      MulMono(b', b, u);
    }
  }

  lemma {:induction false} MultipleMod(q: nat, u: nat)
    requires u > 0
    ensures (q * u) % u == 0
  {
    if q > 0 {
      MultipleMod(q - 1, u);
      assert q * u == (q - 1) * u + u;
      ModAddDivisor((q - 1) * u, u);
    }
  }

  /** Dropping the remainder, or rounding up past it, gives a multiple. */
  lemma DropRemainder(m: nat, u: nat)
    requires u > 0
    ensures (m - m % u) % u == 0 && (m - m % u + u) % u == 0
  {
    var q := m / u;
    assert m - m % u == q * u;
    MultipleMod(q, u);
    MultipleMod(q + 1, u);
    assert (q + 1) * u == q * u + u;
  }

  lemma DivExact(q: nat, u: nat)
    requires u > 0
    ensures (q * u) / u == q
  {
    MultipleMod(q, u);
    var d := (q * u) / u;
    assert d * u == q * u;
    if d < q {
      assert (q - 1) * u == q * u - u;
      MulMono(d, q - 1, u);
    } else if d > q {
      assert (q + 1) * u == q * u + u;
      MulMono(q + 1, d, u);
    }
  }

  /** The multiples of `u` just below and just above `m`, and their quotients. */
  lemma RoundedQuotients(m: nat, u: nat)
    requires u > 0
    ensures (m - m % u) % u == 0 && (m - m % u + u) % u == 0
    ensures (m - m % u) / u == m / u && (m - m % u + u) / u == m / u + 1
  {
    var q := m / u;
    DropRemainder(m, u);
    assert m - m % u == q * u;
    assert m - m % u + u == (q + 1) * u;
    DivExact(q, u);
    DivExact(q + 1, u);
  }

  /**
   * The multiple of `2 * h` nearest to `m`; of two equally near, the one whose
   * quotient is even.
   */
  function RoundToMultiple(m: nat, h: nat): (r: nat)
    requires h >= 1
    ensures r % (2 * h) == 0 && m - h <= r <= m + h
    ensures m % (2 * h) == h ==> (r / (2 * h)) % 2 == 0
  {
    var u := 2 * h;
    var rem := m % u;
    var up := rem > h || (rem == h && (m / u) % 2 == 1);
    RoundedQuotients(m, u);
    if up then m - rem + u else m - rem
  }

  /** Rounding never passes a multiple of the rounding unit. */
  lemma RoundBetween(m: nat, h: nat, c: nat)
    requires h >= 1 && c % (2 * h) == 0
    ensures c <= m ==> c <= RoundToMultiple(m, h)
    ensures m < c ==> RoundToMultiple(m, h) <= c
  {
    var u := 2 * h;
    var q, p := m / u, c / u;
    assert c == p * u;
    assert m == q * u + m % u;
    DropRemainder(m, u);
    if c <= m {
      if p > q {
        assert (q + 1) * u == q * u + u;
        MulMono(q + 1, p, u);
      }
      MulMono(p, q, u);
    } else {
      if p <= q {
        MulMono(p, q, u);
      }
      MulMono(q + 1, p, u);
      assert (q + 1) * u == q * u + u;
    }
  }

  /**
   * The double nearest to `m` (ties to even): a number below 2^53 is exact; a
   * longer one keeps its leading 53 binary digits, rounded, so the result is a
   * multiple of the spacing of doubles of that size and at most half a spacing away.
   */
  function RoundToDouble(m: nat): (r: nat)
    ensures BitLength(m) <= 53 ==> r == m
    ensures BitLength(m) > 53 ==>
      r % Pow2(BitLength(m) - 53) == 0 &&
      m - Pow2(BitLength(m) - 54) <= r <= m + Pow2(BitLength(m) - 54)
    ensures BitLength(m) > 53 && m % Pow2(BitLength(m) - 53) == Pow2(BitLength(m) - 54) ==>
      (r / Pow2(BitLength(m) - 53)) % 2 == 0
  {
    var n := BitLength(m);
    if n <= 53 then m
    else
      assert Pow2(n - 53) == 2 * Pow2(n - 54);
      RoundToMultiple(m, Pow2(n - 54))
  }

  /** Numbers below 2^53 are doubles already. */
  lemma ExactBelowUnit(m: nat)
    requires m < Unit
    ensures RoundToDouble(m) == m
  {
    UnitIsPow2();
    if BitLength(m) > 53 {
      Pow2Mono(53, BitLength(m) - 1);
    }
  }

  /** Rounding to a double never passes a multiple of the spacing of doubles at that size. */
  lemma RoundDoubleBetween(m: nat, c: nat)
    requires BitLength(m) > 53 ==> c % Pow2(BitLength(m) - 53) == 0
    ensures c <= m ==> c <= RoundToDouble(m)
    ensures m < c ==> RoundToDouble(m) <= c
  {
    var b := BitLength(m);
    if b > 53 {
      assert Pow2(b - 53) == 2 * Pow2(b - 54);
      RoundBetween(m, Pow2(b - 54), c);
    }
  }

  /**
   * Below 2^106 the spacing of doubles divides 2^53, so every multiple of 2^53 is
   * a multiple of the spacing.
   */
  lemma UnitMultipleAligned(m: nat, j: nat)
    requires m < Unit * Unit && BitLength(m) > 53
    ensures (j * Unit) % Pow2(BitLength(m) - 53) == 0
  {
    var b := BitLength(m);
    UnitIsPow2();
    Pow2Add(53, 53);
    if b > 106 {
      Pow2Mono(106, b - 1);
    } else {
      SpacingDividesUnit(b, j);
    }
  }

  lemma SpacingDividesUnit(b: nat, j: nat)
    requires 53 < b <= 106
    ensures (j * Unit) % Pow2(b - 53) == 0
  {
    var p, q := Pow2(b - 53), Pow2(106 - b);
    UnitIsPow2();
    Pow2Add(b - 53, 106 - b);
    assert Unit == p * q;
    MulAssoc(j, q, p);
    MultipleMod(j * q, p);
  }

  lemma MulAssoc(a: nat, b: nat, c: nat)
    ensures a * (c * b) == (a * b) * c
  {
  }

  lemma DivBetween(x: nat, u: nat, j: nat)
    requires u > 0 && j * u <= x <= (j + 1) * u
    ensures j <= x / u <= j + 1
  {
    var d := x / u;
    assert x == d * u + x % u;
    if d < j {
      assert (d + 1) * u == d * u + u;
      MulMono(d + 1, j, u);
    } else if d > j + 1 {
      assert (j + 2) * u == (j + 1) * u + u;
      MulMono(j + 2, d, u);
    }
  }

  lemma ProductBelow(k: nat, n: nat)
    requires k < Unit && n < Unit
    ensures k * n < Unit * Unit
  {
    MulMono(k, Unit - 1, n);
    MulMono(n, Unit - 1, Unit - 1);
  }

  /** `m` lies between the multiples of `u` on either side of it. */
  lemma Bracket(m: nat, u: nat)
    requires u > 0
    ensures (m / u) * u <= m < (m / u + 1) * u
  {
    assert m == (m / u) * u + m % u;
    assert (m / u + 1) * u == (m / u) * u + u;
  }

  /**
   * Rounding the product never lowers its integer part and raises it by at most
   * one: the multiples of 2^53 around the exact product are doubles.
   */
  lemma PickNear(k: int, n: nat)
    requires 0 <= k < Unit && 0 < n < Unit
    ensures k * n / Unit <= RoundToDouble(k * n) / Unit <= k * n / Unit + 1
  {
    var m := k * n;
    var j := m / Unit;
    ProductBelow(k, n);
    Bracket(m, Unit);
    if BitLength(m) > 53 {
      UnitMultipleAligned(m, j);
      UnitMultipleAligned(m, j + 1);
    }
    RoundDoubleBetween(m, j * Unit);
    RoundDoubleBetween(m, (j + 1) * Unit);
    DivBetween(RoundToDouble(m), Unit, j);
  }

  /**
   * Rounding never carries the product up to `n`: half a spacing at the size of
   * `k * n` is less than `n`, and `k * n` is at least `n` below `n * 2^53`.
   */
  lemma PickBound(k: int, n: nat)
    requires 0 <= k < Unit && n > 0
    ensures RoundToDouble(k * n) < n * Unit
  {
    var m := k * n;
    MulMono(k, Unit - 1, n);
    assert m + n <= n * Unit;
    var b := BitLength(m);
    if b > 53 {
      var h := Pow2(b - 54);
      assert h < n by {
        Pow2Add(b - 54, 53);
        UnitIsPow2();
        if h >= n {
          MulMono(n, h, Unit);
        }
      }
    }
  }

  /**
   * `(int) (k / 2^53 * n)` in Java: the product rounded to a double, then
   * truncated.  Always a valid index below `n`, and the integer part of the
   * exact product or one more.
   */
  function Pick(k: int, n: nat): (r: int)
    requires 0 <= k < Unit && n > 0
    ensures 0 <= r < n
    ensures k * n < Unit ==> r == 0
    ensures n < Unit ==> k * n / Unit <= r <= k * n / Unit + 1
  {
    PickBound(k, n);
    assert n < Unit ==> k * n / Unit <= RoundToDouble(k * n) / Unit <= k * n / Unit + 1 by {
      if n < Unit {
        PickNear(k, n);
      }
    }
    assert k * n < Unit ==> RoundToDouble(k * n) == k * n by {
      if k * n < Unit {
        ExactBelowUnit(k * n);
      }
    }
    RoundToDouble(k * n) / Unit
  }

  /**
   * Rounding matters: for `k = (2^54 - 1) / 3` and `n = 3` the exact product is
   * just below 2, but it rounds to 2.0, so the index is 2, not 1.
   */
  lemma PickRoundsUp()
    ensures 6004799503160661 < Unit
    ensures 6004799503160661 * 3 / Unit == 1
    ensures Pick(6004799503160661, 3) == 2
  {
    var m := 6004799503160661 * 3;
    assert m == 0x3F_FFFF_FFFF_FFFF;
    Pow2Add(53, 1);
    UnitIsPow2();
    BitLengthIs(m, 54);
    assert Pow2(0) == 1;
  }
}
