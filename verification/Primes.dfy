/** Primes as the hash table of src/gondar.cc needs them: the trial-division test, and why a
    stride smaller than a prime visits every residue. */
module Primes {
  import DivMod

  ghost predicate Prime(n: nat) { 2 <= n && forall m :: 2 <= m < n ==> !Divides(m, n) }

  predicate Divides(d: int, n: int)
    requires d > 0
  {
    n % d == 0
  }

  lemma DividesProduct(d: int, k: int)
    requires d > 0
    ensures Divides(d, k * d)
  {
    DivMod.QuotientUnique(k * d, d, k, 0);
  }

  lemma DividesSum(d: int, a: int, b: int)
    requires d > 0 && Divides(d, a) && Divides(d, b)
    ensures Divides(d, a + b) && Divides(d, a - b)
  {
    var j, k := a / d, b / d;
    assert a == j * d && b == k * d;
    assert a + b == (j + k) * d && a - b == (j - k) * d;
    DividesProduct(d, j + k);
    DividesProduct(d, j - k);
  }

  // ---------- strides modulo a prime ----------

  /** k steps of the given stride come back to a multiple of p. */
  predicate Returns(p: nat, stride: nat, k: int)
    requires p > 0
  {
    Divides(p, k * stride)
  }

  lemma ReturnsDifference(p: nat, stride: nat, a: int, b: int)
    requires p > 0 && Returns(p, stride, a) && Returns(p, stride, b)
    ensures Returns(p, stride, a - b)
  {
    DividesSum(p, a * stride, b * stride);
    assert a * stride - b * stride == (a - b) * stride;
  }

  lemma {:induction false} ReturnsMultiple(p: nat, stride: nat, d: int, q: nat)
    requires p > 0 && Returns(p, stride, d)
    ensures Returns(p, stride, q * d)
    decreases q
  {
    if q == 0 {
      DividesProduct(p, 0);
    } else {
      ReturnsMultiple(p, stride, d, q - 1);
      DividesSum(p, (q - 1) * d * stride, d * stride);
      assert (q - 1) * d * stride + d * stride == q * d * stride by { Distribute(q, d, stride); }
    }
  }

  lemma Distribute(q: int, d: int, s: int)
    ensures (q - 1) * d * s + d * s == q * d * s
  {
    assert (q - 1) * d + d == q * d;
    assert (q - 1) * d * s + d * s == ((q - 1) * d + d) * s;
  }

  /** The smallest number of steps from k down that returns. */
  lemma {:induction false} LeastReturn(p: nat, stride: nat, k: nat) returns (d: nat)
    requires p > 0 && k > 0 && Returns(p, stride, k)
    ensures 0 < d <= k && Returns(p, stride, d) && forall i :: 0 < i < d ==> !Returns(p, stride, i)
    decreases k
  {
    if exists i :: 0 < i < k && Returns(p, stride, i) {
      var i :| 0 < i < k && Returns(p, stride, i);
      d := LeastReturn(p, stride, i);
    } else {
      d := k;
    }
  }

  /** A stride below a prime first returns after exactly that many steps. */
  lemma PrimeStride(p: nat, stride: nat, k: nat)
    requires Prime(p) && 0 < stride < p && 0 < k < p
    ensures !Returns(p, stride, k)
  {
    if Returns(p, stride, k) {
      var d := LeastReturn(p, stride, k);
      assert Returns(p, stride, p) by { DividesProduct(p, stride); assert p * stride == stride * p; }
      var q := p / d;
      assert p == q * d + p % d;
      ReturnsMultiple(p, stride, d, q);
      ReturnsDifference(p, stride, p, q * d);
      assert p % d == 0;
      assert Divides(d, p);
      assert d == 1;
      DivMod.SmallDiv(stride, p);
      assert false;
    }
  }

  // ---------- the primality test ----------

  const TWO32: nat := 0x1_0000_0000

  /** The largest number for which the test's squares stay within 32 bits. */
  const EXACT_LIMIT: nat := 65535 * 65535

  /** An odd divider below the number whose square, cut to 32 bits, reaches it. */
  predicate Reaches(number: nat, d: nat) { 3 <= d < number && d % 2 == 1 && Square32(d) >= number }

  /** What the primality test accepts: 1, and the primes that some divider's square reaches. */
  ghost predicate Accepted(number: nat) { number == 1 || (Prime(number) && exists d: nat :: Reaches(number, d)) }

  /** isprime, exactly, on all odd 32-bit numbers. */
  method IsPrime(number: nat) returns (accepted: bool)
    requires number % 2 == 1 && number < TWO32
    ensures accepted <==> Accepted(number)
  {
    hide Square32;
    var divider: nat := 3;
    SquareSmall(3);
    while Square32(divider) < number && !Divides(divider, number)
      invariant 3 <= divider && divider % 2 == 1 && (divider == 3 || divider <= number)
      invariant NoOddDivisorBelow(number, divider)
      invariant forall d :: 3 <= d < divider && d % 2 == 1 ==> Square32(d) < number
      decreases number - divider
    {
      Advance(number, divider);
      divider := divider + 2;
    }
    accepted := !Divides(divider, number);
    if number > 1 {
      assert Divides(number, number) by { DividesProduct(number, 1); }
      if accepted {
        if divider <= 65535 {
          SquareSmall(divider);
        }
        NoSmallDivider(number, divider);
        assert Reaches(number, divider);
      } else if divider < number {
        assert !Prime(number);
      } else {
        forall d: nat
          ensures !Reaches(number, d)
        {}
      }
    } else {
      DivMod.SmallDiv(1, divider);
    }
  }

  /** Up to 65535 squared that is 1 and every odd prime other than 3, which is its own first
      divider. */
  lemma AcceptedExactly(number: nat)
    requires number % 2 == 1 && number <= EXACT_LIMIT
    ensures Accepted(number) <==> number == 1 || (Prime(number) && number != 3)
  {
    hide Square32, Prime;
    if number > 3 {
      SquareSmall(3);
      if number > 65535 {
        SquareSmall(65535);
        assert Reaches(number, 65535);
      } else if number >= 5 {
        var d := number - 2;
        SquareSmall(d);
        SquareGrows(d);
        assert Reaches(number, d);
      }
    }
  }

  /** Beyond that squares wrap around and need not reach the number any more: the numbers above
      2^32 - 7 are refused, prime or not. */
  lemma TopNumbersRefused(number: nat)
    requires TWO32 - 7 < number < TWO32 && number % 2 == 1
    ensures !Accepted(number)
  {
    forall d: nat
      ensures !Reaches(number, d)
    {
      if d % 2 == 1 {
        OddSquare(d);
      }
    }
  }

  /** The square of an odd number is one more than a multiple of eight, also when cut. */
  lemma OddSquare(d: nat)
    requires d % 2 == 1
    ensures Square32(d) % 8 == 1
  {
    var h := d / 2;
    OddTimesOdd(h);
    NeighboursEven(h);
    EightTimes(d * d, h * (h + 1));
    CutModEight(d * d);
  }

  lemma OddTimesOdd(h: nat)
    ensures (2 * h + 1) * (2 * h + 1) == 4 * (h * (h + 1)) + 1
  {
    assert (2 * h + 1) * (2 * h + 1) == 2 * h * (2 * h + 1) + (2 * h + 1);
    assert 2 * h * (2 * h + 1) == 4 * (h * h) + 2 * h;
    assert h * (h + 1) == h * h + h;
  }

  lemma EightTimes(x: nat, e: nat)
    requires x == 4 * e + 1 && e % 2 == 0
    ensures x % 8 == 1
  {}

  lemma NeighboursEven(h: nat)
    ensures h * (h + 1) % 2 == 0
  {
    var m := h / 2;
    if h % 2 == 0 {
      EvenProduct(h + 1, m);
      assert (h + 1) * (2 * m) == h * (h + 1);
    } else {
      EvenProduct(h, m + 1);
      assert h * (2 * (m + 1)) == h * (h + 1);
    }
  }

  lemma CutModEight(x: nat)
    ensures x % TWO32 % 8 == x % 8
  {}

  /** The divider's square in 32-bit arithmetic. */
  function Square32(d: nat): nat { d * d % TWO32 }

  predicate NoOddDivisorBelow(number: nat, d: nat) {
    forall m :: 3 <= m < d && m % 2 == 1 ==> !Divides(m, number)
  }

  /** Going on to the next divider keeps it at or below the number. */
  lemma Advance(number: nat, divider: nat)
    requires number < TWO32 && number % 2 == 1
    requires 3 <= divider && divider % 2 == 1 && (divider == 3 || divider <= number)
    requires NoOddDivisorBelow(number, divider) && !Divides(divider, number) && Square32(divider) < number
    ensures divider + 2 <= number && NoOddDivisorBelow(number, divider + 2)
  {
    hide Square32;
    assert Divides(number, number) by { DividesProduct(number, 1); }
    SquareSmall(3);
  }

  lemma SquareGrows(d: nat)
    requires d >= 3
    ensures d * d > d + 2
  {
    MulMono(3, d, d);
  }

  lemma MulMono(a: nat, b: nat, c: nat)
    requires a <= b
    ensures a * c <= b * c
  {
    assert b * c == a * c + (b - a) * c;
  }

  lemma SquareSmall(d: nat)
    requires d <= 65535
    ensures d * d <= EXACT_LIMIT && Square32(d) == d * d
  {
    MulMono(d, 65535, d);
    MulMono(d, 65535, 65535);
    DivMod.SmallDiv(d * d, TWO32);
  }

  /** An odd number with no odd divisor up to its square root is prime. */
  lemma NoSmallDivider(number: nat, divider: nat)
    requires 1 < number < TWO32 && number % 2 == 1 && 3 <= divider && divider % 2 == 1
    requires !Divides(divider, number) && NoOddDivisorBelow(number, divider)
    requires divider * divider >= number || divider > 65535
    ensures Prime(number) && number != 3
  {
    assert Divides(3, 3);
    forall m | 2 <= m < number
      ensures !Divides(m, number)
    {
      NoFactor(number, m, divider);
    }
  }

  lemma NoFactor(number: nat, m: nat, divider: nat)
    requires 1 < number < TWO32 && number % 2 == 1 && 2 <= m < number
    requires 3 <= divider && divider % 2 == 1 && !Divides(divider, number) && NoOddDivisorBelow(number, divider)
    requires divider * divider >= number || divider > 65535
    ensures !Divides(m, number)
  {
    if Divides(m, number) {
      var c := number / m;
      assert number == c * m;
      OddFactor(number, m, c);
      OddFactor(number, c, m);
      DividesProduct(c, m);
      assert c != 1;
      BigProduct(m, c, divider);
    }
  }

  lemma OddFactor(number: nat, m: nat, c: nat)
    requires number % 2 == 1 && (number == c * m || number == m * c) && number > 1
    ensures m % 2 == 1 && c > 0
  {
    var h := m / 2;
    EvenProduct(c, h);
  }

  lemma EvenProduct(c: nat, h: nat)
    ensures c * (2 * h) % 2 == 0
  {
    assert c * (2 * h) == 2 * (c * h);
  }

  lemma BigProduct(m: nat, c: nat, divider: nat)
    requires m > divider && c > divider
    ensures c * m > divider * divider && (divider > 65535 ==> c * m >= TWO32)
  {
    MulMono(divider + 1, c, m);
    MulMono(divider + 1, m, divider + 1);
    assert (divider + 1) * (divider + 1) == divider * divider + 2 * divider + 1;
    if divider > 65535 {
      MulMono(65536, divider + 1, divider + 1);
    }
  }
}
