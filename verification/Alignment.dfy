/** The power-of-two alignment of a partition array (ComputeAlignment in gdisk/gpt.cc). */
module Alignment {
  import opened Crc32
  import opened GptFormat
  import DivMod

  /** The integer part of the base-2 logarithm. */
  function Log2(n: nat): nat
    requires n > 0
  {
    if n == 1 then 0 else 1 + Log2(n / 2)
  }

  lemma {:induction false} Log2Meaning(n: nat)
    requires n > 0
    ensures Power2(Log2(n)) <= n < 2 * Power2(Log2(n))
  {
    if n > 1 {
      Log2Meaning(n / 2);
    }
  }

  /** The largest exponent up to e whose power of two divides n. */
  function LargestDividing(n: nat, e: nat): (r: nat)
    ensures r <= e
  {
    if n % Power2(e) == 0 || e == 0 then e else LargestDividing(n, e - 1)
  }

  /** The exponent left after taking every used entry into account in turn. */
  function GreatestExponent(parts: seq<Part>, top: nat): (r: nat)
    ensures r <= top
  {
    if parts == [] then top
    else
      var r, p := GreatestExponent(parts[..|parts| - 1], top), parts[|parts| - 1];
      if p.IsUsed() then LargestDividing(p.firstLBA, r) else r
  }

  lemma PowerZero(n: nat)
    ensures n % Power2(0) == 0
  {}

  predicate Divides(d: nat, n: nat)
    requires d > 0
  {
    n % d == 0
  }

  lemma {:induction false} PowerSplit(a: nat, b: nat)
    requires a <= b
    ensures Power2(b) == Power2(a) * Power2(b - a)
    decreases b
  {
    if a < b {
      PowerSplit(a, b - 1);
      assert Power2(b) == 2 * Power2(b - 1);
      assert Power2(b - a) == 2 * Power2(b - 1 - a);
      var x, y := Power2(a), Power2(b - 1 - a);
      assert 2 * (x * y) == x * (2 * y);
    }
  }

  /** A number divisible by a power of two is divisible by the smaller ones. */
  lemma SmallerPowerDivides(n: nat, a: nat, b: nat)
    requires a <= b && Divides(Power2(b), n)
    ensures Divides(Power2(a), n)
  {
    hide Power2;
    PowerSplit(a, b);
    var k, x, y := n / Power2(b), Power2(a), Power2(b - a);
    assert n == Power2(b) * k;
    MulAssoc(x, y, k);
    DivMod.QuotientUnique(n, x, y * k, 0);
  }

  lemma MulAssoc(x: nat, y: nat, k: nat)
    ensures (x * y) * k == (y * k) * x
  {
    assert (x * y) * k == x * (y * k);
  }

  lemma {:induction false} LargestDividingMeaning(n: nat, e: nat)
    ensures Divides(Power2(LargestDividing(n, e)), n)
    ensures forall k :: LargestDividing(n, e) < k <= e ==> !Divides(Power2(k), n)
  {
    if e > 0 && n % Power2(e) != 0 {
      LargestDividingMeaning(n, e - 1);
    }
  }

  /** Some used partition does not begin on a multiple of 2^k. */
  predicate SomeMisaligned(parts: seq<Part>, k: nat) {
    exists i :: 0 <= i < |parts| && parts[i].IsUsed() && !Divides(Power2(k), parts[i].firstLBA)
  }

  /** ComputeAlignment's exponent is the greatest one up to the cap whose power of two divides
      the first sector of every used partition. */
  lemma {:induction false} GreatestExponentMeaning(parts: seq<Part>, top: nat)
    ensures forall i :: 0 <= i < |parts| && parts[i].IsUsed() ==>
      Divides(Power2(GreatestExponent(parts, top)), parts[i].firstLBA)
    ensures forall k :: GreatestExponent(parts, top) < k <= top ==> SomeMisaligned(parts, k)
  {
    hide Power2, LargestDividing, Divides;
    if parts != [] {
      var n := |parts| - 1;
      var front, last := parts[..n], parts[n];
      var before, after := GreatestExponent(front, top), GreatestExponent(parts, top);
      GreatestExponentMeaning(front, top);
      if last.IsUsed() {
        LargestDividingMeaning(last.firstLBA, before);
      }
      forall i | 0 <= i < n && parts[i].IsUsed()
        ensures Divides(Power2(after), parts[i].firstLBA)
      {
        assert front[i] == parts[i];
        SmallerPowerDivides(parts[i].firstLBA, after, before);
      }
      forall k | after < k <= top
        ensures SomeMisaligned(parts, k)
      {
        if k <= before {
          assert parts[n].IsUsed() && !Divides(Power2(k), parts[n].firstLBA);
        } else {
          assert SomeMisaligned(front, k);
          var i :| 0 <= i < n && front[i].IsUsed() && !Divides(Power2(k), front[i].firstLBA);
          assert parts[i] == front[i];
        }
      }
    }
  }
}
