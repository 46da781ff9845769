/** The CRC-32 of gdisk/crc32.cc: a 256-entry table drives the checksum byte by byte.
    Words are bit strings, least significant bit first.  The reference definition feeds the
    message through a one-bit shift register; the table-driven form is proved equal to it,
    and the register is proved to tell apart any two equally long messages that differ only
    inside one 32-bit window. */
module Crc32 {

  type Word = w: seq<bool> | |w| == 32 witness seq(32, i => false)

  // ---------- numbers and bit strings ----------

  /** The low n bits of a number, least significant first. */
  function Bits(number: nat, n: nat): (bits: seq<bool>)
    ensures |bits| == n
    decreases n
  {
    if n == 0 then [] else [number % 2 == 1] + Bits(number / 2, n - 1)
  }

  function Number(bits: seq<bool>): (number: nat) {
    if bits == [] then 0 else (if bits[0] then 1 else 0) + 2 * Number(bits[1..])
  }

  function Zeros(n: nat): (bits: seq<bool>)
    ensures |bits| == n && forall i :: 0 <= i < n ==> !bits[i]
  {
    seq(n, i => false)
  }

  /** A short bit string as a word. */
  function Widen(bits: seq<bool>): (word: Word)
    requires |bits| <= 32
  {
    bits + Zeros(32 - |bits|)
  }

  function Xor(a: Word, b: Word): (c: Word) {
    seq(32, i requires 0 <= i < 32 => a[i] != b[i])
  }

  function ShiftRight(a: Word, n: nat): (b: Word)
    requires n <= 32
  {
    a[n..] + Zeros(n)
  }

  // ---------- the reference: a one-bit shift register ----------

  // The generator polynomial, bit-reversed as in section 8 of RFC 1952.
  // 0xEDB88320, written one byte at a time, least significant byte first.
  const POLYNOMIAL: Word := Bits(0x20, 8) + Bits(0x83, 8) + Bits(0xB8, 8) + Bits(0xED, 8)
  const ONES: Word := Bits(0xFF, 8) + Bits(0xFF, 8) + Bits(0xFF, 8) + Bits(0xFF, 8)

  /** One clock of the shift register with no input. */
  function Shift(register: Word): (next: Word) {
    if register[0] then Xor(ShiftRight(register, 1), POLYNOMIAL) else ShiftRight(register, 1)
  }

  /** n clocks of the register with no input. */
  function Clock(register: Word, n: nat): (next: Word)
    decreases n
  {
    if n == 0 then register else Clock(Shift(register), n - 1)
  }

  /** One clock of the register with one message bit fed in. */
  function Feed(register: Word, bit: bool): (next: Word) {
    Shift(Xor(register, Widen([bit])))
  }

  /** The register after a whole bit string has been fed in. */
  function FeedAll(register: Word, bits: seq<bool>): (next: Word)
    decreases bits
  {
    if bits == [] then register else FeedAll(Feed(register, bits[0]), bits[1..])
  }

  type Byte = b: int | 0 <= b < 256

  /** A message as the bit string the register sees. */
  function BitsOf(message: seq<Byte>): (bits: seq<bool>)
    ensures |bits| == 8 * |message|
  {
    if message == [] then [] else Bits(message[0], 8) + BitsOf(message[1..])
  }

  /** Reference checksum: preset to ones, feed every bit, complement. */
  function Checksum(message: seq<Byte>): (crc: nat) {
    Number(Xor(FeedAll(ONES, BitsOf(message)), ONES))
  }

  // ---------- numbers and bit strings are two views of one thing ----------

  lemma {:induction false} NumberOfBits(number: nat, n: nat, limit: nat)
    requires number < limit && limit == Power2(n)
    ensures Number(Bits(number, n)) == number
    decreases n
  {
    if n > 0 {
      NumberOfBits(number / 2, n - 1, limit / 2);
      assert Bits(number, n)[1..] == Bits(number / 2, n - 1);
    }
  }

  function Power2(n: nat): (p: nat)
    ensures p > 0
  {
    if n == 0 then 1 else 2 * Power2(n - 1)
  }

  lemma {:induction false} NumberBelow(bits: seq<bool>)
    ensures Number(bits) < Power2(|bits|)
  {
    if bits != [] {
      NumberBelow(bits[1..]);
    }
  }

  lemma {:induction false} BitsOfNumber(bits: seq<bool>)
    ensures Bits(Number(bits), |bits|) == bits
  {
    if bits != [] {
      BitsOfNumber(bits[1..]);
      assert bits == [bits[0]] + bits[1..];
      assert Number(bits) / 2 == Number(bits[1..]);
    }
  }

  lemma NumberInjective(a: seq<bool>, b: seq<bool>)
    requires |a| == |b| && Number(a) == Number(b)
    ensures a == b
  {
    BitsOfNumber(a);
    BitsOfNumber(b);
  }

  // ---------- the register is linear and reversible ----------

  lemma ShiftLinear(a: Word, b: Word)
    ensures Shift(Xor(a, b)) == Xor(Shift(a), Shift(b))
  {
    assert ShiftRight(Xor(a, b), 1) == Xor(ShiftRight(a, 1), ShiftRight(b, 1));
  }

  lemma {:induction false} ClockLinear(a: Word, b: Word, n: nat)
    ensures Clock(Xor(a, b), n) == Xor(Clock(a, n), Clock(b, n))
    decreases n
  {
    if n > 0 {
      ShiftLinear(a, b);
      ClockLinear(Shift(a), Shift(b), n - 1);
    }
  }

  lemma PolynomialTopTap()
    ensures POLYNOMIAL[31]
  {
    assert Bits(0xED, 8)[3..] == Bits(0x1D, 5);
    assert Bits(0x1D, 5)[4];
  }

  /** The last bit out of the register tells whether the polynomial was added, so a clock
      loses nothing. */
  lemma ShiftInjective(a: Word, b: Word)
    requires Shift(a) == Shift(b)
    ensures a == b
  {
    hide Bits;
    PolynomialTopTap();
    assert Shift(a)[31] == a[0] && Shift(b)[31] == b[0];
    forall i | 1 <= i < 32
      ensures a[i] == b[i]
    {
      assert Shift(a)[i - 1] == (a[i] != (a[0] && POLYNOMIAL[i - 1]));
      assert Shift(b)[i - 1] == (b[i] != (b[0] && POLYNOMIAL[i - 1]));
    }
  }

  lemma XorInjective(a: Word, b: Word, c: Word)
    requires Xor(a, c) == Xor(b, c) || Xor(c, a) == Xor(c, b)
    ensures a == b
  {
    forall i | 0 <= i < 32
      ensures a[i] == b[i]
    {
      assert Xor(a, c)[i] == (a[i] != c[i]) && Xor(b, c)[i] == (b[i] != c[i]);
      assert Xor(c, a)[i] == (a[i] != c[i]) && Xor(c, b)[i] == (b[i] != c[i]);
    }
  }

  lemma {:induction false} ClockInjective(a: Word, b: Word, n: nat)
    requires Clock(a, n) == Clock(b, n)
    ensures a == b
    decreases n
  {
    if n > 0 {
      ClockInjective(Shift(a), Shift(b), n - 1);
      ShiftInjective(a, b);
    }
  }

  lemma {:induction false} FeedAllInjective(a: Word, b: Word, bits: seq<bool>)
    requires FeedAll(a, bits) == FeedAll(b, bits)
    ensures a == b
    decreases bits
  {
    if bits != [] {
      var bit := Widen([bits[0]]);
      FeedAllInjective(Feed(a, bits[0]), Feed(b, bits[0]), bits[1..]);
      ShiftInjective(Xor(a, bit), Xor(b, bit));
      XorInjective(a, b, bit);
    }
  }

  lemma {:induction false} FeedAllConcat(register: Word, a: seq<bool>, b: seq<bool>)
    ensures FeedAll(register, a + b) == FeedAll(FeedAll(register, a), b)
    decreases a
  {
    if a == [] {
      assert a + b == b;
    } else {
      assert (a + b)[1..] == a[1..] + b;
      FeedAllConcat(Feed(register, a[0]), a[1..], b);
    }
  }

  // ---------- feeding up to 32 bits at once ----------

  /** Feeding bits one at a time equals xor-ing them in at once and clocking. */
  lemma {:induction false} FeedAtOnce(register: Word, bits: seq<bool>)
    requires |bits| <= 32
    ensures FeedAll(register, bits) == Clock(Xor(register, Widen(bits)), |bits|)
    decreases bits
  {
    if bits == [] {
      assert Xor(register, Widen([])) == register;
    } else {
      FeedThenRest(register, bits);
      FeedAtOnce(Feed(register, bits[0]), bits[1..]);
    }
  }

  lemma FeedThenRest(register: Word, bits: seq<bool>)
    requires 0 < |bits| <= 32
    ensures Shift(Xor(register, Widen(bits))) == Xor(Feed(register, bits[0]), Widen(bits[1..]))
  {
    var first, rest := Widen([bits[0]]), Widen([false] + bits[1..]);
    assert Widen(bits) == Xor(first, rest);
    assert Xor(register, Widen(bits)) == Xor(Xor(register, first), rest);
    ShiftLinear(Xor(register, first), rest);
    assert Shift(rest) == ShiftRight(rest, 1) == Widen(bits[1..]);
  }

  lemma WidenInjective(a: seq<bool>, b: seq<bool>)
    requires |a| == |b| <= 32 && Widen(a) == Widen(b)
    ensures a == b
  {
    assert a == Widen(a)[..|a|] && b == Widen(b)[..|a|];
  }

  /** Burst detection: two bit strings that agree before and after a window of at most 32
      bits and differ inside it never leave the register in the same state. */
  lemma BurstDetected(register: Word, before: seq<bool>, a: seq<bool>, b: seq<bool>, after: seq<bool>)
    requires |a| == |b| <= 32 && a != b
    ensures FeedAll(register, before + a + after) != FeedAll(register, before + b + after)
  {
    var start := FeedAll(register, before);
    FeedAllConcat(register, before, a);
    FeedAllConcat(register, before, b);
    FeedAllConcat(register, before + a, after);
    FeedAllConcat(register, before + b, after);
    if FeedAll(register, before + a + after) == FeedAll(register, before + b + after) {
      FeedAllInjective(FeedAll(start, a), FeedAll(start, b), after);
      FeedAtOnce(start, a);
      FeedAtOnce(start, b);
      ClockInjective(Xor(start, Widen(a)), Xor(start, Widen(b)), |a|);
      XorInjective(Widen(a), Widen(b), start);
      WidenInjective(a, b);
    }
  }

  lemma {:induction false} BitsOfConcat(a: seq<Byte>, b: seq<Byte>)
    ensures BitsOf(a + b) == BitsOf(a) + BitsOf(b)
  {
    if a == [] {
      assert a + b == b;
    } else {
      assert (a + b)[1..] == a[1..] + b;
      BitsOfConcat(a[1..], b);
    }
  }

  /** Up to four consecutive bytes may be damaged in any way: the checksum changes. */
  lemma ByteBurstDetected(before: seq<Byte>, a: seq<Byte>, b: seq<Byte>, after: seq<Byte>)
    requires |a| == |b| <= 4 && a != b
    ensures Checksum(before + a + after) != Checksum(before + b + after)
  {
    BitsOfConcat(before, a);
    BitsOfConcat(before, b);
    BitsOfConcat(before + a, after);
    BitsOfConcat(before + b, after);
    BitsOfInjective(a, b);
    var x := FeedAll(ONES, BitsOf(before + a + after));
    var y := FeedAll(ONES, BitsOf(before + b + after));
    BurstDetected(ONES, BitsOf(before), BitsOf(a), BitsOf(b), BitsOf(after));
    if Number(Xor(x, ONES)) == Number(Xor(y, ONES)) {
      NumberInjective(Xor(x, ONES), Xor(y, ONES));
      XorInjective(x, y, ONES);
    }
  }

  lemma {:induction false} BitsOfInjective(a: seq<Byte>, b: seq<Byte>)
    requires |a| == |b|
    ensures BitsOf(a) == BitsOf(b) ==> a == b
  {
    hide Bits;
    if a != [] && BitsOf(a) == BitsOf(b) {
      assert Bits(a[0], 8) == BitsOf(a)[..8] && Bits(b[0], 8) == BitsOf(b)[..8];
      assert BitsOf(a[1..]) == BitsOf(a)[8..] && BitsOf(b[1..]) == BitsOf(b)[8..];
      assert Power2(8) == 256;
      NumberOfBits(a[0], 8, 256);
      NumberOfBits(b[0], 8, 256);
      BitsOfInjective(a[1..], b[1..]);
      assert a == [a[0]] + a[1..] && b == [b[0]] + b[1..];
    }
  }

  // ---------- the table ----------

  /** Clocking a word whose low n bits are clear only moves it down. */
  lemma {:induction false} ClockClear(word: Word, n: nat)
    requires n <= 32 && forall i :: 0 <= i < n ==> !word[i]
    ensures Clock(word, n) == ShiftRight(word, n)
    decreases n
  {
    if n == 0 {
      assert ShiftRight(word, 0) == word;
    } else {
      ClockClear(ShiftRight(word, 1), n - 1);
      assert ShiftRight(ShiftRight(word, 1), n - 1) == ShiftRight(word, n);
    }
  }

  /** Eight clocks: move the word down a byte and add what the lost byte contributes. */
  lemma ClockByte(word: Word)
    ensures Clock(word, 8) == Xor(ShiftRight(word, 8), Clock(Widen(word[..8]), 8))
  {
    var high: Word := Zeros(8) + word[8..];
    assert word == Xor(high, Widen(word[..8]));
    ClockLinear(high, Widen(word[..8]), 8);
    ClockClear(high, 8);
    assert ShiftRight(high, 8) == ShiftRight(word, 8);
  }

  /** What the table must hold. */
  predicate IsTable(table: seq<Word>) {
    |table| == 256 && forall k :: 0 <= k < 256 ==> table[k] == Clock(Bits(k, 32), 8)
  }

  /** chksum_crc32gentab: fill the table. */
  method GenerateTable(table: array<Word>)
    requires table.Length == 256
    modifies table
    ensures IsTable(table[..])
  {
    hide Clock, Bits;
    for i := 0 to 256
      invariant forall k :: 0 <= k < i ==> table[k] == Clock(Bits(k, 32), 8)
    {
      var crc := ClockOut(Bits(i, 32), 8);
      table[i] := crc;
    }
  }

  /** The inner loop of chksum_crc32gentab. */
  method ClockOut(word: Word, clocks: nat) returns (crc: Word)
    ensures crc == Clock(word, clocks)
  {
    crc := word;
    var j := clocks;
    while j > 0
      invariant Clock(crc, j) == Clock(word, clocks)
    {
      if crc[0] {
        crc := Xor(ShiftRight(crc, 1), POLYNOMIAL);
      } else {
        crc := ShiftRight(crc, 1);
      }
      j := j - 1;
    }
  }

  /** The table entry for a byte is the effect of clocking that byte out. */
  lemma TableEntry(table: seq<Word>, low: seq<bool>)
    requires IsTable(table) && |low| == 8
    ensures Number(low) < 256 && table[Number(low)] == Clock(Widen(low), 8)
  {
    NumberBelow(low);
    assert Power2(8) == 256;
    BitsOfNumber(low);
    BitsPadded(Number(low), 8, 32);
  }

  lemma {:induction false} BitsPadded(number: nat, n: nat, m: nat)
    requires n <= m && number < Power2(n)
    ensures Bits(number, m) == Bits(number, n) + Zeros(m - n)
    decreases m
  {
    if n > 0 {
      BitsPadded(number / 2, n - 1, m - 1);
    } else if m > 0 {
      BitsPadded(0, 0, m - 1);
      assert Bits(0, m) == [false] + Zeros(m - 1);
    }
  }

  /** chksum_crc32: fold the table over the message.  The loop's mask of the top byte after
      the shift is part of ShiftRight here, which brings zeros in. */
  method ComputeChecksum(table: array<Word>, block: seq<Byte>) returns (result: nat)
    requires IsTable(table[..])
    ensures result == Checksum(block)
  {
    var crc: Word := ONES;
    for i := 0 to |block|
      invariant FeedAll(crc, BitsOf(block[i..])) == FeedAll(ONES, BitsOf(block))
    {
      var byte := Bits(block[i], 32);
      var mixed := Xor(crc, byte);
      ByteStep(table[..], crc, block[i]);
      assert block[i..][1..] == block[i + 1..];
      FeedAllConcat(crc, Bits(block[i], 8), BitsOf(block[i + 1..]));
      crc := Xor(ShiftRight(crc, 8), table[Number(mixed[..8])]);
    }
    result := Number(Xor(crc, ONES));
  }

  /** One turn of the loop advances the register by eight message bits. */
  lemma ByteStep(table: seq<Word>, crc: Word, byte: Byte)
    requires IsTable(table)
    ensures
      var low := Xor(crc, Bits(byte, 32))[..8];
      && Number(low) < 256
      && FeedAll(crc, Bits(byte, 8)) == Xor(ShiftRight(crc, 8), table[Number(low)])
  {
    hide Bits, Clock, FeedAll;
    var mixed := Xor(crc, Bits(byte, 32));
    assert Power2(8) == 256;
    BitsPadded(byte, 8, 32);
    TableEntry(table, mixed[..8]);
    FeedAtOnce(crc, Bits(byte, 8));
    ClockByte(mixed);
    assert ShiftRight(mixed, 8) == ShiftRight(crc, 8);
  }

  // ---------- check values ----------

  lemma {:induction false} NumberConcat(a: seq<bool>, b: seq<bool>)
    ensures Number(a + b) == Number(a) + Power2(|a|) * Number(b)
  {
    if a == [] {
      assert a + b == b;
    } else {
      assert (a + b)[1..] == a[1..] + b;
      NumberConcat(a[1..], b);
      Doubled(Power2(|a| - 1), Number(b));
    }
  }

  lemma Doubled(p: nat, x: nat)
    ensures 2 * p * x == 2 * (p * x)
  {}

  /** A bit string and its complement add up to all ones. */
  lemma {:induction false} NumberComplement(a: seq<bool>, b: seq<bool>)
    requires |a| == |b| && forall i :: 0 <= i < |a| ==> b[i] == !a[i]
    ensures Number(a) + Number(b) == Power2(|a|) - 1
  {
    if a != [] {
      NumberComplement(a[1..], b[1..]);
    }
  }

  lemma {:induction false} OnesBits(number: nat, n: nat)
    requires number == Power2(n) - 1
    ensures forall i :: 0 <= i < n ==> Bits(number, n)[i]
    decreases n
  {
    if n > 0 {
      assert number / 2 == Power2(n - 1) - 1 && number % 2 == 1;
      OnesBits(number / 2, n - 1);
    }
  }

  lemma Powers()
    ensures Power2(7) == 0x80 && Power2(8) == 0x100 && Power2(16) == 0x1_0000 && Power2(24) == 0x100_0000
    ensures Power2(32) == 0x1_0000_0000
  {
    assert Power2(16) == 256 * Power2(8);
    assert Power2(24) == 256 * Power2(16);
    assert Power2(32) == 256 * Power2(24);
  }

  lemma AllOnes()
    ensures forall i :: 0 <= i < 32 ==> ONES[i]
    ensures forall i :: 0 <= i < 8 ==> Bits(0xFF, 8)[i]
    ensures Bits(0x7F, 8) == Bits(0xFF, 8)[..7] + [false]
  {
    hide Bits;
    Powers();
    OnesBits(0xFF, 8);
    OnesBits(0x7F, 7);
    BitsPadded(0x7F, 7, 8);
  }

  /** The generator polynomial as a number. */
  lemma PolynomialNumber()
    ensures Number(POLYNOMIAL) == 0xEDB8_8320
  {
    hide Bits, Number, Power2;
    var a, b, c, d := Bits(0x20, 8), Bits(0x83, 8), Bits(0xB8, 8), Bits(0xED, 8);
    Powers();
    NumberOfBits(0x20, 8, 256);
    NumberOfBits(0x83, 8, 256);
    NumberOfBits(0xB8, 8, 256);
    NumberOfBits(0xED, 8, 256);
    NumberConcat(a, b);
    NumberConcat(a + b, c);
    NumberConcat(a + b + c, d);
  }

  /** Four bytes enter the register at once. */
  lemma FourBytesFed(message: seq<Byte>)
    requires |message| == 4
    ensures Checksum(message) == Number(Xor(Clock(Xor(ONES, BitsOf(message)), 32), ONES))
  {
    hide Bits, Number, FeedAll, Clock;
    FeedAtOnce(ONES, BitsOf(message));
    assert Widen(BitsOf(message)) == BitsOf(message);
  }

  lemma BitsOfFour(a: Byte, b: Byte, c: Byte, d: Byte)
    ensures BitsOf([a, b, c, d]) == Bits(a, 8) + Bits(b, 8) + Bits(c, 8) + Bits(d, 8)
  {
    hide Bits;
    BitsOfConcat([a, b, c], [d]);
    BitsOfConcat([a, b], [c]);
    BitsOfConcat([a], [b]);
    assert [a, b, c, d] == [a, b, c] + [d] && [a, b, c] == [a, b] + [c] && [a, b] == [a] + [b];
    forall x: Byte
      ensures BitsOf([x]) == Bits(x, 8)
    {
      assert [x][1..] == [];
    }
  }

  /** Four bytes of ones cancel the preset: their checksum is the final complement alone. */
  lemma CheckPreset()
    ensures Checksum([255, 255, 255, 255]) == 0xFFFF_FFFF
  {
    hide Bits, Number, BitsOf, Clock;
    FourBytesFed([255, 255, 255, 255]);
    BitsOfFour(255, 255, 255, 255);
    AllOnes();
    var zero := Zeros(32);
    assert Xor(ONES, BitsOf([255, 255, 255, 255])) == zero;
    ClockClear(zero, 32);
    assert ShiftRight(zero, 32) == zero;
    NumberComplement(zero, Xor(zero, ONES));
    NumberOfZeros(32);
    Powers();
  }

  lemma {:induction false} NumberOfZeros(n: nat)
    ensures Number(Zeros(n)) == 0
  {
    if n > 0 {
      assert Zeros(n)[1..] == Zeros(n - 1);
      NumberOfZeros(n - 1);
    }
  }

  /** With the last bit cleared, one bit goes through the whole register and leaves the polynomial. */
  lemma CheckPolynomial()
    ensures Checksum([255, 255, 255, 127]) == 0x1247_7CDF
  {
    hide Bits, Number, BitsOf, Clock, FeedAll;
    FourBytesFed([255, 255, 255, 127]);
    BitsOfFour(255, 255, 255, 127);
    AllOnes();
    var top: Word := Zeros(31) + [true];
    assert Xor(ONES, BitsOf([255, 255, 255, 127])) == top;
    OneBitThrough(top);
    NumberComplement(POLYNOMIAL, Xor(POLYNOMIAL, ONES));
    PolynomialNumber();
    Powers();
  }

  lemma OneBitThrough(top: Word)
    requires top == Zeros(31) + [true]
    ensures Clock(top, 32) == POLYNOMIAL
  {
    hide Bits;
    ClockClear(top, 31);
    ClockMore(top, 31);
    var one := ShiftRight(top, 31);
    assert one[0] && ShiftRight(one, 1) == Zeros(32);
    assert Xor(Zeros(32), POLYNOMIAL) == POLYNOMIAL;
  }

  lemma {:induction false} ClockMore(word: Word, n: nat)
    ensures Clock(word, n + 1) == Shift(Clock(word, n))
    decreases n
  {
    hide Shift;
    if n > 0 {
      ClockMore(Shift(word), n - 1);
    } else {
      assert Clock(word, 1) == Clock(Shift(word), 0);
    }
  }
}
