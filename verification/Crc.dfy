/**
 The page checksum (crc32 in src/Pager.cpp) on 32-bit registers, bit 0 least significant. The
 table-driven loop computes the bit-serial CRC-32 of section 8 of RFC 1952, and since the register
 step is linear and loses nothing, no change confined to 32 consecutive bits goes unnoticed.
 */
module Crc {
  import opened BitMath

  type Bits = seq<bool>
  type Word = w: Bits | |w| == 32 witness BitsOf(0, 32)

  /** The k low bits of a number, least significant first. */
  function BitsOf(n: nat, k: nat): Bits {
    seq(k, i requires 0 <= i < k => Bit(n, i) == 1)
  }

  function IntOf(bits: Bits): nat {
    if bits == [] then 0 else (if bits[0] then 1 else 0) + 2 * IntOf(bits[1..])
  }

  const POLYNOMIAL: Word := BitsOf(0xEDB88320, 32)
  const ONES: Word := BitsOf(0xFFFFFFFF, 32)

  function Xor(a: Word, b: Word): Word {
    seq(32, i requires 0 <= i < 32 => a[i] != b[i])
  }

  /** The value moved down by n bits, zeros coming in at the top. */
  function Down(c: Word, n: nat): Word
    requires n <= 32
  {
    seq(32, i requires 0 <= i < 32 => i + n < 32 && c[i + n])
  }

  /** Up to 32 bits in the low end of a word. */
  function Pad(m: Bits): Word
    requires |m| <= 32
  {
    seq(32, i requires 0 <= i < 32 => i < |m| && m[i])
  }

  /** The register moves down by one bit, taking the polynomial in if a one falls out. */
  function Shift(c: Word): Word {
    if c[0] then Xor(POLYNOMIAL, Down(c, 1)) else Down(c, 1)
  }

  function Shifts(c: Word, n: nat): Word
    decreases n
  {
    if n == 0 then c else Shifts(Shift(c), n - 1)
  }

  // ----- the bit-serial definition -----

  function BitStep(c: Word, bit: bool): Word {
    Shift(c[0 := c[0] != bit])
  }

  function Feed(c: Word, bits: Bits): Word
    decreases |bits|
  {
    if bits == [] then c else Feed(BitStep(c, bits[0]), bits[1..])
  }

  /** The bits of a message: byte by byte, least significant bit first. */
  function Message(data: seq<Byte>): Bits {
    if data == [] then [] else Message(data[..|data| - 1]) + BitsOf(data[|data| - 1], 8)
  }

  function Crc32(data: seq<Byte>): Word {
    Xor(Feed(ONES, Message(data)), ONES)
  }

  // ----- numbers and bits -----

  lemma {:induction false} IntOfBitsOf(n: nat, k: nat)
    requires n < Pow2(k)
    ensures IntOf(BitsOf(n, k)) == n
    decreases k
  {
    if k > 0 {
      IntOfBitsOf(n / 2, k - 1);
      assert BitsOf(n, k)[1..] == BitsOf(n / 2, k - 1);
      assert BitsOf(n, k)[0] == (n % 2 == 1);
    }
  }

  lemma {:induction false} BitsOfIntOf(bits: Bits)
    ensures BitsOf(IntOf(bits), |bits|) == bits && IntOf(bits) < Pow2(|bits|)
  {
    if bits != [] {
      BitsOfIntOf(bits[1..]);
      var n := IntOf(bits);
      assert n / 2 == IntOf(bits[1..]);
      forall i | 0 <= i < |bits| ensures BitsOf(n, |bits|)[i] == bits[i] {
        assert i > 0 ==> BitsOf(n / 2, |bits| - 1)[i - 1] == bits[1..][i - 1];
      }
    }
  }

  lemma Pow2Of8()
    ensures Pow2(8) == 256
  {
  }

  lemma {:induction false} Pow2Sum(a: nat, b: nat)
    ensures Pow2(a + b) == Pow2(a) * Pow2(b)
    decreases b
  {
    if b > 0 {
      Pow2Sum(a, b - 1);
      assert Pow2(a) * (2 * Pow2(b - 1)) == 2 * (Pow2(a) * Pow2(b - 1));
    }
  }

  lemma {:induction false} TopBit(n: nat, k: nat)
    requires Pow2(k) <= n < Pow2(k + 1)
    ensures Bit(n, k) == 1
    decreases k
  {
    if k > 0 {
      TopBit(n / 2, k - 1);
    }
  }

  /** The polynomial has its top bit set. */
  lemma TopBitSet()
    ensures POLYNOMIAL[31]
  {
    Pow2Of8();
    Pow2Sum(8, 8);
    Pow2Sum(16, 16);
    assert Pow2(32) == 2 * Pow2(31);
    TopBit(0xEDB88320, 31);
  }

  // ----- the shift is linear and loses nothing -----

  lemma ShiftAt(c: Word, i: nat)
    requires i < 32
    ensures Shift(c)[i] == ((i < 31 && c[i + 1]) != (c[0] && POLYNOMIAL[i]))
  {
  }

  lemma ShiftLinear(a: Word, b: Word)
    ensures Shift(Xor(a, b)) == Xor(Shift(a), Shift(b))
  {
    forall i | 0 <= i < 32 ensures Shift(Xor(a, b))[i] == Xor(Shift(a), Shift(b))[i] {
      ShiftAt(a, i);
      ShiftAt(b, i);
      ShiftAt(Xor(a, b), i);
    }
  }

  lemma {:induction false} ShiftsLinear(a: Word, b: Word, n: nat)
    ensures Shifts(Xor(a, b), n) == Xor(Shifts(a, n), Shifts(b, n))
    decreases n
  {
    if n > 0 {
      ShiftLinear(a, b);
      ShiftsLinear(Shift(a), Shift(b), n - 1);
    }
  }

  lemma ShiftInjective(a: Word, b: Word)
    requires Shift(a) == Shift(b)
    ensures a == b
  {
    TopBitSet();
    ShiftAt(a, 31);
    ShiftAt(b, 31);
    forall i | 0 <= i < 32 ensures a[i] == b[i] {
      if i > 0 {
        ShiftAt(a, i - 1);
        ShiftAt(b, i - 1);
      }
    }
  }

  lemma {:induction false} ShiftsInjective(a: Word, b: Word, n: nat)
    requires Shifts(a, n) == Shifts(b, n)
    ensures a == b
    decreases n
  {
    if n > 0 {
      ShiftsInjective(Shift(a), Shift(b), n - 1);
      ShiftInjective(a, b);
    }
  }

  /** A register whose n low bits are zero just moves down by n. */
  lemma {:induction false} ShiftsDown(c: Word, n: nat)
    requires n <= 32 && forall i :: 0 <= i < n ==> !c[i]
    ensures Shifts(c, n) == Down(c, n)
    decreases n
  {
    if n == 0 {
      assert Down(c, 0) == c;
    } else {
      ShiftsDown(Shift(c), n - 1);
      assert Down(Down(c, 1), n - 1) == Down(c, n);
    }
  }

  // ----- many bits at once -----

  lemma {:induction false} FeedConcat(c: Word, a: Bits, b: Bits)
    ensures Feed(c, a + b) == Feed(Feed(c, a), b)
    decreases |a|
  {
    if a == [] {
      assert a + b == b;
    } else {
      FeedConcat(BitStep(c, a[0]), a[1..], b);
      assert (a + b)[1..] == a[1..] + b;
    }
  }

  /** The first bit goes in and the rest of the mixed-in bits move down. */
  lemma BitIn(c: Word, m: Bits)
    requires 0 < |m| <= 32
    ensures Shift(Xor(c, Pad(m))) == Xor(BitStep(c, m[0]), Pad(m[1..]))
  {
    var x, y := Xor(c, Pad(m)), c[0 := c[0] != m[0]];
    forall i | 0 <= i < 32 ensures Shift(x)[i] == Xor(Shift(y), Pad(m[1..]))[i] {
      ShiftAt(x, i);
      ShiftAt(y, i);
    }
  }

  /** Feeding up to 32 bits one by one is mixing them in together and shifting as often. */
  lemma {:induction false} FeedTogether(c: Word, m: Bits)
    requires |m| <= 32
    ensures Feed(c, m) == Shifts(Xor(c, Pad(m)), |m|)
    decreases |m|
  {
    if m == [] {
      assert Xor(c, Pad(m)) == c;
    } else {
      FeedTogether(BitStep(c, m[0]), m[1..]);
      BitIn(c, m);
    }
  }

  /** The table step: the low byte selects an entry, the rest of the register moves down. */
  lemma TableStep(c: Word, b: Bits)
    requires |b| == 8
    ensures Xor(Shifts(Pad(Xor(c, Pad(b))[..8]), 8), Down(c, 8)) == Feed(c, b)
  {
    var x := Xor(c, Pad(b));
    var low := Pad(x[..8]);
    var high: Word := seq(32, i requires 0 <= i < 32 => i >= 8 && x[i]);
    assert x == Xor(low, high);
    FeedTogether(c, b);
    ShiftsLinear(low, high, 8);
    ShiftsDown(high, 8);
    assert Down(high, 8) == Down(c, 8);
  }

  // ----- the code -----

  lemma ShiftsStep(c: Word, n: nat)
    requires n > 0
    ensures Shifts(c, n) == Shifts(Shift(c), n - 1)
  {
  }

  lemma NoShift(c: Word)
    ensures Shifts(c, 0) == c
  {
  }

  method BuildTable() returns (table: seq<Word>)
    ensures |table| == 256 && forall i :: 0 <= i < 256 ==> table[i] == Shifts(Pad(BitsOf(i, 8)), 8)
  {
    hide Shifts, Pad, Xor, Down;
    table := [];
    var i := 0;
    while i < 256
      invariant i == |table| <= 256
      invariant forall k :: 0 <= k < i ==> table[k] == Shifts(Pad(BitsOf(k, 8)), 8)
    {
      var c := Pad(BitsOf(i, 8));
      var j := 0;
      while j < 8
        invariant j <= 8 && Shifts(c, 8 - j) == Shifts(Pad(BitsOf(i, 8)), 8)
      {
        ShiftsStep(c, 8 - j);
        c := if c[0] then Xor(POLYNOMIAL, Down(c, 1)) else Down(c, 1);
        j := j + 1;
      }
      NoShift(c);
      table := table + [c];
      i := i + 1;
    }
  }

  /** The checksum loop of the pager computes the bit-serial CRC. */
  method ComputeCrc32(data: seq<Byte>) returns (r: Word)
    ensures r == Crc32(data)
  {
    var table := BuildTable();
    var crc := ONES;
    var i := 0;
    while i < |data|
      invariant i <= |data| && crc == Feed(ONES, Message(data[..i]))
    {
      assert data[..i + 1][..i] == data[..i];
      var b := BitsOf(data[i], 8);
      var index := Xor(crc, Pad(b))[..8];
      BitsOfIntOf(index);
      Pow2Of8();
      TableStep(crc, b);
      FeedConcat(ONES, Message(data[..i]), b);
      crc := Xor(table[IntOf(index)], Down(crc, 8));
      i := i + 1;
    }
    assert data[..|data|] == data;
    r := Xor(crc, ONES);
  }

  // ----- error detection -----

  lemma FlipInjective(c: Word, d: Word, bit: bool)
    requires c[0 := c[0] != bit] == d[0 := d[0] != bit]
    ensures c == d
  {
    var c', d' := c[0 := c[0] != bit], d[0 := d[0] != bit];
    forall i | 0 <= i < 32 ensures c[i] == d[i] {
      assert c'[i] == d'[i];
    }
  }

  lemma BitStepKeepsDifference(c: Word, d: Word, bit: bool)
    requires c != d
    ensures BitStep(c, bit) != BitStep(d, bit)
  {
    var c', d' := c[0 := c[0] != bit], d[0 := d[0] != bit];
    if BitStep(c, bit) == BitStep(d, bit) {
      ShiftInjective(c', d');
      FlipInjective(c, d, bit);
    }
  }

  lemma {:induction false} TailKeepsDifference(c: Word, d: Word, tail: Bits)
    requires c != d
    ensures Feed(c, tail) != Feed(d, tail)
    decreases |tail|
  {
    if tail != [] {
      BitStepKeepsDifference(c, d, tail[0]);
      TailKeepsDifference(BitStep(c, tail[0]), BitStep(d, tail[0]), tail[1..]);
    }
  }

  lemma XorCancels(c: Word, a: Word, b: Word)
    requires Xor(c, a) == Xor(c, b)
    ensures a == b
  {
    forall i | 0 <= i < 32 ensures a[i] == b[i] {
      assert Xor(c, a)[i] == Xor(c, b)[i];
    }
  }

  lemma PadInjective(m: Bits, m': Bits)
    requires |m| == |m'| <= 32 && Pad(m) == Pad(m')
    ensures m == m'
  {
    forall i | 0 <= i < |m| ensures m[i] == m'[i] {
      assert Pad(m)[i] == Pad(m')[i];
    }
  }

  /** Two bit strings that differ only inside a window of 32 bits leave different registers. */
  lemma BurstDetected(head: Bits, m: Bits, m': Bits, tail: Bits)
    requires |m| == |m'| <= 32 && m != m'
    ensures Feed(ONES, head + m + tail) != Feed(ONES, head + m' + tail)
  {
    var c := Feed(ONES, head);
    FeedConcat(ONES, head, m);
    FeedConcat(ONES, head, m');
    FeedTogether(c, m);
    FeedTogether(c, m');
    if Feed(c, m) == Feed(c, m') {
      ShiftsInjective(Xor(c, Pad(m)), Xor(c, Pad(m')), |m|);
      XorCancels(c, Pad(m), Pad(m'));
      PadInjective(m, m');
    }
    TailKeepsDifference(Feed(c, m), Feed(c, m'), tail);
    FeedConcat(ONES, head + m, tail);
    FeedConcat(ONES, head + m', tail);
  }

  lemma {:induction false} MessageConcat(a: seq<Byte>, b: seq<Byte>)
    ensures Message(a + b) == Message(a) + Message(b)
    decreases |b|
  {
    hide BitsOf;
    if b == [] {
      assert a + b == a;
    } else {
      MessageConcat(a, b[..|b| - 1]);
      assert (a + b)[..|a + b| - 1] == a + b[..|b| - 1];
    }
  }

  lemma {:induction false} MessageInjective(a: seq<Byte>, b: seq<Byte>)
    requires |a| == |b| && Message(a) == Message(b)
    ensures a == b
  {
    if a != [] {
      var n := |a| - 1;
      MessageLength(a[..n]);
      MessageLength(b[..n]);
      var x, y := Message(a), Message(b);
      assert x[..8 * n] == Message(a[..n]) && y[..8 * n] == Message(b[..n]);
      assert x[8 * n..] == BitsOf(a[n], 8) && y[8 * n..] == BitsOf(b[n], 8);
      MessageInjective(a[..n], b[..n]);
      Pow2Of8();
      IntOfBitsOf(a[n], 8);
      IntOfBitsOf(b[n], 8);
      assert a == a[..n] + [a[n]] && b == b[..n] + [b[n]];
    }
  }

  lemma {:induction false} MessageLength(a: seq<Byte>)
    ensures |Message(a)| == 8 * |a|
  {
    if a != [] {
      MessageLength(a[..|a| - 1]);
    }
  }

  /** Changing any of up to four consecutive bytes changes the checksum. */
  lemma WindowChangeDetected(head: seq<Byte>, m: seq<Byte>, m': seq<Byte>, tail: seq<Byte>)
    requires |m| == |m'| <= 4 && m != m'
    ensures Crc32(head + m + tail) != Crc32(head + m' + tail)
  {
    MessageConcat(head + m, tail);
    MessageConcat(head, m);
    MessageConcat(head + m', tail);
    MessageConcat(head, m');
    MessageLength(m);
    MessageLength(m');
    if Message(m) == Message(m') {
      MessageInjective(m, m');
    }
    BurstDetected(Message(head), Message(m), Message(m'), Message(tail));
    var r, r' := Feed(ONES, Message(head + m + tail)), Feed(ONES, Message(head + m' + tail));
    if Xor(r, ONES) == Xor(r', ONES) {
      assert Xor(ONES, r) == Xor(r, ONES) && Xor(ONES, r') == Xor(r', ONES);
      XorCancels(ONES, r, r');
    }
  }

  // ----- a check value -----

  /** The word whose k low bits are set. */
  function Low(k: nat): Word {
    seq(32, i requires 0 <= i < 32 => i < k)
  }

  function Ones(k: nat): Bits {
    seq(k, _ => true)
  }

  lemma {:induction false} ComplementBits(n: nat, k: nat, i: nat)
    requires n < Pow2(k) && i < k
    ensures Bit(Pow2(k) - 1 - n, i) == 1 - Bit(n, i)
    decreases k
  {
    if i > 0 {
      ComplementBits(n / 2, k - 1, i - 1);
      assert (Pow2(k) - 1 - n) / 2 == Pow2(k - 1) - 1 - n / 2;
    }
  }

  lemma {:induction false} ZeroBits(i: nat)
    ensures Bit(0, i) == 0
    decreases i
  {
    if i > 0 {
      ZeroBits(i - 1);
    }
  }

  lemma OnesLow()
    ensures ONES == Low(32) && forall w: Word :: forall i :: 0 <= i < 32 ==> Xor(w, ONES)[i] == !w[i]
  {
    Pow2Of32();
    forall i: nat | i < 32 ensures ONES[i] {
      ZeroBits(i);
      ComplementBits(0, 32, i);
    }
  }

  lemma Pow2Of32()
    ensures Pow2(32) == 0x1_0000_0000
  {
    Pow2Of8();
    Pow2Sum(8, 8);
    Pow2Sum(16, 16);
  }

  lemma {:induction false} FeedOnes(k: nat)
    requires k <= 32
    ensures Feed(Low(k), Ones(k)) == Low(0)
    decreases k
  {
    if k > 0 {
      assert BitStep(Low(k), true) == Low(k - 1);
      assert Ones(k)[1..] == Ones(k - 1);
      FeedOnes(k - 1);
    }
  }

  lemma {:induction false} FeedZerosAndOne(bits: Bits, k: nat)
    requires |bits| == k + 1 && bits[k] && forall i :: 0 <= i < k ==> !bits[i]
    ensures Feed(Low(0), bits) == POLYNOMIAL
    decreases k
  {
    if k > 0 {
      assert BitStep(Low(0), false) == Low(0);
      FeedZerosAndOne(bits[1..], k - 1);
    } else {
      assert BitStep(Low(0), true) == POLYNOMIAL;
      assert bits[1..] == [];
    }
  }

  lemma {:induction false} OnesMessage(n: nat)
    ensures Message(seq(n, _ => 0xFF)) == Ones(8 * n)
  {
    if n > 0 {
      OnesMessage(n - 1);
      var data: seq<Byte> := seq(n, _ => 0xFF);
      assert data[..n - 1] == seq(n - 1, _ => 0xFF);
      Pow2Of8();
      forall i: nat | i < 8 ensures BitsOf(0xFF, 8)[i] {
        ZeroBits(i);
        ComplementBits(0, 8, i);
      }
      assert Message(data) == Ones(8 * (n - 1)) + BitsOf(0xFF, 8);
    }
  }

  /** The CRC-32 of the bytes FF FF FF FF 80 is 12477CDF. */
  lemma CheckValue()
    ensures Crc32([0xFF, 0xFF, 0xFF, 0xFF, 0x80]) == BitsOf(0x12477CDF, 32)
  {
    hide Feed, Message, Xor;
    var data: seq<Byte> := [0xFF, 0xFF, 0xFF, 0xFF];
    assert data + [0x80] == [0xFF, 0xFF, 0xFF, 0xFF, 0x80];
    assert data == seq(4, _ => 0xFF);
    OnesMessage(4);
    MessageConcat(data, [0x80]);
    LastByte();
    FeedConcat(ONES, Ones(32), Message([0x80]));
    OnesLow();
    FeedOnes(32);
    FeedZerosAndOne(Message([0x80]), 7);
    Pow2Of32();
    forall i: nat | i < 32 ensures Xor(POLYNOMIAL, ONES)[i] == BitsOf(0x12477CDF, 32)[i] {
      ComplementBits(0xEDB88320, 32, i);
    }
    assert Xor(POLYNOMIAL, ONES) == BitsOf(0x12477CDF, 32);
  }

  lemma LastByte()
    ensures var bits := Message([0x80]); |bits| == 8 && bits[7] && forall i :: 0 <= i < 7 ==> !bits[i]
  {
    MessageOfOne(0x80);
    assert Pow2(7) == 128;
    forall i: nat | i < 8 ensures BitsOf(0x80, 8)[i] == (i == 7) {
      Pow2Bits(7, i);
    }
  }

  lemma MessageOfOne(b: Byte)
    ensures Message([b]) == BitsOf(b, 8)
  {
    assert [b][..0] == [];
    assert Message([b][..0]) == [];
  }

  lemma {:induction false} Pow2Bits(k: nat, i: nat)
    requires i <= k
    ensures Bit(Pow2(k), i) == if i == k then 1 else 0
    decreases k
  {
    if k > 0 {
      Twice(Pow2(k - 1), i);
      if i > 0 {
        Pow2Bits(k - 1, i - 1);
      }
    }
  }

  lemma Twice(n: nat, i: nat)
    ensures Bit(2 * n, i) == if i == 0 then 0 else Bit(n, i - 1)
  {
    assert 2 * n / 2 == n;
  }
}
