/** Bytes, powers of two and bitwise exclusive-or on page numbers. */
module BitMath {

  type Byte = b: nat | b < 256

  function Pow2(k: nat): (r: nat)
    ensures r >= 1
  {
    if k == 0 then 1 else 2 * Pow2(k - 1)
  }

  /** Bitwise exclusive-or, bit by bit from the low end. */
  function Xor(a: nat, b: nat): (r: nat)
    ensures r % 2 == (a + b) % 2
    decreases a + b
  {
    if a == 0 && b == 0 then 0
    else
      var high, low := Xor(a / 2, b / 2), if a % 2 == b % 2 then 0 else 1;
      EvenPlus(high, low);
      EvenPlus(a / 2 + b / 2, a % 2 + b % 2);
      2 * high + low
  }

  lemma EvenPlus(k: int, r: int)
    ensures (2 * k + r) % 2 == r % 2
  {
  }

  /** The bit of weight 2^k in x. */
  function Bit(x: nat, k: nat): (b: nat)
    ensures b < 2
  {
    if k == 0 then x % 2 else Bit(x / 2, k - 1)
  }

  /** The smallest k with 2^k >= n. */
  function ClassFor(n: nat): nat {
    if n <= 1 then 0 else 1 + ClassFor((n + 1) / 2)
  }

  predicate IsPowerOfTwo(n: nat) {
    n == Pow2(ClassFor(n))
  }

  lemma {:induction false} ClassForLeast(n: nat)
    requires n > 0
    ensures Pow2(ClassFor(n)) >= n
    ensures ClassFor(n) > 0 ==> Pow2(ClassFor(n) - 1) < n
  {
    if n > 1 {
      ClassForLeast((n + 1) / 2);
    }
  }

  lemma {:induction false} Pow2Monotone(j: nat, k: nat)
    requires j <= k
    ensures Pow2(j) <= Pow2(k)
  {
    if j < k {
      Pow2Monotone(j, k - 1);
    }
  }

  lemma {:induction false} XorZero(a: nat)
    ensures Xor(a, 0) == a
  {
    if a > 0 {
      XorZero(a / 2);
    }
  }

  lemma {:induction false} XorInvolution(a: nat, b: nat)
    ensures Xor(Xor(a, b), b) == a
    decreases a + b
  {
    if a != 0 || b != 0 {
      XorInvolution(a / 2, b / 2);
      var x := Xor(a, b);
      assert x / 2 == Xor(a / 2, b / 2);
      if x == 0 && b == 0 {
        XorZero(a);
      }
    }
  }

  /** Toggling one bit moves a number up or down by that bit's weight. */
  lemma {:induction false} XorTogglesBit(x: nat, k: nat)
    ensures Bit(x, k) == 1 ==> x >= Pow2(k)
    ensures Xor(x, Pow2(k)) == if Bit(x, k) == 0 then x + Pow2(k) else x - Pow2(k)
    decreases k
  {
    if k == 0 {
      XorZero(x / 2);
    } else {
      XorTogglesBit(x / 2, k - 1);
      assert Pow2(k) / 2 == Pow2(k - 1) && Pow2(k) % 2 == 0;
    }
  }
}
