/** Bytes and the few bitwise operators the codec uses, written over
    unbounded integers so that each one is exactly the Python operator. */
module Bits {

  /** One element of a Python `bytes` object */
  type Byte = x: int | 0 <= x < 256

  /** True when every byte fits in seven bits, i.e. is valid MIDI data */
  predicate SevenBitClean(s: seq<Byte>) {
    forall i :: 0 <= i < |s| ==> s[i] < 0x80
  }

  /** 2 to the power k, i.e. Python's `1 << k` */
  function Pow2(k: nat): (r: nat)
    ensures r >= 1
  {
    if k == 0 then 1 else 2 * Pow2(k - 1)
  }

  /** Python's `a | b` on non-negative integers, one bit at a time from
      the least significant end */
  function Or(a: nat, b: nat): nat
    decreases a + b
  {
    if a == 0 then b
    else if b == 0 then a
    else 2 * Or(a / 2, b / 2) + (if a % 2 == 1 || b % 2 == 1 then 1 else 0)
  }

  /** Python's `(a >> k) & 1`: bit k of a */
  function Bit(a: nat, k: nat): (r: nat)
    ensures r < 2
  {
    if k == 0 then a % 2 else Bit(a / 2, k - 1)
  }

  /** Python's `x & 0x7f` on a byte: its low seven bits */
  function Low7(x: Byte): nat {
    x % 0x80
  }

  /** Python's `(x & 0x80) >> 7` on a byte: its high bit */
  function High(x: Byte): nat {
    x / 0x80
  }

  /** A byte is put together from its high bit and its low seven bits */
  lemma SplitByte(h: nat, l: nat)
    requires h < 2 && l < 0x80
    ensures High(0x80 * h + l) == h && Low7(0x80 * h + l) == l
  {
  }

  /** A byte is its high bit times 0x80 plus its low seven bits */
  lemma ByteSplits(x: Byte)
    ensures High(x) < 2 && x == 0x80 * High(x) + Low7(x)
  {
  }

  /** Or-ing in a single power of two sets that bit and keeps the others:
      it adds the power when the bit was clear and changes nothing otherwise. */
  lemma {:induction false} OrPow2(a: nat, k: nat)
    requires a < 2 * Pow2(k)
    ensures Or(a, Pow2(k)) == if a < Pow2(k) then a + Pow2(k) else a
    decreases k
  {
    if k > 0 && a > 0 {
      OrPow2(a / 2, k - 1);
    }
  }

  /** Or-ing in zero changes nothing */
  lemma OrZero(a: nat)
    ensures Or(a, 0) == a
  {
  }

  /** Every bit of zero is clear */
  lemma {:induction false} BitOfZero(k: nat)
    ensures Bit(0, k) == 0
  {
    if k > 0 {
      BitOfZero(k - 1);
    }
  }

  /** Adding h * 2^m to a number below 2^m sets bit m to h and leaves
      every other bit alone. */
  lemma {:induction false} BitOfSum(x: nat, h: nat, m: nat, k: nat)
    requires x < Pow2(m) && h < 2
    ensures Bit(x + h * Pow2(m), k) == if k == m then h else Bit(x, k)
    decreases k
  {
    if k == 0 {
      if m > 0 {
        assert x + h * Pow2(m) == x + 2 * (h * Pow2(m - 1));
      }
    } else if m == 0 {
      assert (x + h * Pow2(m)) / 2 == 0;
      BitOfZero(k - 1);
      BitOfZero(k);
    } else {
      assert (x + h * Pow2(m)) / 2 == x / 2 + h * Pow2(m - 1);
      BitOfSum(x / 2, h, m - 1, k - 1);
    }
  }

  /** A number below 2^n has no bit set at position n or above */
  lemma {:induction false} BitAbove(x: nat, n: nat, k: nat)
    requires x < Pow2(n) && k >= n
    ensures Bit(x, k) == 0
    decreases k
  {
    if k == 0 {
    } else if n == 0 {
      BitOfZero(k - 1);
    } else {
      BitAbove(x / 2, n - 1, k - 1);
    }
  }

  /** Two numbers below 2^n with the same n low bits are equal */
  lemma {:induction false} BitsDetermine(a: nat, b: nat, n: nat)
    requires a < Pow2(n) && b < Pow2(n)
    requires forall k :: 0 <= k < n ==> Bit(a, k) == Bit(b, k)
    ensures a == b
    decreases n
  {
    if n > 0 {
      assert Bit(a, 0) == Bit(b, 0);
      forall k | 0 <= k < n - 1
        ensures Bit(a / 2, k) == Bit(b / 2, k)
      {
        assert Bit(a, k + 1) == Bit(b, k + 1);
      }
      BitsDetermine(a / 2, b / 2, n - 1);
    }
  }

  /** Or-ing two numbers below 2^k stays below 2^k */
  lemma {:induction false} OrBelow(a: nat, b: nat, k: nat)
    requires a < Pow2(k) && b < Pow2(k)
    ensures Or(a, b) < Pow2(k)
    decreases k
  {
    if k > 0 && a > 0 && b > 0 {
      OrBelow(a / 2, b / 2, k - 1);
    }
  }
}
