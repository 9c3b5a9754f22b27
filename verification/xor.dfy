/**
  Bytes and the two XOR combinators of the Cryptopals set 1 script:
  `fixed_xor` (pairwise XOR truncated to the shorter input) and
  `bytewise_xor` (repeating-key XOR, `zip(c, cycle(k))`).

  A byte is a Python `int` in 0..255, so XOR is modelled on natural numbers
  bit by bit, exactly as Python's `^` behaves on non-negative integers.
*/
module Xor {

  /** An element of a Python `bytes` object. */
  type byte = x: int | 0 <= x < 256

  function Pow2(n: nat): (p: nat)
    ensures p >= 1
  {
    if n == 0 then 1 else 2 * Pow2(n - 1)
  }

  /** Bit `i` (least significant first) of `x`. */
  function Bit(x: nat, i: nat): (b: nat)
    ensures b < 2
  {
    if i == 0 then x % 2 else Bit(x / 2, i - 1)
  }

  /**
    Python's `a ^ b` on non-negative integers, one bit per recursion step:
    the result is zero exactly for equal operands and never exceeds `a + b`.
  */
  function BitXor(a: nat, b: nat): (r: nat)
    ensures r == 0 <==> a == b
    ensures r <= a + b
    decreases a + b
  {
    if a == 0 && b == 0 then 0
    else 2 * BitXor(a / 2, b / 2) + (if a % 2 == b % 2 then 0 else 1)
  }

  /** The recursion step holds for every pair, including (0, 0). */
  lemma BitXorStep(a: nat, b: nat)
    ensures BitXor(a, b) == 2 * BitXor(a / 2, b / 2) + (if a % 2 == b % 2 then 0 else 1)
  {
  }

  /** Bit `i` of `a ^ b` is set exactly when bits `i` of `a` and `b` differ. */
  lemma {:induction false} BitXorBits(a: nat, b: nat, i: nat)
    ensures Bit(BitXor(a, b), i) == (if Bit(a, i) == Bit(b, i) then 0 else 1)
    decreases i
  {
    BitXorStep(a, b);
    var q := BitXor(a / 2, b / 2);
    var r := if a % 2 == b % 2 then 0 else 1;
    assert BitXor(a, b) / 2 == q && BitXor(a, b) % 2 == r;
    if i > 0 {
      BitXorBits(a / 2, b / 2, i - 1);
    }
  }

  /** XOR of two `n`-bit numbers is an `n`-bit number. */
  lemma {:induction false} BitXorBound(a: nat, b: nat, n: nat)
    requires a < Pow2(n) && b < Pow2(n)
    ensures BitXor(a, b) < Pow2(n)
    decreases n
  {
    if n > 0 {
      BitXorStep(a, b);
      BitXorBound(a / 2, b / 2, n - 1);
    }
  }

  /** `(a ^ b) ^ b == a`: XOR with a fixed value is its own inverse. */
  lemma {:induction false} BitXorCancel(a: nat, b: nat)
    ensures BitXor(BitXor(a, b), b) == a
    decreases a + b
  {
    if a + b > 0 {
      var q := BitXor(a / 2, b / 2);
      var r := if a % 2 == b % 2 then 0 else 1;
      var x := BitXor(a, b);
      BitXorStep(a, b);
      assert x / 2 == q && x % 2 == r;
      BitXorStep(x, b);
      BitXorCancel(a / 2, b / 2);
    }
  }

  lemma {:induction false} BitXorCommutes(a: nat, b: nat)
    ensures BitXor(a, b) == BitXor(b, a)
    decreases a + b
  {
    if a + b > 0 {
      BitXorStep(a, b);
      BitXorStep(b, a);
      BitXorCommutes(a / 2, b / 2);
    }
  }

  lemma {:induction false} BitXorSelf(a: nat)
    ensures BitXor(a, a) == 0
    decreases a
  {
    if a > 0 {
      BitXorStep(a, a);
      BitXorSelf(a / 2);
    }
  }

  /** Every bit of `a ^ b` is set exactly where the bits of `a` and `b` differ. */
  lemma BitXorAllBits(a: nat, b: nat)
    ensures forall i: nat :: Bit(BitXor(a, b), i) == (if Bit(a, i) == Bit(b, i) then 0 else 1)
  {
    forall i: nat
      ensures Bit(BitXor(a, b), i) == (if Bit(a, i) == Bit(b, i) then 0 else 1)
    {
      BitXorBits(a, b, i);
    }
  }

  /**
    `a ^ b` on two bytes, which is again a byte: each of its bits is set
    where the bits of `a` and `b` differ, so it is zero exactly for equal bytes.
  */
  function XorByte(a: byte, b: byte): (r: byte)
    ensures forall i: nat :: Bit(r, i) == (if Bit(a, i) == Bit(b, i) then 0 else 1)
    ensures r == 0 <==> a == b
  {
    assert Pow2(8) == 256;
    BitXorBound(a, b, 8);
    BitXorAllBits(a, b);
    BitXor(a, b)
  }

  function Min(a: nat, b: nat): nat
  {
    if a <= b then a else b
  }

  /** `fixed_xor` on bytes: `bytes(a ^ b for (a, b) in zip(x, y))`. */
  function FixedXor(x: seq<byte>, y: seq<byte>): (r: seq<byte>)
    ensures |r| == Min(|x|, |y|)
    ensures forall i :: 0 <= i < |r| ==> r[i] == XorByte(x[i], y[i])
  {
    if |x| == 0 || |y| == 0 then []
    else [XorByte(x[0], y[0])] + FixedXor(x[1..], y[1..])
  }

  lemma {:induction false} FixedXorCommutes(x: seq<byte>, y: seq<byte>)
    ensures FixedXor(x, y) == FixedXor(y, x)
  {
    var r, s := FixedXor(x, y), FixedXor(y, x);
    forall i | 0 <= i < |r|
      ensures r[i] == s[i]
    {
      BitXorCommutes(x[i], y[i]);
    }
  }

  /** XOR of a byte string with itself is all zeros. */
  lemma {:induction false} FixedXorSelfIsZero(x: seq<byte>)
    ensures |FixedXor(x, x)| == |x|
    ensures forall i :: 0 <= i < |x| ==> FixedXor(x, x)[i] == 0
  {
    forall i | 0 <= i < |x|
      ensures FixedXor(x, x)[i] == 0
    {
      BitXorSelf(x[i]);
    }
  }

  /**
    `zip(c, cycle(k))` XORed pairwise, where the cycle has already produced
    `j` bytes: the next key byte is `k[j % |k|]`. A cycle over an empty key
    is empty, so the zip stops at once.
  */
  function CycleXor(c: seq<byte>, k: seq<byte>, j: nat): (r: seq<byte>)
    ensures |k| == 0 ==> r == []
    ensures |k| > 0 ==> |r| == |c|
    ensures |k| > 0 ==> forall i :: 0 <= i < |r| ==> r[i] == XorByte(c[i], k[(j + i) % |k|])
    decreases |c|
  {
    if |c| == 0 || |k| == 0 then []
    else [XorByte(c[0], k[j % |k|])] + CycleXor(c[1..], k, j + 1)
  }

  /** `bytewise_xor(c, k)`: repeating-key XOR. */
  function BytewiseXor(c: seq<byte>, k: seq<byte>): (r: seq<byte>)
    ensures |k| == 0 ==> r == []
    ensures |k| > 0 ==> |r| == |c|
    ensures |k| > 0 ==> forall i :: 0 <= i < |r| ==> r[i] == XorByte(c[i], k[i % |k|])
  {
    CycleXor(c, k, 0)
  }

  /**
    Decrypting with the key that encrypted gives the input back, and this
    round trip holds exactly when the key is non-empty or there is nothing
    to encrypt.
  */
  lemma {:induction false} BytewiseXorRoundTrip(c: seq<byte>, k: seq<byte>)
    ensures BytewiseXor(BytewiseXor(c, k), k) == c <==> (|k| > 0 || |c| == 0)
  {
    if |k| > 0 {
      var e := BytewiseXor(c, k);
      var d := BytewiseXor(e, k);
      forall i | 0 <= i < |c|
        ensures d[i] == c[i]
      {
        BitXorCancel(c[i], k[i % |k|]);
      }
    }
  }

  /** While the key is at least as long as the text, the cycle never wraps. */
  lemma {:induction false} BytewiseXorLongKey(c: seq<byte>, k: seq<byte>)
    requires |k| >= |c| && |k| > 0
    ensures BytewiseXor(c, k) == FixedXor(c, k)
  {
    var r, s := BytewiseXor(c, k), FixedXor(c, k);
    forall i | 0 <= i < |c|
      ensures r[i] == s[i]
    {
      ModBelow(i, |k|);
    }
    assert r == s;
  }

  lemma ModBelow(i: nat, n: nat)
    requires i < n
    ensures i % n == i
  {
  }

  /** `bytewise_xor(b, k.to_bytes())`: every byte XORed with the one key byte. */
  function SingleByteXor(c: seq<byte>, k: byte): (r: seq<byte>)
    ensures |r| == |c|
    ensures forall i :: 0 <= i < |r| ==> r[i] == XorByte(c[i], k)
  {
    BytewiseXor(c, [k])
  }
}
