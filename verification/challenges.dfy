/**
  The hex-string entry points of the script built on the byte-level model:
  `fixed_xor` (challenge 2) and `encrypt_xor` (challenge 5).
*/
module Challenges {
  import opened Xor
  import Hex

  /**
    `fixed_xor(x, y)`: decode both hex strings, XOR them pairwise up to the
    shorter one and write the result as lowercase hex. `None` stands for the
    `ValueError` of `bytes.fromhex` on either argument.
  */
  function FixedXorHex(x: string, y: string): (r: Hex.Option<string>)
    ensures r.Some? <==> Hex.Decode(x).Some? && Hex.Decode(y).Some?
    ensures r.Some? ==> |r.value| == Min(|x|, |y|) && Hex.IsLowerHex(r.value)
    ensures r.Some? ==> Hex.Decode(r.value) == Hex.Some(FixedXor(Hex.Decode(x).value, Hex.Decode(y).value))
  {
    match (Hex.Decode(x), Hex.Decode(y))
    case (Some(xb), Some(yb)) =>
      var o := FixedXor(xb, yb);
      Hex.DecodeEncode(o);
      Hex.Some(Hex.Encode(o))
    case _ => Hex.None
  }

  /** The same strings XORed in either order give the same hex. */
  lemma FixedXorHexCommutes(x: string, y: string)
    ensures FixedXorHex(x, y) == FixedXorHex(y, x)
  {
    match (Hex.Decode(x), Hex.Decode(y))
    case (Some(xb), Some(yb)) =>
      FixedXorCommutes(xb, yb);
    case _ =>
  }

  /** A hex string XORed with itself is all `0` digits. */
  lemma FixedXorHexSelf(x: string)
    requires Hex.Decode(x).Some?
    ensures FixedXorHex(x, x).Some?
    ensures forall i :: 0 <= i < |FixedXorHex(x, x).value| ==> FixedXorHex(x, x).value[i] == '0'
  {
    var xb := Hex.Decode(x).value;
    FixedXorSelfIsZero(xb);
    var o := FixedXor(xb, xb);
    ZerosEncode(o);
  }

  /** The encoding of zero bytes is all `0` digits. */
  lemma {:induction false} ZerosEncode(o: seq<byte>)
    requires forall i :: 0 <= i < |o| ==> o[i] == 0
    ensures forall j :: 0 <= j < |Hex.Encode(o)| ==> Hex.Encode(o)[j] == '0'
  {
    if |o| > 0 {
      ZerosEncode(o[1..]);
      assert Hex.Encode(o) == Hex.EncodeByte(0) + Hex.Encode(o[1..]);
    }
  }

  /**
    `encrypt_xor(p, k)` on the UTF-8 bytes of its two arguments: the
    repeating-key XOR of the plaintext, written as lowercase hex.
  */
  function EncryptXor(p: seq<byte>, k: seq<byte>): (c: string)
    ensures |k| > 0 ==> |c| == 2 * |p|
    ensures |k| == 0 ==> c == []
    ensures Hex.IsLowerHex(c)
    ensures Hex.Decode(c) == Hex.Some(BytewiseXor(p, k))
  {
    Hex.DecodeEncode(BytewiseXor(p, k));
    Hex.Encode(BytewiseXor(p, k))
  }

  /**
    Decoding the ciphertext and XORing again with the same key recovers the
    plaintext, exactly when the key is non-empty or the plaintext is empty.
  */
  lemma EncryptXorRoundTrip(p: seq<byte>, k: seq<byte>)
    ensures Hex.Decode(EncryptXor(p, k)).Some?
    ensures BytewiseXor(Hex.Decode(EncryptXor(p, k)).value, k) == p <==> (|k| > 0 || |p| == 0)
  {
    var e := BytewiseXor(p, k);
    Hex.DecodeEncode(e);
    assert Hex.Decode(EncryptXor(p, k)).value == e;
    BytewiseXorRoundTrip(p, k);
  }
}
