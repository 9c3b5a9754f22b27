/**
  The Base16 boundary of the script: `bytes.fromhex` on the way in and
  `bytes.hex()` on the way out. Encoding uses the lowercase alphabet, as
  `.hex()` does; decoding accepts both cases of the digits `a`-`f`, as
  `fromhex` does, and rejects an odd number of digits or any other character.
  This is the lowercase variant of the Base16 encoding of section 8 of
  RFC 4648, decoded case-insensitively.
*/
module Hex {
  import opened Xor

  datatype Option<+T> = None | Some(value: T)

  /** The lowercase alphabet `.hex()` writes. */
  const Digits: string := "0123456789abcdef"

  predicate IsHexDigit(ch: char)
  {
    ('0' <= ch <= '9') || ('a' <= ch <= 'f') || ('A' <= ch <= 'F')
  }

  predicate IsLowerHex(s: string)
  {
    forall i :: 0 <= i < |s| ==> s[i] in Digits
  }

  function DigitValue(ch: char): (v: nat)
    requires IsHexDigit(ch)
    ensures v < 16
  {
    if '0' <= ch <= '9' then ch as int - '0' as int
    else if 'a' <= ch <= 'f' then ch as int - 'a' as int + 10
    else ch as int - 'A' as int + 10
  }

  /** The alphabet and the digit values are inverse to each other. */
  lemma DigitsInverse()
    ensures |Digits| == 16
    ensures forall d :: 0 <= d < 16 ==> IsHexDigit(Digits[d]) && DigitValue(Digits[d]) == d
    ensures forall ch :: ch in Digits ==> IsHexDigit(ch) && Digits[DigitValue(ch)] == ch
  {
    assert forall d :: 0 <= d < 16 ==> Digits[d] == if d < 10 then ('0' as int + d) as char else ('a' as int + d - 10) as char;
  }

  function EncodeByte(b: byte): string
  {
    [Digits[b / 16], Digits[b % 16]]
  }

  /** `bytes.hex()`: two lowercase digits per byte, high nibble first. */
  function Encode(bs: seq<byte>): (s: string)
    ensures |s| == 2 * |bs|
    ensures IsLowerHex(s)
  {
    if |bs| == 0 then [] else EncodeByte(bs[0]) + Encode(bs[1..])
  }

  /**
    `bytes.fromhex(s)`: `None` stands for the `ValueError` it raises on an
    odd number of digits or on a character that is not a hex digit.
  */
  function Decode(s: string): (r: Option<seq<byte>>)
    ensures r.Some? <==> |s| % 2 == 0 && forall i :: 0 <= i < |s| ==> IsHexDigit(s[i])
    ensures r.Some? ==> 2 * |r.value| == |s|
    ensures r.Some? ==> forall i :: 0 <= i < |r.value| ==>
                          r.value[i] == 16 * DigitValue(s[2 * i]) + DigitValue(s[2 * i + 1])
    decreases |s|
  {
    if |s| == 0 then Some([])
    else if |s| == 1 || !IsHexDigit(s[0]) || !IsHexDigit(s[1]) then None
    else
      match Decode(s[2..])
      case None => None
      case Some(rest) =>
        Some([16 * DigitValue(s[0]) + DigitValue(s[1])] + rest)
  }

  /** Decoding what `.hex()` wrote gives the bytes back. */
  lemma {:induction false} DecodeEncode(bs: seq<byte>)
    ensures Decode(Encode(bs)) == Some(bs)
  {
    DigitsInverse();
    var s := Encode(bs);
    assert forall j :: 0 <= j < |s| ==> IsHexDigit(s[j]);
    var r := Decode(s);
    forall i | 0 <= i < |bs|
      ensures r.value[i] == bs[i]
    {
      EncodeAt(bs, i);
      var hi, lo := bs[i] / 16, bs[i] % 16;
      assert bs[i] == 16 * hi + lo;
      assert DigitValue(s[2 * i]) == hi;
      assert DigitValue(s[2 * i + 1]) == lo;
    }
    assert r.value == bs;
  }

  /** Byte `i` is written at positions `2i` and `2i + 1`. */
  lemma {:induction false} EncodeAt(bs: seq<byte>, i: nat)
    requires i < |bs|
    ensures Encode(bs)[2 * i] == Digits[bs[i] / 16]
    ensures Encode(bs)[2 * i + 1] == Digits[bs[i] % 16]
  {
    if i > 0 {
      EncodeAt(bs[1..], i - 1);
    }
  }

  /** Re-encoding what was decoded gives back any lowercase input. */
  lemma {:induction false} EncodeDecode(s: string)
    requires |s| % 2 == 0 && IsLowerHex(s)
    ensures Decode(s).Some? && Encode(Decode(s).value) == s
  {
    DigitsInverse();
    var r := Decode(s);
    assert r.Some?;
    var t := Encode(r.value);
    forall i | 0 <= i < |r.value|
      ensures t[2 * i] == s[2 * i] && t[2 * i + 1] == s[2 * i + 1]
    {
      EncodeAt(r.value, i);
      NibblesOf(r.value[i], DigitValue(s[2 * i]), DigitValue(s[2 * i + 1]));
    }
    forall j | 0 <= j < |s|
      ensures t[j] == s[j]
    {
      var i := j / 2;
      assert j == 2 * i || j == 2 * i + 1;
    }
  }

  lemma NibblesOf(b: int, hi: nat, lo: nat)
    requires hi < 16 && lo < 16 && b == 16 * hi + lo
    ensures b / 16 == hi && b % 16 == lo
  {
  }
}
