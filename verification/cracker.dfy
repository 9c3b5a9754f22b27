/**
  `crack_ciphertext`: break a single-byte XOR by trying the 256 keys in
  ascending order, dropping every candidate plaintext that fails the text
  filter, and keeping the first candidate whose score is strictly greater
  than the best so far.

  The selection is proved for any score and any filter, both passed in as
  functions: the script's filter (valid UTF-8 whose characters, newline
  aside, are all printable) depends on Unicode tables and its score on a
  floating-point square root.
*/
module Cracker {
  import opened Xor
  import Hex
  import Frequency

  /** What the script returns: plaintext, key and score of the best key. */
  datatype Candidate = Candidate(plaintext: seq<byte>, key: byte, score: real)

  /**
    The two `ValueError`s the script can raise: from `bytes.fromhex` on
    input that is not hex, and "Nothing found" when no key survives.
  */
  datatype CrackError = InvalidHex | NothingFound

  datatype Result = Ok(value: Candidate) | Err(error: CrackError)

  /** Every one of the 256 keys yields a plaintext the filter rejects. */
  predicate NoViableKey(b: seq<byte>, viable: seq<byte> -> bool)
  {
    forall k: byte :: !viable(SingleByteXor(b, k))
  }

  /**
    `key` passes the filter, no surviving key scores higher, and every
    surviving smaller key scores strictly lower: the maximum score, with
    ties going to the smallest key.
  */
  predicate IsBestKey(b: seq<byte>, score: seq<byte> -> real, viable: seq<byte> -> bool, key: byte)
  {
    && viable(SingleByteXor(b, key))
    && (forall k: byte :: viable(SingleByteXor(b, k)) ==> score(SingleByteXor(b, k)) <= score(SingleByteXor(b, key)))
    && (forall k: byte :: k < key && viable(SingleByteXor(b, k)) ==> score(SingleByteXor(b, k)) < score(SingleByteXor(b, key)))
  }

  /** At most one key is the best one, so the result below is fully determined. */
  lemma BestKeyUnique(b: seq<byte>, score: seq<byte> -> real, viable: seq<byte> -> bool, k1: byte, k2: byte)
    requires IsBestKey(b, score, viable, k1) && IsBestKey(b, score, viable, k2)
    ensures k1 == k2
  {
  }

  /**
    The key-selection loop of `crack_ciphertext` on already decoded bytes:
    it fails with `NothingFound` exactly when no key survives the filter,
    and otherwise returns the best key with its plaintext and score.
  */
  method SelectBestKey(b: seq<byte>, score: seq<byte> -> real, viable: seq<byte> -> bool) returns (r: Result)
    ensures r.Err? <==> NoViableKey(b, viable)
    ensures r.Err? ==> r.error == NothingFound
    ensures r.Ok? ==> IsBestKey(b, score, viable, r.value.key)
    ensures r.Ok? ==> r.value.plaintext == SingleByteXor(b, r.value.key) && r.value.score == score(r.value.plaintext)
  {
    var found := false;
    var best := Candidate([], 0, 0.0);
    for k := 0 to 256
      invariant !found <==> forall j: byte :: j < k ==> !viable(SingleByteXor(b, j))
      invariant found ==> best.key < k && viable(best.plaintext)
      invariant found ==> best.plaintext == SingleByteXor(b, best.key) && best.score == score(best.plaintext)
      invariant found ==> forall j: byte :: j < k && viable(SingleByteXor(b, j)) ==> score(SingleByteXor(b, j)) <= best.score
      invariant found ==> forall j: byte :: j < best.key && viable(SingleByteXor(b, j)) ==> score(SingleByteXor(b, j)) < best.score
    {
      var plaintext := SingleByteXor(b, k);
      if viable(plaintext) {
        var s := score(plaintext);
        if !found || s > best.score {
          best := Candidate(plaintext, k, s);
          found := true;
        }
      }
    }
    if found {
      r := Ok(best);
    } else {
      r := Err(NothingFound);
    }
  }

  /** The score `crack_ciphertext` ranks by: the first half of `compare_frequency`. */
  function FrequencyScore(sqrt: real -> real): seq<byte> -> real
  {
    p => Frequency.CompareFrequency(p, sqrt).0
  }

  /**
    `crack_ciphertext(c)`: decode the hex text, then select the best key
    under the letter-frequency score.
  */
  method CrackCiphertext(c: string, sqrt: real -> real, viable: seq<byte> -> bool) returns (r: Result)
    ensures Hex.Decode(c).None? ==> r == Err(InvalidHex)
    ensures Hex.Decode(c).Some? ==> (r.Err? <==> NoViableKey(Hex.Decode(c).value, viable))
    ensures Hex.Decode(c).Some? && r.Err? ==> r.error == NothingFound
    ensures r.Ok? ==> Hex.Decode(c).Some?
    ensures r.Ok? ==> IsBestKey(Hex.Decode(c).value, FrequencyScore(sqrt), viable, r.value.key)
    ensures r.Ok? ==> r.value.plaintext == SingleByteXor(Hex.Decode(c).value, r.value.key)
    ensures r.Ok? ==> r.value.score == Frequency.CompareFrequency(r.value.plaintext, sqrt).0
  {
    var decoded := Hex.Decode(c);
    if decoded.None? {
      return Err(InvalidHex);
    }
    r := SelectBestKey(decoded.value, FrequencyScore(sqrt), viable);
  }

  /**
    An empty ciphertext decrypts to the empty plaintext under every key, so
    when the filter accepts the empty text all keys tie and key 0 is chosen.
  */
  lemma EmptyCiphertextPicksKeyZero(score: seq<byte> -> real, viable: seq<byte> -> bool)
    requires viable([])
    ensures IsBestKey([], score, viable, 0)
  {
    forall k: byte
      ensures SingleByteXor([], k) == []
    {
    }
  }

  /** A byte the filter keeps in an all-ASCII plaintext: printable ASCII or newline. */
  predicate IsPrintableAscii(e: byte)
  {
    e == 10 || 32 <= e <= 126
  }

  predicate PrintableAscii(p: seq<byte>)
  {
    forall i :: 0 <= i < |p| ==> IsPrintableAscii(p[i])
  }

  predicate AllAscii(p: seq<byte>)
  {
    forall i :: 0 <= i < |p| ==> p[i] < 128
  }

  /**
    On all-ASCII bytes the script's filter is exactly "every byte is
    printable or a newline": ASCII always decodes as UTF-8, and the
    printable ASCII characters are 0x20 to 0x7E.
  */
  ghost predicate AgreesOnAscii(viable: seq<byte> -> bool)
  {
    forall p :: AllAscii(p) ==> (viable(p) <==> PrintableAscii(p))
  }

  /** A key that yields printable ASCII survives any such filter, so the crack cannot fail. */
  lemma PrintableKeySurvives(b: seq<byte>, k: byte, viable: seq<byte> -> bool)
    requires AgreesOnAscii(viable)
    requires PrintableAscii(SingleByteXor(b, k))
    ensures !NoViableKey(b, viable)
  {
    var p := SingleByteXor(b, k);
    assert AllAscii(p);
    assert viable(p);
  }
}
