# Cryptopals set 1: XOR and letter-frequency core in Dafny

This project models the byte-level core of the Cryptopals set 1 script
`set1/challenge.py`:

- `bytewise_xor`: repeating-key XOR, `zip(c, cycle(k))`.
- `fixed_xor`: pairwise XOR of two hex strings, truncated to the shorter one.
- `encrypt_xor`: repeating-key XOR written out as hex.
- The letter counting and the frequency table of `compare_frequency`.
- The `english_freq_table` constant.
- The key-selection loop of `crack_ciphertext`.

The model is split into five modules:

- `Xor` (`xor.dfy`):
  - bytes are integers in 0..255;
  - Python's `^` is defined bit by bit on natural numbers;
  - it holds the two XOR combinators.
- `Hex` (`hex.dfy`):
  - `bytes.fromhex` is a decoder that can fail;
  - `bytes.hex()` is a lowercase encoder;
  - decoding what was encoded gives back every byte string, and re-encoding what was decoded gives back every even-length lowercase hex string.
- `Frequency` (`frequency.dfy`):
  - the reference table is an ordered sequence of `(letter, value)` pairs;
  - the letter counts are a left-to-right fold into a map, proved equal to an independent multiset count;
  - the frequency table and the Bhattacharyya score are built on both.
  - Floating point is modelled as exact `real` arithmetic.
  - The square root is a parameter.
- `Cracker` (`cracker.dfy`):
  - the loop over the 256 keys with its strict `>` update;
  - its declarative specification, which is the best score with ties going to the smallest key;
  - both `ValueError`s, modelled as a `Result`.
  - The text filter (valid UTF-8 and printable) is a parameter.
- `Challenges` (`challenges.dfy`): the hex-string entry points `fixed_xor` and `encrypt_xor`.

## Model

| member | source | states |
|---|---|---|
| Xor.FixedXor | set1/challenge.py:81 | the result is as long as the shorter input, and byte `i` is `x[i] ^ y[i]` |
| Xor.FixedXorCommutes | set1/challenge.py:81 | swapping the two inputs gives the same bytes |
| Xor.FixedXorSelfIsZero | set1/challenge.py:81 | XORing a byte string with itself gives as many zero bytes |
| Xor.BitXor | set1/challenge.py:81 | Python's `a ^ b` on non-negative integers is zero exactly when `a == b`, and never exceeds `a + b` |
| Xor.XorByte | set1/challenge.py:170 | the XOR of two bytes is a byte, each of whose bits is set exactly where the bits of the operands differ; it is zero exactly for equal bytes |
| Xor.BitXorCancel | set1/challenge.py:170 | `(a ^ b) ^ b == a` for all non-negative integers |
| Xor.BitXorBits | set1/challenge.py:170 | bit `i` of `a ^ b` is set exactly when bit `i` of `a` and of `b` differ |
| Xor.CycleXor | set1/challenge.py:170 | after `j` bytes of the cycle, byte `i` of the output is `c[i] ^ k[(j + i) % len(k)]`; an empty key yields nothing |
| Xor.BytewiseXor | set1/challenge.py:169-170 | the output has the length of `c` when the key is non-empty, and byte `i` is `c[i] ^ k[i % len(k)]`; an empty key gives an empty result |
| Xor.BytewiseXorRoundTrip | set1/challenge.py:169-170 | XORing twice with the same key restores the input exactly when the key is non-empty or the input is empty |
| Xor.BytewiseXorLongKey | set1/challenge.py:169-170 | with a key at least as long as the text, repeating-key XOR equals `fixed_xor` |
| Xor.SingleByteXor | set1/challenge.py:189 | the key byte `k.to_bytes()` is XORed into every byte, and the length is kept |
| Hex.Decode | set1/challenge.py:78-79 | `fromhex` succeeds exactly on an even number of hex digits of either case, and byte `i` is built from digits `2i` (high nibble) and `2i+1` (low nibble) |
| Hex.Encode | set1/challenge.py:82 | `.hex()` writes two lowercase digits per byte |
| Hex.DecodeEncode | set1/challenge.py:78-82 | decoding what `.hex()` wrote gives the bytes back |
| Hex.EncodeDecode | set1/challenge.py:78-82 | re-encoding a decoded lowercase string gives the string back |
| Challenges.FixedXorHex | set1/challenge.py:77-82 | the result exists exactly when both arguments are valid hex; it is lowercase, as long as the shorter argument, and decodes to the pairwise XOR of the decoded bytes |
| Challenges.FixedXorHexCommutes | set1/challenge.py:77-82 | `fixed_xor(x, y) == fixed_xor(y, x)`, including the error case |
| Challenges.FixedXorHexSelf | set1/challenge.py:77-82 | a valid hex string XORed with itself is all `0` digits |
| Challenges.EncryptXor | set1/challenge.py:244-246 | the ciphertext is lowercase hex that decodes to the repeating-key XOR of plaintext and key: twice as long as the plaintext for a non-empty key, empty for an empty key |
| Challenges.EncryptXorRoundTrip | set1/challenge.py:244-246 | the hex ciphertext always decodes, and XORing it again with the key recovers the plaintext exactly when the key is non-empty or the plaintext is empty |
| Frequency.EnglishTableShape | set1/challenge.py:11-36 | the reference table has 26 distinct keys, which are exactly the lowercase letters; every value lies strictly between 0 and 1, and the values sum to 0.9999 |
| Frequency.Lower | set1/challenge.py:132-134 | `chr(e).lower()` of an ASCII letter is the lowercase letter with the same code or the code 32 higher |
| Frequency.Counts | set1/challenge.py:128-136 | a letter is a key of `counts` exactly when it occurs in either case, and its value is the number of those occurrences |
| Frequency.CountsPermutationInvariant | set1/challenge.py:128-136 | reordering the bytes leaves `counts` unchanged |
| Frequency.CountsIgnoreNonLetters | set1/challenge.py:132-133 | inserting a byte that is not an ASCII letter anywhere leaves `counts` unchanged |
| Frequency.OccurrencesBound | set1/challenge.py:128-136 | no letter occurs more often than there are bytes |
| Frequency.LetterFrequency | set1/challenge.py:139-146 | each entry lies in [0, 1]; it is 0 exactly when the letter does not occur, and otherwise count divided by length |
| Frequency.FreqTableOver | set1/challenge.py:137-146 | `freq_table` has the keys of the reference table in its order; the value of key `k` is 0 when `k` does not occur, and otherwise its occurrence count divided by the length of the whole input |
| Frequency.OccurrenceSumBound | set1/challenge.py:128-146 | the counts of distinct letters add up to at most the length of the input |
| Frequency.FreqTableSumAtMostOne | set1/challenge.py:137-146 | the entries of `freq_table` sum to at most 1 |
| Frequency.NoLettersAllZero | set1/challenge.py:140-146 | an input without ASCII letters, the empty one included, gets an all-zero table without any division |
| Frequency.CompareFrequencyPermutationInvariant | set1/challenge.py:127-166 | reordering the bytes of a candidate changes neither its score nor its table |
| Frequency.Bhattacharyya | set1/challenge.py:115-117 | the coefficient of a sample table against the reference table is non-negative whenever the square root never returns a negative value, and it is 0 for an all-zero sample when `sqrt(0) == 0` |
| Frequency.CompareFrequency | set1/challenge.py:127-166 | `compare_frequency` returns `(score, freq_table)`: the table carries the reference keys with their letter frequencies, and the score is its Bhattacharyya coefficient against the reference, non-negative when the square root is |
| Frequency.NoLettersScoreZero | set1/challenge.py:115-117 | with a square root mapping 0 to 0, a candidate without letters scores 0 |
| Cracker.SelectBestKey | set1/challenge.py:188-214 | the result is "Nothing found" exactly when no key passes the filter; otherwise the key passes the filter and is the best key, and the plaintext and score belong to that key |
| Cracker.BestKeyUnique | set1/challenge.py:203-205 | at most one key is best under the maximum-score, smallest-key-on-ties rule, so the loop's answer is fully determined |
| Cracker.CrackCiphertext | set1/challenge.py:173-214 | invalid hex is an `InvalidHex` error; decoded bytes go through the key selection, scored by `compare_frequency` |
| Cracker.EmptyCiphertextPicksKeyZero | set1/challenge.py:188-205 | for an empty ciphertext that the filter accepts, all keys tie and key 0 is the best key |
| Cracker.PrintableKeySurvives | set1/challenge.py:192-199 | if some key yields printable ASCII (or newline), a filter that agrees with the script's on ASCII lets it through, so the crack does not fail |

## Left out

- `print_bar_chart`, and every `DEBUG` block of `crack_ciphertext`, are console output only.
- `hex_to_base64` (challenge 1) is not part of the XOR/frequency core.
- `cross_correlation`, `hellinger_distance`, `kl_divergence` and `chi_square` are left out.
  - They are floating-point metrics that the score no longer uses.
  - The test of `a` at line 93 of `cross_correlation` checks the same table twice.
- `detect_ciphertext` and the `__main__` block are left out because they read files, parse arguments and print.
- Frequency.Bhattacharyya: the sum is modelled exactly, but `math.sqrt` is a parameter.
  - The only facts assumed about it, each as a hypothesis of the statement that needs it, are `sqrt(0) == 0` and that it is never negative.
  - Floating-point rounding of the divisions and of the sum is not modelled; the model uses exact reals.
- Cracker.SelectBestKey: the text filter is a parameter.
  - The script's filter is "decodes as UTF-8, and after newlines become spaces every character is printable".
  - It depends on Unicode tables, so the model does not define it.
  - Cracker.AgreesOnAscii states what it must be on ASCII bytes: every byte is 0x20 to 0x7E or a newline.
- Cracker.CrackCiphertext: it returns a `Candidate` value where the script returns a tuple, and the per-key dictionaries are not kept.
- Hex.Decode: `bytes.fromhex` also skips ASCII whitespace between byte pairs; the model rejects whitespace.
- Challenges.EncryptXor: the model takes the already-encoded bytes of its two arguments. The UTF-8 encoding of a `str` (`bytes(p, 'utf-8')`) is not modelled.
- Xor.SingleByteXor: `k.to_bytes()` is taken to be the single byte `k`, which it is on Python 3.11 and later. Earlier versions require explicit length and byte-order arguments.
