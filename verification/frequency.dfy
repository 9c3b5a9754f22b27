/**
  The letter-frequency scorer `compare_frequency`: count the ASCII letters
  of a candidate plaintext case-insensitively, turn the counts into a table
  over the 26 letters of the reference English table (each count divided by
  the length of the WHOLE candidate, letters or not), and score that table
  against the reference with the Bhattacharyya coefficient.

  The script divides in floating point; here the table is modelled with
  exact rationals (`real`), so float rounding is not modelled. The
  coefficient needs a square root; it takes the square root as a parameter,
  so nothing here depends on which one is used.
*/
module Frequency {
  import opened Xor

  /**
    A frequency table: letters with their frequencies, in insertion order,
    as a Python dictionary keeps them.
  */
  type Table = seq<(char, real)>

  /** `english_freq_table`: relative frequency of each letter in English text. */
  const EnglishFreqTable: Table :=
    [('e', 0.1202), ('t', 0.0910), ('a', 0.0812), ('o', 0.0768),
     ('i', 0.0731), ('n', 0.0695), ('s', 0.0628), ('r', 0.0602),
     ('h', 0.0592), ('d', 0.0432), ('l', 0.0398), ('u', 0.0288),
     ('c', 0.0271), ('m', 0.0261), ('f', 0.0230), ('y', 0.0211),
     ('w', 0.0209), ('g', 0.0203), ('p', 0.0182), ('b', 0.0149),
     ('v', 0.0111), ('k', 0.0069), ('x', 0.0017), ('q', 0.0011),
     ('j', 0.0010), ('z', 0.0007)]

  /** The keys of a table, in order. */
  function Letters(t: Table): seq<char>
  {
    seq(|t|, i requires 0 <= i < |t| => t[i].0)
  }

  /** `t[c]`: the value stored under key `c` (the first entry with that key). */
  function Get(t: Table, c: char): (v: real)
    requires c in Letters(t)
    ensures exists i :: 0 <= i < |t| && t[i] == (c, v)
  {
    GetFrom(t, c, 0)
  }

  function GetFrom(t: Table, c: char, i: nat): (v: real)
    requires i <= |t| && c in Letters(t)[i..]
    ensures exists j :: i <= j < |t| && t[j] == (c, v)
    decreases |t| - i
  {
    if t[i].0 == c then t[i].1
    else
      assert Letters(t)[i..] == [t[i].0] + Letters(t)[i + 1..];
      GetFrom(t, c, i + 1)
  }

  /** `sum(t.values())`. */
  function TableSum(t: Table): real
  {
    SumFrom(t, 0)
  }

  /** The sum of the values from position `i` on. */
  function SumFrom(t: Table, i: nat): real
    requires i <= |t|
    decreases |t| - i
  {
    if i == |t| then 0.0 else t[i].1 + SumFrom(t, i + 1)
  }

  predicate IsLowerLetter(c: char)
  {
    'a' <= c <= 'z'
  }

  predicate Distinct(ks: seq<char>)
  {
    forall i, j :: 0 <= i < j < |ks| ==> ks[i] != ks[j]
  }

  /**
    The reference table has each of the 26 lowercase letters as a key
    exactly once, every frequency lies strictly between 0 and 1, and the
    frequencies add up to 0.9999.
  */
  lemma EnglishTableShape()
    ensures |EnglishFreqTable| == 26
    ensures Distinct(Letters(EnglishFreqTable))
    ensures forall c :: c in Letters(EnglishFreqTable) <==> IsLowerLetter(c)
    ensures forall i :: 0 <= i < |EnglishFreqTable| ==> 0.0 < EnglishFreqTable[i].1 < 1.0
    ensures TableSum(EnglishFreqTable) == 0.9999
  {
    EnglishLetters();
    AlphabetDistinct();
    AlphabetComplete();
    EnglishSum();
  }

  lemma EnglishLetters()
    ensures Letters(EnglishFreqTable) == "etaoinsrhdlucmfywgpbvkxqjz"
  {
  }

  lemma AlphabetDistinct()
    ensures Distinct("etaoinsrhdlucmfywgpbvkxqjz")
  {
  }

  lemma AlphabetComplete()
    ensures forall c :: c in "etaoinsrhdlucmfywgpbvkxqjz" <==> IsLowerLetter(c)
  {
  }

  lemma EnglishSum()
    ensures TableSum(EnglishFreqTable) == 0.9999
  {
    assert SumFrom(EnglishFreqTable, 25) == 0.0007;
    assert SumFrom(EnglishFreqTable, 24) == 0.0017;
    assert SumFrom(EnglishFreqTable, 23) == 0.0028;
    assert SumFrom(EnglishFreqTable, 22) == 0.0045;
    assert SumFrom(EnglishFreqTable, 21) == 0.0114;
    assert SumFrom(EnglishFreqTable, 20) == 0.0225;
    assert SumFrom(EnglishFreqTable, 19) == 0.0374;
    assert SumFrom(EnglishFreqTable, 18) == 0.0556;
    assert SumFrom(EnglishFreqTable, 17) == 0.0759;
    assert SumFrom(EnglishFreqTable, 16) == 0.0968;
    assert SumFrom(EnglishFreqTable, 15) == 0.1179;
    assert SumFrom(EnglishFreqTable, 14) == 0.1409;
    assert SumFrom(EnglishFreqTable, 13) == 0.1670;
    assert SumFrom(EnglishFreqTable, 12) == 0.1941;
    assert SumFrom(EnglishFreqTable, 11) == 0.2229;
    assert SumFrom(EnglishFreqTable, 10) == 0.2627;
    assert SumFrom(EnglishFreqTable, 9) == 0.3059;
    assert SumFrom(EnglishFreqTable, 8) == 0.3651;
    assert SumFrom(EnglishFreqTable, 7) == 0.4253;
    assert SumFrom(EnglishFreqTable, 6) == 0.4881;
    assert SumFrom(EnglishFreqTable, 5) == 0.5576;
    assert SumFrom(EnglishFreqTable, 4) == 0.6307;
    assert SumFrom(EnglishFreqTable, 3) == 0.7075;
    assert SumFrom(EnglishFreqTable, 2) == 0.7887;
    assert SumFrom(EnglishFreqTable, 1) == 0.8797;
    assert SumFrom(EnglishFreqTable, 0) == 0.9999;
  }

  /** A byte in `a`-`z` or `A`-`Z`. */
  predicate IsAsciiLetter(e: byte)
  {
    (97 <= e <= 122) || (65 <= e <= 90)
  }

  /** `chr(e).lower()` for an ASCII letter. */
  function Lower(e: byte): (c: char)
    requires IsAsciiLetter(e)
    ensures IsLowerLetter(c)
    ensures c as int == e || c as int == e + 32
  {
    if e <= 90 then (e + 32) as char else e as char
  }

  /** 1 when byte `e` is the letter `c` in either case, otherwise 0. */
  function Hit(e: byte, c: char): nat
  {
    if IsAsciiLetter(e) && Lower(e) == c then 1 else 0
  }

  /**
    How often the letter `c` occurs in `b`, upper and lower case together,
    read off the multiset of bytes, so the order of the bytes cannot matter.
  */
  function Occurrences(b: seq<byte>, c: char): nat
  {
    if IsLowerLetter(c) then multiset(b)[c as int] + multiset(b)[c as int - 32] else 0
  }

  lemma HitMeansCase(e: byte, c: char)
    ensures Hit(e, c) == 1 <==> IsLowerLetter(c) && (e == c as int || e == c as int - 32)
  {
  }

  /** Appending one byte adds one occurrence of its letter and nothing else. */
  lemma OccurrencesSnoc(b: seq<byte>, e: byte)
    ensures forall c :: Occurrences(b + [e], c) == Occurrences(b, c) + Hit(e, c)
  {
    assert multiset(b + [e]) == multiset(b) + multiset{e};
    forall c
      ensures Occurrences(b + [e], c) == Occurrences(b, c) + Hit(e, c)
    {
      HitMeansCase(e, c);
    }
  }

  lemma {:induction false} OccurrencesBound(b: seq<byte>, c: char)
    ensures Occurrences(b, c) <= |b|
    decreases |b|
  {
    if |b| > 0 {
      var p := b[..|b| - 1];
      assert b == p + [b[|b| - 1]];
      OccurrencesSnoc(p, b[|b| - 1]);
      OccurrencesBound(p, c);
    }
  }

  /**
    The `counts` dictionary built by the counting loop of `compare_frequency`,
    one byte at a time from the left: a letter seen for the first time enters
    with count 0 and every letter byte adds 1 to its lowercase letter.
  */
  function Counts(b: seq<byte>): (m: map<char, nat>)
    ensures forall c :: c in m <==> Occurrences(b, c) > 0
    ensures forall c :: c in m ==> m[c] == Occurrences(b, c)
    decreases |b|
  {
    if |b| == 0 then map[]
    else
      var p := b[..|b| - 1];
      var e := b[|b| - 1];
      var m := Counts(p);
      assert b == p + [e];
      OccurrencesSnoc(p, e);
      if IsAsciiLetter(e) then
        var c := Lower(e);
        m[c := (if c in m then m[c] else 0) + 1]
      else m
  }

  /** Reordering the bytes does not change the counts. */
  lemma {:induction false} CountsPermutationInvariant(a: seq<byte>, b: seq<byte>)
    requires multiset(a) == multiset(b)
    ensures Counts(a) == Counts(b)
  {
    var ma, mb := Counts(a), Counts(b);
    assert forall c :: Occurrences(a, c) == Occurrences(b, c);
    assert ma.Keys == mb.Keys;
  }

  /** A byte that is not an ASCII letter, wherever it is inserted, changes no count. */
  lemma {:induction false} CountsIgnoreNonLetters(b: seq<byte>, i: nat, e: byte)
    requires i <= |b| && !IsAsciiLetter(e)
    ensures Counts(b[..i] + [e] + b[i..]) == Counts(b)
  {
    var b' := b[..i] + [e] + b[i..];
    assert b == b[..i] + b[i..];
    assert multiset(b') == multiset(b) + multiset{e};
    forall c
      ensures Occurrences(b', c) == Occurrences(b, c)
    {
      HitMeansCase(e, c);
    }
    var m, m' := Counts(b), Counts(b');
    assert m.Keys == m'.Keys;
  }

  /**
    `freq_table[k]` in `compare_frequency`: the count of letter `k` divided
    by the length of the candidate, or 0 when the letter does not occur. The
    division only happens for a letter that occurs, so a candidate without
    letters, the empty one included, never divides by zero.
  */
  function LetterFrequency(b: seq<byte>, k: char): (f: real)
    ensures 0.0 <= f <= 1.0
    ensures f == 0.0 <==> Occurrences(b, k) == 0
    ensures |b| > 0 ==> f == Occurrences(b, k) as real / |b| as real
  {
    var counts := Counts(b);
    if k in counts then
      OccurrencesBound(b, k);
      RatioFacts(counts[k], |b|);
      counts[k] as real / |b| as real
    else 0.0
  }

  lemma RatioFacts(c: nat, n: nat)
    requires 0 < c <= n
    ensures 0.0 < c as real / n as real <= 1.0
  {
    var r := c as real / n as real;
    assert r * n as real == c as real;
  }

  /** The `freq_table` of `compare_frequency`: one entry per key of `ref`, in its order. */
  function FreqTableOver(b: seq<byte>, ref: Table): (t: Table)
    ensures Letters(t) == Letters(ref)
    ensures forall i :: 0 <= i < |t| ==>
              t[i].1 == if Occurrences(b, ref[i].0) == 0 then 0.0
                        else Occurrences(b, ref[i].0) as real / |b| as real
  {
    seq(|ref|, i requires 0 <= i < |ref| => (ref[i].0, LetterFrequency(b, ref[i].0)))
  }

  /** The sample table, keyed by `english_freq_table`. */
  function FreqTable(b: seq<byte>): Table
  {
    FreqTableOver(b, EnglishFreqTable)
  }

  function OccurrenceSum(b: seq<byte>, ks: seq<char>): nat
  {
    if |ks| == 0 then 0 else Occurrences(b, ks[0]) + OccurrenceSum(b, ks[1..])
  }

  function HitCount(e: byte, ks: seq<char>): nat
  {
    if |ks| == 0 then 0 else Hit(e, ks[0]) + HitCount(e, ks[1..])
  }

  /** A byte matches at most one letter of a list without repetitions. */
  lemma {:induction false} HitCountAtMostOne(e: byte, ks: seq<char>)
    requires Distinct(ks)
    ensures HitCount(e, ks) <= 1
  {
    if |ks| > 0 {
      HitCountAtMostOne(e, ks[1..]);
      if Hit(e, ks[0]) == 1 {
        HitCountAbsent(e, ks[1..]);
      }
    }
  }

  lemma {:induction false} HitCountAbsent(e: byte, ks: seq<char>)
    requires IsAsciiLetter(e) ==> Lower(e) !in ks
    ensures HitCount(e, ks) == 0
  {
    if |ks| > 0 {
      HitCountAbsent(e, ks[1..]);
    }
  }

  lemma {:induction false} OccurrenceSumSnoc(b: seq<byte>, e: byte, ks: seq<char>)
    ensures OccurrenceSum(b + [e], ks) == OccurrenceSum(b, ks) + HitCount(e, ks)
  {
    OccurrencesSnoc(b, e);
    if |ks| > 0 {
      OccurrenceSumSnoc(b, e, ks[1..]);
    }
  }

  /** Distinct letters together occur at most once per byte. */
  lemma {:induction false} OccurrenceSumBound(b: seq<byte>, ks: seq<char>)
    requires Distinct(ks)
    ensures OccurrenceSum(b, ks) <= |b|
    decreases |b|
  {
    if |b| == 0 {
      OccurrenceSumEmpty(ks);
    } else {
      var p := b[..|b| - 1];
      assert b == p + [b[|b| - 1]];
      OccurrenceSumSnoc(p, b[|b| - 1], ks);
      HitCountAtMostOne(b[|b| - 1], ks);
      OccurrenceSumBound(p, ks);
    }
  }

  lemma {:induction false} OccurrenceSumEmpty(ks: seq<char>)
    ensures OccurrenceSum([], ks) == 0
  {
    if |ks| > 0 {
      OccurrenceSumEmpty(ks[1..]);
    }
  }

  /** A table of occurrence ratios sums to the occurrence total over the length. */
  lemma {:induction false} TableSumRatio(b: seq<byte>, t: Table, i: nat)
    requires |b| > 0 && i <= |t|
    requires forall j :: 0 <= j < |t| ==> t[j].1 == LetterFrequency(b, t[j].0)
    ensures SumFrom(t, i) == OccurrenceSum(b, Letters(t)[i..]) as real / |b| as real
    decreases |t| - i
  {
    var ks := Letters(t)[i..];
    if i < |t| {
      var o := Occurrences(b, t[i].0);
      assert ks[0] == t[i].0 && ks[1..] == Letters(t)[i + 1..];
      var rest := OccurrenceSum(b, Letters(t)[i + 1..]);
      assert OccurrenceSum(b, ks) == o + rest;
      TableSumRatio(b, t, i + 1);
      var n := |b| as real;
      assert t[i].1 == o as real / n;
      assert SumFrom(t, i + 1) == rest as real / n;
      assert SumFrom(t, i) == o as real / n + rest as real / n;
      AddRatios(o as real, rest as real, n);
      assert (o + rest) as real == o as real + rest as real;
    }
  }

  lemma AddRatios(x: real, y: real, n: real)
    requires n > 0.0
    ensures x / n + y / n == (x + y) / n
  {
  }

  lemma {:induction false} TableSumOfZeros(t: Table, i: nat)
    requires i <= |t|
    requires forall j :: 0 <= j < |t| ==> t[j].1 == 0.0
    ensures SumFrom(t, i) == 0.0
    decreases |t| - i
  {
    if i < |t| {
      TableSumOfZeros(t, i + 1);
    }
  }

  /** Each entry of `freq_table` is the letter frequency of its own key. */
  lemma FreqTableValues(b: seq<byte>, ref: Table)
    ensures forall j :: 0 <= j < |FreqTableOver(b, ref)| ==>
              FreqTableOver(b, ref)[j].1 == LetterFrequency(b, FreqTableOver(b, ref)[j].0)
  {
    var t := FreqTableOver(b, ref);
    forall j | 0 <= j < |t|
      ensures t[j].1 == LetterFrequency(b, t[j].0)
    {
      assert Letters(t)[j] == Letters(ref)[j];
    }
  }

  /** The sample table is a sub-probability distribution: its entries add up to at most 1. */
  lemma {:induction false} FreqTableSumAtMostOne(b: seq<byte>)
    ensures TableSum(FreqTable(b)) <= 1.0
  {
    var t := FreqTable(b);
    FreqTableValues(b, EnglishFreqTable);
    if |b| == 0 {
      forall j | 0 <= j < |t|
        ensures t[j].1 == 0.0
      {
        assert Occurrences(b, t[j].0) == 0;
      }
      TableSumOfZeros(t, 0);
    } else {
      TableSumRatio(b, t, 0);
      assert Letters(t)[0..] == Letters(t);
      LettersAtMostOne(b, Letters(t));
    }
  }

  /** The distinct letters of the reference table occur at most `|b|` times in total. */
  lemma LettersAtMostOne(b: seq<byte>, ks: seq<char>)
    requires |b| > 0 && ks == Letters(EnglishFreqTable)
    ensures OccurrenceSum(b, ks) as real / |b| as real <= 1.0
  {
    EnglishTableShape();
    OccurrenceSumBound(b, ks);
    var total := OccurrenceSum(b, ks);
    if total > 0 {
      RatioFacts(total, |b|);
    }
  }

  /** A candidate without ASCII letters, the empty one included, gets the all-zero table. */
  lemma {:induction false} NoLettersAllZero(b: seq<byte>)
    requires forall i :: 0 <= i < |b| ==> !IsAsciiLetter(b[i])
    ensures forall i :: 0 <= i < |FreqTable(b)| ==> FreqTable(b)[i].1 == 0.0
  {
    forall k | IsLowerLetter(k)
      ensures Occurrences(b, k) == 0
    {
      NotInWithoutLetters(b, k as int);
      NotInWithoutLetters(b, k as int - 32);
    }
  }

  lemma NotInWithoutLetters(b: seq<byte>, x: int)
    requires forall i :: 0 <= i < |b| ==> !IsAsciiLetter(b[i])
    requires (97 <= x <= 122) || (65 <= x <= 90)
    ensures multiset(b)[x] == 0
  {
  }

  /**
    The sum of `sqrt(sample[k] * reference[k])` over the entries
    `(k, reference[k])` of `ref` from position `i` on.
  */
  function RootProductFrom(sample: Table, ref: Table, i: nat, sqrt: real -> real): (r: real)
    requires i <= |ref|
    requires forall j :: 0 <= j < |ref| ==> ref[j].0 in Letters(sample)
    ensures (forall x :: 0.0 <= sqrt(x)) ==> 0.0 <= r
    ensures sqrt(0.0) == 0.0 && (forall j :: 0 <= j < |sample| ==> sample[j].1 == 0.0) ==> r == 0.0
    decreases |ref| - i
  {
    if i == |ref| then 0.0
    else
      var v := Get(sample, ref[i].0);
      GetOfZeros(sample, ref[i].0);
      assert v == 0.0 ==> v * ref[i].1 == 0.0;
      sqrt(v * ref[i].1) + RootProductFrom(sample, ref, i + 1, sqrt)
  }

  /** In a table whose values are all 0, every lookup gives 0. */
  lemma GetOfZeros(t: Table, c: char)
    requires c in Letters(t)
    ensures (forall j :: 0 <= j < |t| ==> t[j].1 == 0.0) ==> Get(t, c) == 0.0
  {
    var j :| 0 <= j < |t| && t[j] == (c, Get(t, c));
  }

  /**
    `bhattacharyya_coefficient(sample, english_freq_table)`, summed over the
    reference table's keys in their listed order; a key missing from the
    sample would be a `KeyError`.
  */
  function Bhattacharyya(sample: Table, sqrt: real -> real): (r: real)
    requires forall c :: c in Letters(EnglishFreqTable) ==> c in Letters(sample)
    ensures (forall x :: 0.0 <= sqrt(x)) ==> 0.0 <= r
    ensures sqrt(0.0) == 0.0 && (forall j :: 0 <= j < |sample| ==> sample[j].1 == 0.0) ==> r == 0.0
  {
    assert forall j :: 0 <= j < |EnglishFreqTable| ==> Letters(EnglishFreqTable)[j] == EnglishFreqTable[j].0;
    RootProductFrom(sample, EnglishFreqTable, 0, sqrt)
  }

  /** `compare_frequency(b)`: the score and the sample table it was computed from. */
  function CompareFrequency(b: seq<byte>, sqrt: real -> real): (r: (real, Table))
    ensures Letters(r.1) == Letters(EnglishFreqTable)
    ensures forall i :: 0 <= i < |r.1| ==> r.1[i].1 == LetterFrequency(b, r.1[i].0)
    ensures r.0 == Bhattacharyya(r.1, sqrt)
    ensures (forall x :: 0.0 <= sqrt(x)) ==> 0.0 <= r.0
  {
    var table := FreqTable(b);
    FreqTableValues(b, EnglishFreqTable);
    assert Letters(table) == Letters(EnglishFreqTable);
    (Bhattacharyya(table, sqrt), table)
  }

  /** Reordering the bytes of a candidate changes neither its table nor its score. */
  lemma {:induction false} CompareFrequencyPermutationInvariant(a: seq<byte>, b: seq<byte>, sqrt: real -> real)
    requires multiset(a) == multiset(b)
    ensures CompareFrequency(a, sqrt) == CompareFrequency(b, sqrt)
  {
    assert |a| == |multiset(a)| == |multiset(b)| == |b|;
    forall k
      ensures LetterFrequency(a, k) == LetterFrequency(b, k)
    {
      assert Occurrences(a, k) == Occurrences(b, k);
    }
    var ta, tb := FreqTable(a), FreqTable(b);
    assert |ta| == |Letters(ta)| == |Letters(tb)| == |tb|;
    forall i | 0 <= i < |ta|
      ensures ta[i] == tb[i]
    {
      assert Letters(ta)[i] == Letters(tb)[i];
    }
    assert ta == tb;
  }

  /** With a square root that maps 0 to 0, a candidate without letters scores 0. */
  lemma {:induction false} NoLettersScoreZero(b: seq<byte>, sqrt: real -> real)
    requires sqrt(0.0) == 0.0
    requires forall i :: 0 <= i < |b| ==> !IsAsciiLetter(b[i])
    ensures CompareFrequency(b, sqrt).0 == 0.0
  {
    NoLettersAllZero(b);
  }
}
