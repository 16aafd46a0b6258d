/** Letter-frequency analysis (`getLetterFrequency`) and the reference
    English distribution (`englishLetterFrequency`). */
module Frequency {
  import opened TextUnits

  /** The lower-case alphabet `a`..`z`: the keys of every frequency table. */
  const Alphabet: set<CodeUnit> := set c: CodeUnit | 97 <= c <= 122

  /** How many times `c` occurs in `s`. */
  function Occurrences(s: Text, c: int): (n: nat)
    ensures n <= |s|
  {
    if s == [] then 0
    else Occurrences(s[..|s| - 1], c) + (if s[|s| - 1] == c then 1 else 0)
  }

  /** A code unit that does not occur is counted zero times. */
  lemma {:induction false} OccurrencesAbsent(s: Text, c: int)
    requires c !in s
    ensures Occurrences(s, c) == 0
  {
    if s != [] {
      assert forall x :: x in s[..|s| - 1] ==> x in s;
      OccurrencesAbsent(s[..|s| - 1], c);
    }
  }

  /** Counts add up over concatenation. */
  lemma {:induction false} OccurrencesAppend(s: Text, t: Text, c: int)
    ensures Occurrences(s + t, c) == Occurrences(s, c) + Occurrences(t, c)
    decreases |t|
  {
    if t == [] {
      assert s + t == s;
    } else {
      assert (s + t)[..|s + t| - 1] == s + t[..|t| - 1];
      assert (s + t)[|s + t| - 1] == t[|t| - 1];
      OccurrencesAppend(s, t[..|t| - 1], c);
    }
  }

  /** Folding case and dropping non-letters leaves, for each lower-case
      letter, the number of its lower-case plus its upper-case occurrences. */
  lemma {:induction false} FoldedOccurrences(text: Text, c: int)
    requires IsLower(c)
    ensures Occurrences(LowercaseLetters(text), c) == Occurrences(text, c) + Occurrences(text, c - 32)
  {
    if text != [] {
      var init, last := text[..|text| - 1], text[|text| - 1];
      FoldedOccurrences(init, c);
      var tail := if IsLetter(last) then [ToLower(last)] else [];
      OccurrencesAppend(LowercaseLetters(init), tail, c);
      if IsLetter(last) {
        assert Occurrences([ToLower(last)], c) == Occurrences([], c) + (if ToLower(last) == c then 1 else 0);
      }
    }
  }

  /** The table `getLetterFrequency(text)` returns: every letter `a`..`z`
      present, mapped to its count in `text` with case ignored. */
  function FrequencyTable(text: Text): (table: map<CodeUnit, nat>)
    ensures table.Keys == Alphabet
    ensures forall c :: c in table ==> table[c] == Occurrences(text, c) + Occurrences(text, c - 32)
  {
    var table := map c: CodeUnit | 97 <= c <= 122 :: Occurrences(LowercaseLetters(text), c);
    assert forall c :: c in table ==> table[c] == Occurrences(text, c) + Occurrences(text, c - 32) by {
      forall c | c in table ensures table[c] == Occurrences(text, c) + Occurrences(text, c - 32) {
        FoldedOccurrences(text, c);
      }
    }
    table
  }

  /** `getLetterFrequency`: one pass over the folded letters bumps a count
      per letter, then a pass over `a`..`z` fills in the letters not seen. */
  method LetterFrequency(text: Text) returns (frequency: map<CodeUnit, nat>)
    ensures frequency == FrequencyTable(text)
  {
    frequency := map[];
    var letters := LowercaseLetters(text);
    var i := 0;
    while i < |letters|
      invariant 0 <= i <= |letters|
      invariant forall c :: c in frequency ==> IsLower(c) && frequency[c] == Occurrences(letters[..i], c)
      invariant forall c :: c in letters[..i] ==> c in frequency
    {
      var ch := letters[i];
      assert letters[..i + 1] == letters[..i] + [ch];
      forall c ensures Occurrences(letters[..i + 1], c) == Occurrences(letters[..i], c) + (if ch == c then 1 else 0) {
        OccurrencesAppend(letters[..i], [ch], c);
        assert Occurrences([ch], c) == Occurrences([], c) + (if ch == c then 1 else 0);
      }
      if ch !in frequency {
        OccurrencesAbsent(letters[..i], ch);
      }
      frequency := frequency[ch := (if ch in frequency then frequency[ch] else 0) + 1];
      i := i + 1;
    }
    assert letters[..i] == letters;
    var j := 0;
    while j < 26
      invariant 0 <= j <= 26
      invariant forall c :: c in frequency ==> IsLower(c) && frequency[c] == Occurrences(letters, c)
      invariant forall c :: c in letters ==> c in frequency
      invariant forall c :: 97 <= c < 97 + j ==> c in frequency
    {
      var ch := 97 + j;
      if ch !in frequency || frequency[ch] == 0 {
        if ch !in frequency {
          OccurrencesAbsent(letters, ch);
        }
        frequency := frequency[ch := 0];
      }
      j := j + 1;
    }
    assert frequency.Keys == Alphabet;
  }

  /** Sum of the table's counts over the letters `lo` .. `hi - 1`. */
  function TableSum(table: map<CodeUnit, nat>, lo: int, hi: int): nat
    requires forall c :: lo <= c < hi ==> c in table
    decreases hi - lo
  {
    if hi <= lo then 0 else table[lo] + TableSum(table, lo + 1, hi)
  }

  /** How many elements of `s` lie in `lo` .. `hi - 1`, counted value by value. */
  function CountInRange(s: Text, lo: int, hi: int): nat
    decreases hi - lo
  {
    if hi <= lo then 0 else Occurrences(s, lo) + CountInRange(s, lo + 1, hi)
  }

  lemma {:induction false} CountInRangeSnoc(s: Text, x: CodeUnit, lo: int, hi: int)
    ensures CountInRange(s + [x], lo, hi) == CountInRange(s, lo, hi) + (if lo <= x < hi then 1 else 0)
    decreases hi - lo
  {
    if lo < hi {
      assert (s + [x])[..|s|] == s;
      CountInRangeSnoc(s, x, lo + 1, hi);
    }
  }

  lemma {:induction false} CountInRangeEmpty(lo: int, hi: int)
    ensures CountInRange([], lo, hi) == 0
    decreases hi - lo
  {
    if lo < hi {
      CountInRangeEmpty(lo + 1, hi);
    }
  }

  /** Counting value by value over a range that holds every element counts
      every element once. */
  lemma {:induction false} CountInRangeAll(s: Text, lo: int, hi: int)
    requires forall i :: 0 <= i < |s| ==> lo <= s[i] < hi
    ensures CountInRange(s, lo, hi) == |s|
  {
    if s == [] {
      CountInRangeEmpty(lo, hi);
    } else {
      var init := s[..|s| - 1];
      CountInRangeAll(init, lo, hi);
      assert s == init + [s[|s| - 1]];
      CountInRangeSnoc(init, s[|s| - 1], lo, hi);
    }
  }

  lemma {:induction false} TableSumIsCount(text: Text, lo: int, hi: int)
    requires 97 <= lo && hi <= 123
    ensures TableSum(FrequencyTable(text), lo, hi) == CountInRange(LowercaseLetters(text), lo, hi)
    decreases hi - lo
  {
    if lo < hi {
      TableSumIsCount(text, lo + 1, hi);
      FoldedOccurrences(text, lo);
    }
  }

  /** The 26 counts add up to the number of ASCII letters in the text. */
  lemma FrequencyTotal(text: Text)
    ensures TableSum(FrequencyTable(text), 97, 123) == LetterCount(text)
  {
    TableSumIsCount(text, 97, 123);
    CountInRangeAll(LowercaseLetters(text), 97, 123);
  }

  /** No count exceeds the number of letters in the text. */
  lemma CountsBounded(text: Text, c: CodeUnit)
    requires c in Alphabet
    ensures FrequencyTable(text)[c] <= LetterCount(text)
  {
    FoldedOccurrences(text, c);
  }

  /** Text without letters (the empty text among it) gives all 26 counts zero. */
  lemma FrequencyWithoutLetters(text: Text)
    requires LetterCount(text) == 0
    ensures forall c :: c in FrequencyTable(text) ==> FrequencyTable(text)[c] == 0
  {
    forall c | c in FrequencyTable(text) ensures FrequencyTable(text)[c] == 0 {
      CountsBounded(text, c);
    }
  }

  /** Counting in a text of two code units. */
  lemma OccurrencesPair(x: CodeUnit, y: CodeUnit, c: int)
    ensures Occurrences([x, y], c) == (if x == c then 1 else 0) + (if y == c then 1 else 0)
  {
    assert [x, y][..1] == [x];
    assert [x][..0] == [];
  }

  /** "Aa" gives `a` two and every other letter zero. */
  lemma FrequencyExample()
    ensures FrequencyTable(Ascii("Aa"))[97] == 2
    ensures forall c :: c in FrequencyTable(Ascii("Aa")) && c != 97 ==> FrequencyTable(Ascii("Aa"))[c] == 0
  {
    var t := Ascii("Aa");
    assert t == [65, 97];
    forall c | c in FrequencyTable(t) ensures FrequencyTable(t)[c] == if c == 97 then 2 else 0 {
      OccurrencesPair(65, 97, c);
      OccurrencesPair(65, 97, c - 32);
    }
  }

  /** `englishLetterFrequency`: the expected percentage of each letter in
      English prose, in the order the source lists them (the order in which
      the auto-decryptor sums its score). */
  const EnglishLetterFrequency: seq<(CodeUnit, real)> := [
    ('e' as int, 12.02), ('t' as int, 9.10), ('a' as int, 8.12), ('o' as int, 7.68),
    ('i' as int, 7.31), ('n' as int, 6.95), ('s' as int, 6.28), ('r' as int, 6.02),
    ('h' as int, 5.92), ('d' as int, 4.32), ('l' as int, 3.98), ('u' as int, 2.88),
    ('c' as int, 2.71), ('m' as int, 2.61), ('f' as int, 2.30), ('y' as int, 2.11),
    ('w' as int, 2.09), ('g' as int, 2.03), ('p' as int, 1.82), ('b' as int, 1.49),
    ('v' as int, 1.11), ('k' as int, 0.69), ('x' as int, 0.17), ('q' as int, 0.11),
    ('j' as int, 0.10), ('z' as int, 0.07)
  ]

  /** The reference table has 26 distinct letters of `a`..`z` (so each of
      them exactly once), each with a percentage between 0 and 100. */
  lemma EnglishTableCoversAlphabet()
    ensures |EnglishLetterFrequency| == 26
    ensures forall i :: 0 <= i < 26 ==> EnglishLetterFrequency[i].0 in Alphabet
    ensures forall i, j :: 0 <= i < j < 26 ==> EnglishLetterFrequency[i].0 != EnglishLetterFrequency[j].0
    ensures forall i :: 0 <= i < 26 ==> 0.0 < EnglishLetterFrequency[i].1 < 100.0
  {
  }
}
