/** Automatic Caesar decryption (`autoCaesarDecrypt`): try every shift
    0..25, score each decryption's letter distribution against English by a
    sum of squared differences, and keep the first strictly smaller score. */
module AutoDecrypt {
  import opened TextUnits
  import opened Caesar
  import opened Frequency

  /** A JavaScript number as far as the score needs it: NaN, or a finite
      value, kept here as an exact real. */
  datatype Number = NaN | Finite(value: real)

  /** JavaScript `a < b`: false as soon as either side is NaN. */
  predicate Less(a: Number, b: Number)
  {
    a.Finite? && b.Finite? && a.value < b.value
  }

  /** JavaScript `a + b`: NaN absorbs everything. */
  function Add(a: Number, b: Number): (r: Number)
    ensures r.Finite? <==> a.Finite? && b.Finite?
  {
    if a.Finite? && b.Finite? then Finite(a.value + b.value) else NaN
  }

  /** `Number.MAX_VALUE`, the score the search starts from. */
  const MaxValue: real := 179769313486231570814527423731704356798070567525844996598917476803157260780028538760589558632766878171540458953514382464234321326889464182768467546703537516986049910576551282076245490090389328944075868508455133942304583236903222948165808559332123348274797826204144723168738177180919299881250404026184124858368.0

  /** One letter's term `Math.pow(expected - actual, 2)` with
      `actual = (count / total) * 100`. A count never exceeds the total
      (`LetterCountPreserved`, `CountsBounded`), so a zero total means `0 / 0`,
      which is NaN. */
  function Term(expected: real, count: nat, total: nat): (t: Number)
    ensures t.Finite? <==> total > 0
    ensures t.Finite? ==> t.value >= 0.0
  {
    if total == 0 then NaN
    else
      var actual := (count as real / total as real) * 100.0;
      Finite((expected - actual) * (expected - actual))
  }

  /** The score accumulated over the first `n` entries of the English table,
      in the table's order. */
  function PartialScore(frequency: map<CodeUnit, nat>, total: nat, n: nat): (score: Number)
    requires Alphabet <= frequency.Keys
    requires n <= |EnglishLetterFrequency|
    ensures score.Finite? <==> n == 0 || total > 0
  {
    if n == 0 then Finite(0.0)
    else
      EnglishTableCoversAlphabet();
      var (letter, expected) := EnglishLetterFrequency[n - 1];
      Add(PartialScore(frequency, total, n - 1), Term(expected, frequency[letter], total))
  }

  /** The score of decrypting `text` with `shift`: the decryption's table
      against English, with percentages taken over the letters of `text`. */
  function DecryptionScore(text: Text, shift: int): (score: Number)
    ensures score.Finite? <==> LetterCount(text) > 0
  {
    PartialScore(FrequencyTable(CaesarCipher(text, shift, false)), LetterCount(text), 26)
  }

  /** The scores of all 26 shifts, in the order the search tries them. */
  function AllScores(text: Text): (scores: seq<Number>)
    ensures |scores| == 26
  {
    seq(26, t requires 0 <= t < 26 => DecryptionScore(text, t))
  }

  /** The inner loop of `autoCaesarDecrypt`: `score += Math.pow(...)` over
      the English table. */
  method ScoreAgainstEnglish(frequency: map<CodeUnit, nat>, total: nat) returns (score: Number)
    requires Alphabet <= frequency.Keys
    ensures score == PartialScore(frequency, total, 26)
  {
    EnglishTableCoversAlphabet();
    score := Finite(0.0);
    var i := 0;
    while i < 26
      invariant 0 <= i <= 26
      invariant score == PartialScore(frequency, total, i)
    {
      var (letter, expected) := EnglishLetterFrequency[i];
      score := Add(score, Term(expected, frequency[letter], total));
      i := i + 1;
    }
  }

  /** The body of the search loop for one shift: decrypt, count the
      decryption's letters, score the counts against English over the
      letters of the original text. */
  method ScoreShift(text: Text, shift: int) returns (score: Number)
    ensures score == DecryptionScore(text, shift)
  {
    var decrypted := CaesarCipher(text, shift, false);
    var decryptedFrequency := LetterFrequency(decrypted);
    score := ScoreAgainstEnglish(decryptedFrequency, LetterCount(text));
  }

  /** A count at most the total keeps a term within 0 .. 10000. */
  lemma TermBound(expected: real, count: nat, total: nat)
    requires 0.0 <= expected <= 100.0
    requires 0 < total && count <= total
    ensures Term(expected, count, total).value <= 10000.0
  {
    var q := count as real / total as real;
    assert q * (total as real) == count as real;
    assert 0.0 <= q <= 1.0;
    var d := expected - q * 100.0;
    assert -100.0 <= d <= 100.0;
    if d >= 0.0 {
      assert d * d <= 100.0 * d;
    } else {
      assert d * d <= -100.0 * d;
    }
  }

  /** With no letters every partial score past the first term is NaN; with
      letters it is a finite sum of at most `n` terms of at most 10000. */
  lemma {:induction false} PartialScoreBounds(frequency: map<CodeUnit, nat>, total: nat, n: nat)
    requires Alphabet <= frequency.Keys
    requires n <= |EnglishLetterFrequency|
    requires forall c :: c in Alphabet ==> frequency[c] <= total
    ensures total == 0 && n > 0 ==> PartialScore(frequency, total, n) == NaN
    ensures total > 0 ==>
      PartialScore(frequency, total, n).Finite? &&
      0.0 <= PartialScore(frequency, total, n).value <= 10000.0 * n as real
  {
    if n > 0 {
      PartialScoreBounds(frequency, total, n - 1);
      EnglishTableCoversAlphabet();
      var (letter, expected) := EnglishLetterFrequency[n - 1];
      if total > 0 {
        TermBound(expected, frequency[letter], total);
      }
    }
  }

  /** Every decryption of a text has as many letters as the text. */
  lemma LetterCountPreserved(text: Text, shift: int)
    ensures LetterCount(CaesarCipher(text, shift, false)) == LetterCount(text)
  {
    LetterCountSamePositions(CaesarCipher(text, shift, false), text);
  }

  /** Without letters every shift scores NaN; with letters every shift has a
      finite score below `Number.MAX_VALUE`. */
  lemma DecryptionScoreBounds(text: Text, shift: int)
    ensures LetterCount(text) == 0 ==> DecryptionScore(text, shift) == NaN
    ensures LetterCount(text) > 0 ==>
      DecryptionScore(text, shift).Finite? && DecryptionScore(text, shift).value < MaxValue
  {
    var decrypted := CaesarCipher(text, shift, false);
    LetterCountPreserved(text, shift);
    forall c | c in Alphabet ensures FrequencyTable(decrypted)[c] <= LetterCount(text) {
      CountsBounded(decrypted, c);
    }
    PartialScoreBounds(FrequencyTable(decrypted), LetterCount(text), 26);
  }

  /** The search over a list of scores, as `autoCaesarDecrypt` runs it:
      start from shift 0 with `Number.MAX_VALUE` and move to a later entry
      only when its score is strictly smaller. Gives the chosen index and
      the score kept with it. */
  function FirstMinimum(scores: seq<Number>): (best: (nat, Number))
    ensures best.0 < |scores| || best.0 == 0
  {
    if scores == [] then (0, Finite(MaxValue))
    else
      var (b, bestScore) := FirstMinimum(scores[..|scores| - 1]);
      var last := scores[|scores| - 1];
      if Less(last, bestScore) then (|scores| - 1, last) else (b, bestScore)
  }

  /** One more score moves the search only when it is strictly smaller than
      the score kept so far. */
  lemma FirstMinimumSnoc(scores: seq<Number>, x: Number)
    ensures FirstMinimum(scores + [x]) ==
      if Less(x, FirstMinimum(scores).1) then (|scores|, x) else FirstMinimum(scores)
  {
    assert (scores + [x])[..|scores|] == scores;
  }

  /** The scores of the first `s + 1` shifts extend those of the first `s`. */
  lemma AllScoresPrefix(text: Text, s: nat)
    requires s < 26
    ensures AllScores(text)[..s + 1] == AllScores(text)[..s] + [DecryptionScore(text, s)]
  {
  }

  /** Over finite scores below `Number.MAX_VALUE` the search finds a minimum,
      and the first one: no entry is strictly smaller than the one chosen,
      and every earlier entry is strictly larger. */
  lemma {:induction false} FirstMinimumOfFinite(scores: seq<Number>)
    requires forall t :: 0 <= t < |scores| ==> scores[t].Finite? && scores[t].value < MaxValue
    ensures scores != [] ==> FirstMinimum(scores).1 == scores[FirstMinimum(scores).0]
    ensures forall t :: 0 <= t < |scores| ==> !Less(scores[t], FirstMinimum(scores).1)
    ensures forall t :: 0 <= t < FirstMinimum(scores).0 ==> Less(FirstMinimum(scores).1, scores[t])
  {
    if scores != [] {
      var init := scores[..|scores| - 1];
      FirstMinimumOfFinite(init);
      var (b, bestScore) := FirstMinimum(init);
      assert init == [] ==> bestScore == Finite(MaxValue);
    }
  }

  /** Over NaN scores no comparison succeeds and the search keeps its start. */
  lemma {:induction false} FirstMinimumOfNaN(scores: seq<Number>)
    requires forall t :: 0 <= t < |scores| ==> scores[t] == NaN
    ensures FirstMinimum(scores) == (0, Finite(MaxValue))
  {
    if scores != [] {
      FirstMinimumOfNaN(scores[..|scores| - 1]);
    }
  }

  /** The shift `autoCaesarDecrypt` settles on. */
  function BestShift(text: Text): (shift: nat)
    ensures shift < 26
  {
    FirstMinimum(AllScores(text)).0
  }

  /** Text without letters scores NaN for every shift, so shift 0 stays. */
  lemma BestShiftWithoutLetters(text: Text)
    requires LetterCount(text) == 0
    ensures BestShift(text) == 0
  {
    var scores := AllScores(text);
    forall t | 0 <= t < 26 ensures scores[t] == NaN {
      DecryptionScoreBounds(text, t);
    }
    FirstMinimumOfNaN(scores);
  }

  /** What the search promises: the shift is in 0..25, no shift scores
      strictly lower, every smaller shift scores strictly higher (ties go to
      the lowest shift), and text without letters, which scores NaN
      everywhere, keeps shift 0. */
  lemma BestShiftIsFirstMinimum(text: Text)
    ensures BestShift(text) < 26
    ensures forall s :: 0 <= s < 26 ==> !Less(DecryptionScore(text, s), DecryptionScore(text, BestShift(text)))
    ensures forall s :: 0 <= s < BestShift(text) ==> Less(DecryptionScore(text, BestShift(text)), DecryptionScore(text, s))
    ensures LetterCount(text) == 0 ==> BestShift(text) == 0
  {
    var scores := AllScores(text);
    forall t | 0 <= t < 26
      ensures LetterCount(text) == 0 ==> scores[t] == NaN
      ensures LetterCount(text) > 0 ==> scores[t].Finite? && scores[t].value < MaxValue
    {
      DecryptionScoreBounds(text, t);
    }
    var b := BestShift(text);
    if LetterCount(text) == 0 {
      FirstMinimumOfNaN(scores);
      forall s | 0 <= s < 26
        ensures !Less(DecryptionScore(text, s), DecryptionScore(text, b))
      {
        assert scores[s] == DecryptionScore(text, s);
      }
    } else {
      FirstMinimumOfFinite(scores);
      assert scores[b] == DecryptionScore(text, b);
      forall s | 0 <= s < 26
        ensures !Less(DecryptionScore(text, s), DecryptionScore(text, b))
        ensures s < b ==> Less(DecryptionScore(text, b), DecryptionScore(text, s))
      {
        assert scores[s] == DecryptionScore(text, s);
      }
    }
  }

  /** `autoCaesarDecrypt(text)`: the shift the first-minimum search picks
      (`BestShiftIsFirstMinimum` says what that guarantees) and the text
      decrypted with it. */
  method AutoCaesarDecrypt(text: Text) returns (shift: int, plain: Text)
    ensures 0 <= shift < 26
    ensures shift == BestShift(text)
    ensures plain == CaesarCipher(text, shift, false)
    ensures LetterCount(text) == 0 ==> shift == 0 && plain == text
  {
    var bestShift, bestScore := 0, Finite(MaxValue);
    ghost var scores: seq<Number> := [];
    var s := 0;
    while s < 26
      invariant 0 <= s <= 26
      invariant scores == AllScores(text)[..s]
      invariant (bestShift, bestScore) == FirstMinimum(scores)
    {
      var score := ScoreShift(text, s);
      FirstMinimumSnoc(scores, score);
      AllScoresPrefix(text, s);
      if Less(score, bestScore) {
        bestShift, bestScore := s, score;
      }
      scores := scores + [score];
      s := s + 1;
    }
    assert scores == AllScores(text);
    shift := bestShift;
    plain := CaesarCipher(text, shift, false);
    if LetterCount(text) == 0 {
      BestShiftWithoutLetters(text);
      CaesarZeroShift(text, 0, false);
    }
  }
}
