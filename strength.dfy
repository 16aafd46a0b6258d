/** The password-strength heuristic (`estimatePasswordStrength`): a score from
    length and character classes, improvement hints in a fixed order, and the
    band of the brute-force time at a billion guesses per second. */
module Strength {
  import opened TextUnits

  /** `/[A-Z]/.test(password)`, on code units. */
  predicate HasUpper(p: Text) { exists i | 0 <= i < |p| :: IsUpper(p[i]) }

  /** `/[a-z]/.test(password)`. */
  predicate HasLower(p: Text) { exists i | 0 <= i < |p| :: IsLower(p[i]) }

  /** `/[0-9]/.test(password)`. */
  predicate HasDigit(p: Text) { exists i | 0 <= i < |p| :: IsDigit(p[i]) }

  /** A code unit matched by `[^A-Za-z0-9]`: anything but an ASCII letter or digit. */
  predicate IsSpecial(c: int) { !IsLetter(c) && !IsDigit(c) }

  /** `/[^A-Za-z0-9]/.test(password)`. */
  predicate HasSpecial(p: Text) { exists i | 0 <= i < |p| :: IsSpecial(p[i]) }

  function Indicator(b: bool): nat { if b then 1 else 0 }

  /** `varietyCount`: how many of the four character classes occur. */
  function ClassCount(p: Text): (n: nat)
    ensures n <= 4
  {
    Indicator(HasUpper(p)) + Indicator(HasLower(p)) + Indicator(HasDigit(p)) + Indicator(HasSpecial(p))
  }

  function Min(a: int, b: int): int { if a < b then a else b }

  function Max(a: int, b: int): int { if a < b then b else a }

  /** What the score comes to: 4 per code unit and 15 per class present
      (5 for the class, 10 more through the variety bonus), capped at 100. */
  function StrengthScore(p: Text): (score: int)
    ensures 0 <= score <= 100
  {
    Min(100, 4 * |p| + 15 * ClassCount(p))
  }

  /** The five suggestions, by the condition that triggers each. */
  datatype Hint = TooShort | NoUpper | NoLower | NoDigit | NoSpecial

  /** The text shown for each suggestion. */
  function Message(h: Hint): string
  {
    match h
    case TooShort => "Make your password longer (at least 8 characters)."
    case NoUpper => "Add uppercase letters."
    case NoLower => "Add lowercase letters."
    case NoDigit => "Add numbers."
    case NoSpecial => "Add special characters."
  }

  /** Whether a suggestion applies to a password. */
  predicate Applies(h: Hint, p: Text)
  {
    match h
    case TooShort => |p| < 8
    case NoUpper => !HasUpper(p)
    case NoLower => !HasLower(p)
    case NoDigit => !HasDigit(p)
    case NoSpecial => !HasSpecial(p)
  }

  /** Position of a suggestion in the order the checks run. */
  function Rank(h: Hint): nat
  {
    match h
    case TooShort => 0
    case NoUpper => 1
    case NoLower => 2
    case NoDigit => 3
    case NoSpecial => 4
  }

  const AllHints: seq<Hint> := [TooShort, NoUpper, NoLower, NoDigit, NoSpecial]

  /** `[h]` when `b` holds, nothing otherwise: one conditional `push`. */
  function Pick(b: bool, h: Hint): seq<Hint>
  {
    if b then [h] else []
  }

  /** The entries of `hints` that apply to `p`, in their order. */
  function Select(hints: seq<Hint>, p: Text): (r: seq<Hint>)
    ensures |r| <= |hints|
  {
    if hints == [] then []
    else
      var init, last := hints[..|hints| - 1], hints[|hints| - 1];
      Select(init, p) + Pick(Applies(last, p), last)
  }

  /** Exactly the entries that apply are kept. */
  lemma {:induction false} SelectMembership(hints: seq<Hint>, p: Text)
    ensures forall h :: h in Select(hints, p) <==> h in hints && Applies(h, p)
  {
    if hints != [] {
      var init, last := hints[..|hints| - 1], hints[|hints| - 1];
      SelectMembership(init, p);
      assert hints == init + [last];
    }
  }

  /** The suggestions for `p`, one check after another. */
  function Hints(p: Text): (hints: seq<Hint>)
    ensures |hints| <= 5
    ensures |p| < 8 <==> hints != [] && hints[0] == TooShort
  {
    Pick(|p| < 8, TooShort) + Pick(!HasUpper(p), NoUpper) + Pick(!HasLower(p), NoLower) +
      Pick(!HasDigit(p), NoDigit) + Pick(!HasSpecial(p), NoSpecial)
  }

  /** Ranks strictly increase along `s`, so no suggestion repeats. */
  predicate Ordered(s: seq<Hint>)
  {
    forall i, j :: 0 <= i < j < |s| ==> Rank(s[i]) < Rank(s[j])
  }

  /** Selecting from one more entry is one more conditional push. */
  lemma SelectSnoc(hints: seq<Hint>, k: nat, p: Text)
    requires k < |hints|
    ensures Select(hints[..k + 1], p) == Select(hints[..k], p) + Pick(Applies(hints[k], p), hints[k])
  {
    assert hints[..k + 1][..k] == hints[..k];
  }

  /** Selecting keeps the order of the entries. */
  lemma {:induction false} SelectOrdered(hints: seq<Hint>, p: Text)
    requires Ordered(hints)
    ensures Ordered(Select(hints, p))
  {
    if hints != [] {
      var init, last := hints[..|hints| - 1], hints[|hints| - 1];
      SelectOrdered(init, p);
      SelectMembership(init, p);
      var s := Select(init, p);
      forall i | 0 <= i < |s| ensures Rank(s[i]) < Rank(last) {
        assert s[i] in init;
        var k :| 0 <= k < |init| && init[k] == s[i];
        assert hints[k] == init[k];
      }
      var r := Select(hints, p);
      assert r == s + Pick(Applies(last, p), last);
      forall i, j | 0 <= i < j < |r| ensures Rank(r[i]) < Rank(r[j]) {
        if j < |s| {
          assert r[i] == s[i] && r[j] == s[j];
        } else {
          assert r[i] == s[i] && r[j] == last;
        }
      }
    }
  }

  /** When every entry applies, all of them are kept. */
  lemma {:induction false} SelectAll(hints: seq<Hint>, p: Text)
    requires forall i :: 0 <= i < |hints| ==> Applies(hints[i], p)
    ensures Select(hints, p) == hints
  {
    if hints != [] {
      SelectAll(hints[..|hints| - 1], p);
      assert hints == hints[..|hints| - 1] + [hints[|hints| - 1]];
    }
  }

  /** When no entry applies, none is kept. */
  lemma {:induction false} SelectNone(hints: seq<Hint>, p: Text)
    requires forall i :: 0 <= i < |hints| ==> !Applies(hints[i], p)
    ensures Select(hints, p) == []
  {
    if hints != [] {
      SelectNone(hints[..|hints| - 1], p);
    }
  }

  /** The checks run in the order of `AllHints`, so the suggestions are the
      hints that apply, filtered out of `AllHints`. */
  lemma HintsAsFilter(p: Text)
    ensures Hints(p) == Select(AllHints, p)
  {
    SelectOfFive(AllHints, p);
  }

  /** Selecting from five entries is five conditional pushes. */
  lemma SelectOfFive(hints: seq<Hint>, p: Text)
    requires |hints| == 5
    ensures Select(hints, p) ==
      Pick(Applies(hints[0], p), hints[0]) + Pick(Applies(hints[1], p), hints[1]) +
      Pick(Applies(hints[2], p), hints[2]) + Pick(Applies(hints[3], p), hints[3]) +
      Pick(Applies(hints[4], p), hints[4])
  {
    var p0, p1, p2 := Pick(Applies(hints[0], p), hints[0]), Pick(Applies(hints[1], p), hints[1]), Pick(Applies(hints[2], p), hints[2]);
    var p3, p4 := Pick(Applies(hints[3], p), hints[3]), Pick(Applies(hints[4], p), hints[4]);
    SelectSnoc(hints, 0, p);
    assert Select(hints[..1], p) == p0 by {
      assert hints[..0] == [];
      assert [] + p0 == p0;
    }
    SelectSnoc(hints, 1, p);
    var s2 := p0 + p1;
    assert Select(hints[..2], p) == s2;
    SelectSnoc(hints, 2, p);
    var s3 := s2 + p2;
    assert Select(hints[..3], p) == s3;
    SelectSnoc(hints, 3, p);
    var s4 := s3 + p3;
    assert Select(hints[..4], p) == s4;
    SelectSnoc(hints, 4, p);
    assert hints[..5] == hints;
  }

  /** A suggestion is given exactly when its condition holds. */
  lemma HintsExactlyWhenApplicable(p: Text)
    ensures forall h :: h in Hints(p) <==> Applies(h, p)
  {
    HintsAsFilter(p);
    SelectMembership(AllHints, p);
    forall h ensures h in AllHints {
      match h
      case TooShort => assert AllHints[0] == h;
      case NoUpper => assert AllHints[1] == h;
      case NoLower => assert AllHints[2] == h;
      case NoDigit => assert AllHints[3] == h;
      case NoSpecial => assert AllHints[4] == h;
    }
  }

  /** The five hints are listed by rank. */
  lemma AllHintsOrdered()
    ensures Ordered(AllHints)
  {
    forall i, j | 0 <= i < j < 5 ensures Rank(AllHints[i]) < Rank(AllHints[j]) {
      assert Rank(AllHints[i]) == i && Rank(AllHints[j]) == j;
    }
  }

  /** The suggestions come in the order length, upper, lower, digit,
      special, so none is given twice. */
  lemma HintsInFixedOrder(p: Text)
    ensures Ordered(Hints(p))
  {
    HintsAsFilter(p);
    AllHintsOrdered();
    SelectOrdered(AllHints, p);
  }

  /** All five suggestions come only for the empty password: any code unit
      belongs to some class, which removes that class's suggestion. */
  lemma AllHintsOnlyWhenEmpty(p: Text)
    ensures |Hints(p)| == 5 <==> p == []
  {
    ClassesOfPassword(p);
  }

  /** The brute-force time band. */
  datatype CrackBand = Seconds | Minutes | Hours | Days | Years | Centuries

  function BandRank(b: CrackBand): nat
  {
    match b
    case Seconds => 0
    case Minutes => 1
    case Hours => 2
    case Days => 3
    case Years => 4
    case Centuries => 5
  }

  /** `possibleChars || 1`: 26, 26, 10 and 32 for the classes present, or 1
      when there are none. */
  function AlphabetSize(p: Text): (n: nat)
    ensures 1 <= n <= 94
  {
    var size := 26 * Indicator(HasLower(p)) + 26 * Indicator(HasUpper(p)) +
      10 * Indicator(HasDigit(p)) + 32 * Indicator(HasSpecial(p));
    if size == 0 then 1 else size
  }

  /** `Math.pow(base, exponent)` on exact integers. */
  function Power(base: nat, exponent: nat): (r: nat)
    ensures 1 <= base ==> 1 <= r
  {
    if exponent == 0 then 1 else base * Power(base, exponent - 1)
  }

  const GuessesPerSecond: nat := 1_000_000_000

  /** The band for a number of combinations, by whole thresholds: a minute,
      an hour, a day, a 365-day year and a hundred such years of guessing. */
  function BandFor(combinations: nat): (band: CrackBand)
    ensures band == Seconds <==> combinations < 60 * GuessesPerSecond
    ensures band == Centuries <==> 3153600000 * GuessesPerSecond <= combinations
  {
    if combinations < 60 * GuessesPerSecond then Seconds
    else if combinations < 3600 * GuessesPerSecond then Minutes
    else if combinations < 86400 * GuessesPerSecond then Hours
    else if combinations < 31536000 * GuessesPerSecond then Days
    else if combinations < 3153600000 * GuessesPerSecond then Years
    else Centuries
  }

  /** Comparing the seconds `combinations / 10^9` with a whole number of
      seconds is comparing the combinations with that many billions. */
  lemma SecondsBelow(combinations: nat, limit: nat)
    ensures combinations as real / 1_000_000_000.0 < limit as real <==>
      combinations < limit * GuessesPerSecond
  {
    var seconds := combinations as real / 1_000_000_000.0;
    assert seconds * 1_000_000_000.0 == combinations as real;
  }

  /** The band of a password: every combination of its length over its alphabet. */
  function CrackBandOf(p: Text): (band: CrackBand)
    ensures |p| <= 1 ==> band == Seconds
  {
    BandFor(Power(AlphabetSize(p), |p|))
  }

  /** `estimatePasswordStrength(password)`: the score, the time band and the
      suggestions, accumulated check by check as the source does. */
  method EstimatePasswordStrength(password: Text) returns (score: int, timeToBreak: CrackBand, suggestions: seq<Hint>)
    ensures score == StrengthScore(password)
    ensures timeToBreak == CrackBandOf(password)
    ensures suggestions == Hints(password)
  {
    var length := |password|;
    var hasUpperCase := HasUpper(password);
    var hasLowerCase := HasLower(password);
    var hasNumbers := HasDigit(password);
    var hasSpecialChars := HasSpecial(password);

    score := 0;
    suggestions := [];

    score := score + length * 4;

    if hasUpperCase { score := score + 5; }
    if hasLowerCase { score := score + 5; }
    if hasNumbers { score := score + 5; }
    if hasSpecialChars { score := score + 5; }

    var varietyCount := Indicator(hasUpperCase) + Indicator(hasLowerCase) +
      Indicator(hasNumbers) + Indicator(hasSpecialChars);
    assert varietyCount == ClassCount(password);
    assert score == 4 * length + 5 * varietyCount;
    score := score + varietyCount * 10;

    if length < 8 { suggestions := suggestions + [TooShort]; }
    assert suggestions == Pick(length < 8, TooShort);
    if !hasUpperCase { suggestions := suggestions + [NoUpper]; }
    assert suggestions == Pick(length < 8, TooShort) + Pick(!hasUpperCase, NoUpper);
    if !hasLowerCase { suggestions := suggestions + [NoLower]; }
    assert suggestions == Pick(length < 8, TooShort) + Pick(!hasUpperCase, NoUpper) + Pick(!hasLowerCase, NoLower);
    if !hasNumbers { suggestions := suggestions + [NoDigit]; }
    assert suggestions == Pick(length < 8, TooShort) + Pick(!hasUpperCase, NoUpper) + Pick(!hasLowerCase, NoLower) +
      Pick(!hasNumbers, NoDigit);
    if !hasSpecialChars { suggestions := suggestions + [NoSpecial]; }

    var possibleChars := 0;
    if hasLowerCase { possibleChars := possibleChars + 26; }
    if hasUpperCase { possibleChars := possibleChars + 26; }
    if hasNumbers { possibleChars := possibleChars + 10; }
    if hasSpecialChars { possibleChars := possibleChars + 32; }

    assert (if possibleChars == 0 then 1 else possibleChars) == AlphabetSize(password);
    timeToBreak := TimeToBreak(possibleChars, length);

    score := Min(100, Max(0, score));
  }

  /** The crack-time part of `estimatePasswordStrength`: every combination
      of `length` code units over `possibleChars || 1` symbols, a billion
      guesses per second, and the first band whose limit the seconds stay
      below. */
  method TimeToBreak(possibleChars: nat, length: nat) returns (timeToBreak: CrackBand)
    ensures timeToBreak == BandFor(Power(if possibleChars == 0 then 1 else possibleChars, length))
  {
    var combinations := Power(if possibleChars == 0 then 1 else possibleChars, length);
    var seconds := combinations as real / 1_000_000_000.0;

    SecondsBelow(combinations, 60);
    SecondsBelow(combinations, 3600);
    SecondsBelow(combinations, 86400);
    SecondsBelow(combinations, 31536000);
    SecondsBelow(combinations, 3153600000);

    if seconds < 60.0 {
      timeToBreak := Seconds;
    } else if seconds < 3600.0 {
      timeToBreak := Minutes;
    } else if seconds < 86400.0 {
      timeToBreak := Hours;
    } else if seconds < 31536000.0 {
      timeToBreak := Days;
    } else if seconds < 31536000.0 * 100.0 {
      timeToBreak := Years;
    } else {
      timeToBreak := Centuries;
    }
  }

  /** Every code unit belongs to one of the four classes, so only the empty
      password has none, and only it has the alphabet size 1. */
  lemma ClassesOfPassword(p: Text)
    ensures ClassCount(p) == 0 <==> p == []
    ensures AlphabetSize(p) == 1 <==> p == []
  {
    if p != [] {
      var c := p[0];
      if IsUpper(c) { assert HasUpper(p); }
      else if IsLower(c) { assert HasLower(p); }
      else if IsDigit(c) { assert HasDigit(p); }
      else { assert HasSpecial(p); }
    }
  }

  /** The empty password scores 0, gets all five suggestions, and falls in
      the lowest band. */
  lemma EmptyPassword()
    ensures StrengthScore([]) == 0
    ensures Hints([]) == AllHints
    ensures CrackBandOf([]) == Seconds
  {
    HintsAsFilter([]);
    SelectAll(AllHints, []);
  }

  /** 94^11 is beyond a hundred years of guessing. */
  lemma ElevenOfNinetyFour()
    ensures Power(94, 11) >= 3153600000 * GuessesPerSecond
  {
    assert Power(94, 5) == 7339040224;
    assert Power(94, 11) == 94 * 94 * 94 * 94 * 94 * 94 * Power(94, 5);
  }

  /** "Tr0ub4dor&3" has a code unit of every class. */
  lemma StrongPasswordClasses()
    ensures var p := Ascii("Tr0ub4dor&3");
      HasUpper(p) && HasLower(p) && HasDigit(p) && HasSpecial(p) && |p| == 11
  {
    var p := Ascii("Tr0ub4dor&3");
    assert IsUpper(p[0]) && IsLower(p[1]) && IsDigit(p[2]) && IsSpecial(p[9]);
  }

  /** "Tr0ub4dor&3" has all four classes and 11 code units: full score. */
  lemma StrongPasswordScore()
    ensures StrengthScore(Ascii("Tr0ub4dor&3")) == 100
  {
    StrongPasswordClasses();
  }

  /** "Tr0ub4dor&3" gets no suggestion. */
  lemma StrongPasswordHints()
    ensures Hints(Ascii("Tr0ub4dor&3")) == []
  {
    StrongPasswordClasses();
    HintsAsFilter(Ascii("Tr0ub4dor&3"));
    SelectNone(AllHints, Ascii("Tr0ub4dor&3"));
  }

  /** "Tr0ub4dor&3" has 94^11 combinations, beyond a hundred years. */
  lemma StrongPasswordBand()
    ensures CrackBandOf(Ascii("Tr0ub4dor&3")) == Centuries
  {
    StrongPasswordClasses();
    ElevenOfNinetyFour();
  }

  /** Appending a code unit keeps every class already present. */
  lemma ClassesPersist(p: Text, c: CodeUnit)
    ensures HasUpper(p) ==> HasUpper(p + [c])
    ensures HasLower(p) ==> HasLower(p + [c])
    ensures HasDigit(p) ==> HasDigit(p + [c])
    ensures HasSpecial(p) ==> HasSpecial(p + [c])
  {
    forall i | 0 <= i < |p| ensures (p + [c])[i] == p[i] { }
  }

  /** Appending a code unit never lowers the score. */
  lemma ScoreNeverDropsWhenExtended(p: Text, c: CodeUnit)
    ensures StrengthScore(p) <= StrengthScore(p + [c])
  {
    ClassesPersist(p, c);
  }

  /** More combinations never give a lower band. */
  lemma BandMonotone(a: nat, b: nat)
    requires a <= b
    ensures BandRank(BandFor(a)) <= BandRank(BandFor(b))
  {
  }

  lemma {:induction false} PowerMonotone(base: nat, bigger: nat, exponent: nat)
    requires 1 <= base <= bigger
    ensures 1 <= Power(base, exponent) <= Power(bigger, exponent)
    ensures Power(base, exponent) <= Power(base, exponent + 1)
  {
    if exponent > 0 {
      PowerMonotone(base, bigger, exponent - 1);
      MultiplyMonotone(base, bigger, Power(base, exponent - 1), Power(bigger, exponent - 1));
    }
    MultiplyMonotone(1, base, 1, Power(base, exponent));
  }

  lemma MultiplyMonotone(a: nat, b: nat, x: nat, y: nat)
    requires a <= b && x <= y
    ensures a * x <= b * y
  {
    assert a * x <= b * x;
    assert b * x <= b * y;
  }

  /** Appending a code unit never shrinks the alphabet a guesser must use. */
  lemma AlphabetNeverShrinks(p: Text, c: CodeUnit)
    ensures AlphabetSize(p) <= AlphabetSize(p + [c])
  {
    ClassesPersist(p, c);
  }

  /** Appending any code unit never lowers the band: the alphabet does not
      shrink and the exponent grows by one. */
  lemma BandNeverDropsWhenExtended(p: Text, c: CodeUnit)
    ensures BandRank(CrackBandOf(p)) <= BandRank(CrackBandOf(p + [c]))
  {
    var a, b := AlphabetSize(p), AlphabetSize(p + [c]);
    AlphabetNeverShrinks(p, c);
    PowerMonotone(a, b, |p|);
    PowerMonotone(b, b, |p|);
    BandMonotone(Power(a, |p|), Power(b, |p| + 1));
  }
}
