/** The Vigenere transform (`vigenereCipher`). The key is the keyword folded
    to lower case with everything but `a`..`z` removed; the code unit at raw
    position `i` of the text is Caesar-shifted by the key letter at
    `i % |key|`. Non-letters are passed through but still use up a key
    position, because the index is the position in the whole text. */
module Vigenere {
  import opened TextUnits
  import opened Caesar

  /** The shift one key letter stands for: its alphabet index when
      encrypting, the complement `(26 - index) % 26` when decrypting. */
  function KeyShift(keyChar: CodeUnit, encrypt: bool): (k: int)
    requires IsLower(keyChar)
    ensures 0 <= k < 26
    ensures k == (if encrypt then LetterIndex(keyChar) else -LetterIndex(keyChar)) % 26
  {
    var ks := keyChar - 97;
    if encrypt then ks else (26 - ks) % 26
  }

  /** `vigenereCipher(text, keyword, encrypt)`: same length, same case at
      every position, non-letters untouched, and the text itself when the
      keyword has no letter `a`..`z` (`VigenereShiftsLetters` says where the
      letters go). */
  function VigenereCipher(text: Text, keyword: Text, encrypt: bool): (r: Text)
    ensures |r| == |text|
    ensures LowercaseLetters(keyword) == [] ==> r == text
    ensures forall i :: 0 <= i < |text| ==> (IsUpper(r[i]) <==> IsUpper(text[i]))
    ensures forall i :: 0 <= i < |text| ==> (IsLower(r[i]) <==> IsLower(text[i]))
    ensures forall i :: 0 <= i < |text| && !IsLetter(text[i]) ==> r[i] == text[i]
  {
    if keyword == [] then text
    else
      var key := LowercaseLetters(keyword);
      if |key| == 0 then text
      else seq(|text|, i requires 0 <= i < |text| => ShiftUnit(text[i], KeyShift(key[i % |key|], encrypt)))
  }

  /** The letter at raw position `i` moves by the alphabet index of key
      letter `i % |key|`: forward when encrypting, back when decrypting. */
  lemma VigenereShiftsLetterAt(text: Text, keyword: Text, encrypt: bool, i: int)
    requires LowercaseLetters(keyword) != []
    requires 0 <= i < |text| && IsLetter(text[i])
    ensures var key := LowercaseLetters(keyword); var ki := LetterIndex(key[i % |key|]);
      LetterIndex(VigenereCipher(text, keyword, encrypt)[i]) == (LetterIndex(text[i]) + (if encrypt then ki else -ki)) % 26
  {
    var key := LowercaseLetters(keyword);
    assert keyword != [];
    var ki := LetterIndex(key[i % |key|]);
    var k := KeyShift(key[i % |key|], encrypt);
    assert VigenereCipher(text, keyword, encrypt)[i] == ShiftUnit(text[i], k);
    AddModulo(LetterIndex(text[i]), if encrypt then ki else -ki);
  }

  /** The same for every letter of the text at once. */
  lemma VigenereShiftsLetters(text: Text, keyword: Text, encrypt: bool)
    ensures var key := LowercaseLetters(keyword);
      key != [] ==>
        forall i :: 0 <= i < |text| && IsLetter(text[i]) ==>
          var ki := LetterIndex(key[i % |key|]);
          LetterIndex(VigenereCipher(text, keyword, encrypt)[i]) == (LetterIndex(text[i]) + (if encrypt then ki else -ki)) % 26
  {
    if LowercaseLetters(keyword) != [] {
      forall i | 0 <= i < |text| && IsLetter(text[i]) {
        VigenereShiftsLetterAt(text, keyword, encrypt, i);
      }
    }
  }

  /** Each letter is Caesar-transformed on its own, with the shift named by
      the key letter at its raw position. */
  lemma {:induction false} VigenereIsPositionwiseCaesar(text: Text, keyword: Text, encrypt: bool, i: int)
    requires LowercaseLetters(keyword) != []
    requires 0 <= i < |text|
    ensures var key := LowercaseLetters(keyword);
      VigenereCipher(text, keyword, encrypt)[i] ==
        CaesarCipher([text[i]], LetterIndex(key[i % |key|]), encrypt)[0]
  {
    var key := LowercaseLetters(keyword);
    assert keyword != [];
    assert KeyShift(key[i % |key|], encrypt) == EffectiveShift(LetterIndex(key[i % |key|]), encrypt);
  }

  /** A key of one letter makes the transform the Caesar transform with
      that letter's shift. */
  lemma {:induction false} VigenereSingleLetterKey(text: Text, keyword: Text, encrypt: bool)
    requires |LowercaseLetters(keyword)| == 1
    ensures VigenereCipher(text, keyword, encrypt) ==
      CaesarCipher(text, LetterIndex(LowercaseLetters(keyword)[0]), encrypt)
  {
    var key := LowercaseLetters(keyword);
    assert keyword != [];
    var v, c := VigenereCipher(text, keyword, encrypt), CaesarCipher(text, LetterIndex(key[0]), encrypt);
    forall i | 0 <= i < |text| ensures v[i] == c[i] {
      assert i % 1 == 0;
      assert KeyShift(key[0], encrypt) == EffectiveShift(LetterIndex(key[0]), encrypt);
    }
  }

  /** Encrypting and decrypting with one key letter cancel out. */
  lemma KeyShiftsCancel(c: CodeUnit, keyChar: CodeUnit)
    requires IsLower(keyChar)
    ensures ShiftUnit(ShiftUnit(c, KeyShift(keyChar, true)), KeyShift(keyChar, false)) == c
    ensures ShiftUnit(ShiftUnit(c, KeyShift(keyChar, false)), KeyShift(keyChar, true)) == c
  {
    ShiftUnitInverse(c, keyChar - 97);
  }

  /** Decrypting with the keyword undoes encrypting with it, and the other way
      round, for every keyword (one without letters leaves the text alone). */
  lemma {:induction false} VigenereRoundTrip(text: Text, keyword: Text)
    ensures VigenereCipher(VigenereCipher(text, keyword, true), keyword, false) == text
    ensures VigenereCipher(VigenereCipher(text, keyword, false), keyword, true) == text
  {
    var key := LowercaseLetters(keyword);
    if key != [] {
      assert keyword != [];
      var e := VigenereCipher(text, keyword, true);
      var d := VigenereCipher(text, keyword, false);
      var ed, de := VigenereCipher(e, keyword, false), VigenereCipher(d, keyword, true);
      forall i | 0 <= i < |text| ensures ed[i] == text[i] && de[i] == text[i] {
        KeyShiftsCancel(text[i], key[i % |key|]);
      }
    }
  }

  /** The key "ab" folds to itself. */
  lemma AbKey()
    ensures LowercaseLetters(Ascii("ab")) == Ascii("ab")
  {
    LowercaseLettersOfLetters(Ascii("ab"));
  }

  /** The key advances on every code unit, not only on letters: in "A A"
      under key "ab" the space uses up the `b`, so the second `A` is keyed by
      `a` again and stays `A` (a letters-only key stream would give "A B"). */
  lemma VigenereKeyAdvancesOnNonLetters()
    ensures VigenereCipher(Ascii("A A"), Ascii("ab"), true) == Ascii("A A")
  {
    var r := VigenereCipher(Ascii("A A"), Ascii("ab"), true);
    assert r[0] == 65 by { AbKey(); }
    assert r[1] == 32 by { AbKey(); }
    assert r[2] == 65 by { AbKey(); }
  }

  /** The key "LEMON" folds to "lemon". */
  lemma LemonKey()
    ensures LowercaseLetters(Ascii("LEMON")) == Ascii("lemon")
  {
    LowercaseLettersOfLetters(Ascii("LEMON"));
  }

  /** Letters 0..3 of the classic reference vector. */
  lemma ReferenceLetters0To3()
    ensures var r := VigenereCipher(Ascii("ATTACKATDAWN"), Ascii("LEMON"), true);
      r[0] == 76 && r[1] == 88 && r[2] == 70 && r[3] == 79
  {
    LemonKey();
  }

  /** Letters 4..7 of the classic reference vector. */
  lemma ReferenceLetters4To7()
    ensures var r := VigenereCipher(Ascii("ATTACKATDAWN"), Ascii("LEMON"), true);
      r[4] == 80 && r[5] == 86 && r[6] == 69 && r[7] == 70
  {
    LemonKey();
  }

  /** Letters 8..11 of the classic reference vector. */
  lemma ReferenceLetters8To11()
    ensures var r := VigenereCipher(Ascii("ATTACKATDAWN"), Ascii("LEMON"), true);
      r[8] == 82 && r[9] == 78 && r[10] == 72 && r[11] == 82
  {
    LemonKey();
  }

  /** The classic reference vector: ATTACKATDAWN under LEMON encrypts to
      LXFOPVEFRNHR. */
  lemma VigenereReferenceEncrypt()
    ensures VigenereCipher(Ascii("ATTACKATDAWN"), Ascii("LEMON"), true) == Ascii("LXFOPVEFRNHR")
  {
    ReferenceLetters0To3();
    ReferenceLetters4To7();
    ReferenceLetters8To11();
  }

  /** And LXFOPVEFRNHR under LEMON decrypts back to ATTACKATDAWN. */
  lemma VigenereReferenceDecrypt()
    ensures VigenereCipher(Ascii("LXFOPVEFRNHR"), Ascii("LEMON"), false) == Ascii("ATTACKATDAWN")
  {
    VigenereReferenceEncrypt();
    VigenereRoundTrip(Ascii("ATTACKATDAWN"), Ascii("LEMON"));
  }
}
