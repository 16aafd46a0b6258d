/** ROT13 (`rot13Cipher`): every ASCII letter moves 13 places through its own
    alphabet; every other code unit passes through in place. */
module Rot13 {
  import opened TextUnits
  import opened Caesar

  /** The per-code-unit arithmetic of `rot13Cipher`. */
  function Rot13Unit(c: CodeUnit): (r: CodeUnit)
    ensures IsUpper(r) <==> IsUpper(c)
    ensures IsLower(r) <==> IsLower(c)
    ensures !IsLetter(c) ==> r == c
    ensures IsLetter(c) ==> LetterIndex(r) == (LetterIndex(c) + 13) % 26
  {
    if 65 <= c <= 90 then ((c - 65 + 13) % 26) + 65
    else if 97 <= c <= 122 then ((c - 97 + 13) % 26) + 97
    else c
  }

  /** `rot13Cipher(text)`: same length, same case at every position,
      non-letters untouched, and every letter 13 places on. */
  function Rot13Cipher(text: Text): (r: Text)
    ensures |r| == |text|
    ensures forall i :: 0 <= i < |text| ==> (IsUpper(r[i]) <==> IsUpper(text[i]))
    ensures forall i :: 0 <= i < |text| ==> (IsLower(r[i]) <==> IsLower(text[i]))
    ensures forall i :: 0 <= i < |text| && !IsLetter(text[i]) ==> r[i] == text[i]
    ensures forall i :: 0 <= i < |text| && IsLetter(text[i]) ==>
      LetterIndex(r[i]) == (LetterIndex(text[i]) + 13) % 26
  {
    seq(|text|, i requires 0 <= i < |text| => Rot13Unit(text[i]))
  }

  /** ROT13 is the Caesar transform with shift 13, and since 13 is half of
      26, encrypting and decrypting with 13 are the same transform. */
  lemma {:induction false} Rot13IsCaesar(text: Text)
    ensures Rot13Cipher(text) == CaesarCipher(text, 13, true)
    ensures Rot13Cipher(text) == CaesarCipher(text, 13, false)
  {
    var r, e, d := Rot13Cipher(text), CaesarCipher(text, 13, true), CaesarCipher(text, 13, false);
    assert EffectiveShift(13, true) == 13;
    assert EffectiveShift(13, false) == 13;
    forall i | 0 <= i < |text| ensures r[i] == e[i] && r[i] == d[i] {
    }
  }

  /** Applying ROT13 twice gives the text back. */
  lemma {:induction false} Rot13Involution(text: Text)
    ensures Rot13Cipher(Rot13Cipher(text)) == text
  {
    var r := Rot13Cipher(Rot13Cipher(text));
    forall i | 0 <= i < |text| ensures r[i] == text[i] {
      ShiftUnitInverse(text[i], 13);
      Rot13IsCaesar(text);
      Rot13IsCaesar(Rot13Cipher(text));
    }
  }

  /** No letter is its own image: every letter of the text changes. */
  lemma Rot13NoFixedLetter(text: Text)
    ensures forall i :: 0 <= i < |text| && IsLetter(text[i]) ==> Rot13Cipher(text)[i] != text[i]
  {
    var r := Rot13Cipher(text);
    forall i | 0 <= i < |text| && IsLetter(text[i]) ensures r[i] != text[i] {
      ModSmall(LetterIndex(text[i]) + 13);
    }
  }

  /** "Hello!" becomes "Uryyb!". */
  lemma Rot13Example()
    ensures Rot13Cipher(Ascii("Hello!")) == Ascii("Uryyb!")
  {
    var r := Rot13Cipher(Ascii("Hello!"));
    assert r[0] == 85 && r[1] == 114 && r[2] == 121;
    assert r[3] == 121 && r[4] == 98 && r[5] == 33;
  }
}
