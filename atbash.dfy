/** Atbash (`atbashCipher`): every ASCII letter is replaced by the letter at
    the mirrored position of its own alphabet (A and Z swap, a and z swap);
    every other code unit passes through in place. */
module Atbash {
  import opened TextUnits

  /** The per-code-unit arithmetic of `atbashCipher`. */
  function AtbashUnit(c: CodeUnit): (r: CodeUnit)
    ensures IsUpper(r) <==> IsUpper(c)
    ensures IsLower(r) <==> IsLower(c)
    ensures !IsLetter(c) ==> r == c
    ensures IsLetter(c) ==> LetterIndex(r) == 25 - LetterIndex(c)
  {
    if 65 <= c <= 90 then 90 - (c - 65)
    else if 97 <= c <= 122 then 122 - (c - 97)
    else c
  }

  /** `atbashCipher(text)`: same length; an upper-case `c` becomes `155 - c`
      and a lower-case `c` becomes `219 - c`, so the case stays and the
      alphabet index `n` becomes `25 - n`; non-letters are untouched. */
  function AtbashCipher(text: Text): (r: Text)
    ensures |r| == |text|
    ensures forall i :: 0 <= i < |text| && IsUpper(text[i]) ==> r[i] == 155 - text[i] && IsUpper(r[i])
    ensures forall i :: 0 <= i < |text| && IsLower(text[i]) ==> r[i] == 219 - text[i] && IsLower(r[i])
    ensures forall i :: 0 <= i < |text| && !IsLetter(text[i]) ==> r[i] == text[i]
    ensures forall i :: 0 <= i < |text| && IsLetter(text[i]) ==> LetterIndex(r[i]) == 25 - LetterIndex(text[i])
  {
    seq(|text|, i requires 0 <= i < |text| => AtbashUnit(text[i]))
  }

  /** Applying Atbash twice gives the text back. */
  lemma {:induction false} AtbashInvolution(text: Text)
    ensures AtbashCipher(AtbashCipher(text)) == text
  {
    var once := AtbashCipher(text);
    var twice := AtbashCipher(once);
    forall i | 0 <= i < |text| ensures twice[i] == text[i] {
      if IsUpper(text[i]) {
        assert IsUpper(once[i]);
      } else if IsLower(text[i]) {
        assert IsLower(once[i]);
      }
    }
  }

  /** No letter is its own image: the alphabet has even length, so the
      mirror has no middle letter (M and N swap). */
  lemma AtbashNoFixedLetter(text: Text)
    ensures forall i :: 0 <= i < |text| && IsLetter(text[i]) ==> AtbashCipher(text)[i] != text[i]
  {
  }

  /** The mirror reverses alphabetical order within each case. */
  lemma AtbashReversesOrder(text: Text, i: int, j: int)
    requires 0 <= i < |text| && 0 <= j < |text|
    requires (IsUpper(text[i]) && IsUpper(text[j])) || (IsLower(text[i]) && IsLower(text[j]))
    ensures text[i] < text[j] <==> AtbashCipher(text)[i] > AtbashCipher(text)[j]
  {
  }

  /** "Hello" becomes "Svool". */
  lemma AtbashExample()
    ensures AtbashCipher(Ascii("Hello")) == Ascii("Svool")
  {
    var r := AtbashCipher(Ascii("Hello"));
    assert r[0] == 83 && r[1] == 118 && r[2] == 111 && r[3] == 111 && r[4] == 108;
  }
}
