/** The Caesar transform (`caesarCipher`): every ASCII letter moves a fixed
    number of places through its own alphabet, wrapping within its case;
    every other code unit passes through in place. */
module Caesar {
  import opened TextUnits

  /** JavaScript's `%` on integers: the remainder truncates toward zero, so it
      takes the sign of the dividend (unlike Dafny's Euclidean `%`, with which
      it agrees on non-negative dividends; `NegativeRemainder` relates the
      two for negative ones). */
  function JsRemainder(a: int, b: int): (r: int)
    requires b > 0
    ensures -b < r < b
    ensures a >= 0 ==> r >= 0
    ensures a < 0 ==> r <= 0
    ensures a >= 0 ==> r == a % b
  {
    if a >= 0 then a % b else -((-a) % b)
  }

  /** `((shift % 26) + 26) % 26`: any integer shift brought into 0..25. */
  function NormalizeShift(shift: int): (k: int)
    ensures 0 <= k < 26
    ensures k == shift % 26
  {
    var r := JsRemainder(shift, 26);
    if shift < 0 then NegativeRemainder(shift); (r + 26) % 26
    else (r + 26) % 26
  }

  /** For a negative dividend the truncated remainder is the Euclidean one
      minus 26 (or 0 when 26 divides it). */
  lemma NegativeRemainder(a: int)
    requires a < 0
    ensures (-((-a) % 26) + 26) % 26 == a % 26
  {
    var q := (-a) / 26;
    var m := (-a) % 26;
    assert -a == 26 * q + m;
    assert a == 26 * (-q - 1) + (26 - m);
  }

  /** The shift actually applied: the normalised shift when encrypting, its
      complement `(26 - shift) % 26` when decrypting. */
  function EffectiveShift(shift: int, encrypt: bool): (k: int)
    ensures 0 <= k < 26
    ensures k == (if encrypt then shift else -shift) % 26
  {
    var n := NormalizeShift(shift);
    if encrypt then n else NegateModulo(shift); (26 - n) % 26
  }

  /** The complement of `s mod 26` is `-s mod 26`. */
  lemma NegateModulo(s: int)
    ensures (26 - s % 26) % 26 == (-s) % 26
  {
    var q, m := s / 26, s % 26;
    assert s == 26 * q + m;
    if m == 0 {
      assert -s == 26 * -q;
    } else {
      assert -s == 26 * (-q - 1) + (26 - m);
    }
  }

  /** The per-code-unit mapping shared by the Caesar, Vigenere and ROT13
      transforms, for a shift `k` already in 0..25. */
  function ShiftUnit(c: CodeUnit, k: int): (r: CodeUnit)
    requires 0 <= k < 26
    ensures IsUpper(r) <==> IsUpper(c)
    ensures IsLower(r) <==> IsLower(c)
    ensures !IsLetter(c) ==> r == c
    ensures IsLetter(c) ==> LetterIndex(r) == (LetterIndex(c) + k) % 26
  {
    if 65 <= c <= 90 then ((c - 65 + k) % 26) + 65
    else if 97 <= c <= 122 then ((c - 97 + k) % 26) + 97
    else c
  }

  /** `caesarCipher(text, shift, encrypt)`: same length, same case at every
      position, non-letters untouched (`CaesarShiftsLetters` says where the
      letters go). */
  function CaesarCipher(text: Text, shift: int, encrypt: bool): (r: Text)
    ensures |r| == |text|
    ensures forall i :: 0 <= i < |text| ==> (IsUpper(r[i]) <==> IsUpper(text[i]))
    ensures forall i :: 0 <= i < |text| ==> (IsLower(r[i]) <==> IsLower(text[i]))
    ensures forall i :: 0 <= i < |text| && !IsLetter(text[i]) ==> r[i] == text[i]
  {
    var k := EffectiveShift(shift, encrypt);
    seq(|text|, i requires 0 <= i < |text| => ShiftUnit(text[i], k))
  }

  /** Every letter moves `shift` places forward through its alphabet when
      encrypting, and back when decrypting, modulo 26. */
  lemma CaesarShiftsLetters(text: Text, shift: int, encrypt: bool)
    ensures forall i :: 0 <= i < |text| && IsLetter(text[i]) ==>
      LetterIndex(CaesarCipher(text, shift, encrypt)[i]) ==
        (LetterIndex(text[i]) + (if encrypt then shift else -shift)) % 26
  {
    var r := CaesarCipher(text, shift, encrypt);
    forall i | 0 <= i < |text| && IsLetter(text[i])
      ensures LetterIndex(r[i]) == (LetterIndex(text[i]) + (if encrypt then shift else -shift)) % 26
    {
      AddModulo(LetterIndex(text[i]), if encrypt then shift else -shift);
    }
  }

  /** Below 52, reducing modulo 26 subtracts 26 at most once. */
  lemma ModSmall(n: int)
    requires 0 <= n < 52
    ensures n % 26 == if n < 26 then n else n - 26
  {
  }

  /** Three alphabet indices: adding the last two first, modulo 26, lands on
      the same letter as adding them one at a time. */
  lemma IndexCompose(x: int, k: int, j: int)
    requires 0 <= x < 26 && 0 <= k < 26 && 0 <= j < 26
    ensures ((x + k) % 26 + j) % 26 == (x + (k + j) % 26) % 26
  {
    ModSmall(x + k);
    ModSmall(k + j);
    ModSmall((x + k) % 26 + j);
    ModSmall(x + (k + j) % 26);
  }

  /** Shifting a code unit by `k` and then by `j` is shifting it by `k + j`. */
  lemma ShiftUnitCompose(c: CodeUnit, k: int, j: int)
    requires 0 <= k < 26 && 0 <= j < 26
    ensures ShiftUnit(ShiftUnit(c, k), j) == ShiftUnit(c, (k + j) % 26)
  {
    if IsLetter(c) {
      IndexCompose(LetterIndex(c), k, j);
    }
  }

  /** A zero shift leaves every code unit alone. */
  lemma ShiftUnitZero(c: CodeUnit)
    ensures ShiftUnit(c, 0) == c
  {
  }

  /** Shifting by `k` and by its complement `(26 - k) % 26` cancel, in either order. */
  lemma ShiftUnitInverse(c: CodeUnit, k: int)
    requires 0 <= k < 26
    ensures ShiftUnit(ShiftUnit(c, k), (26 - k) % 26) == c
    ensures ShiftUnit(ShiftUnit(c, (26 - k) % 26), k) == c
  {
    ModSmall(26 - k);
    ModSmall(k + (26 - k) % 26);
    ShiftUnitCompose(c, k, (26 - k) % 26);
    ShiftUnitCompose(c, (26 - k) % 26, k);
    ShiftUnitZero(c);
  }

  /** Adding `s` or `s % 26` to an alphabet index lands on the same letter. */
  lemma AddModulo(x: int, s: int)
    ensures (x + s % 26) % 26 == (x + s) % 26
  {
    var q := s / 26;
    assert s == 26 * q + s % 26;
    assert x + s == (x + s % 26) + 26 * q;
  }

  /** Two shifts that agree modulo 26 give the same transform. */
  lemma {:induction false} CaesarShiftModulo(text: Text, s: int, t: int, encrypt: bool)
    requires s % 26 == t % 26
    ensures CaesarCipher(text, s, encrypt) == CaesarCipher(text, t, encrypt)
  {
    assert EffectiveShift(s, encrypt) == EffectiveShift(t, encrypt) by {
      assert (s - t) % 26 == 0;
      assert (-s - -t) % 26 == 0;
    }
  }

  /** Only `shift mod 26` matters, for negative shifts too. */
  lemma {:induction false} CaesarDependsOnShiftMod26(text: Text, shift: int, encrypt: bool)
    ensures CaesarCipher(text, shift, encrypt) == CaesarCipher(text, shift % 26, encrypt)
  {
    CaesarShiftModulo(text, shift, shift % 26, encrypt);
  }

  /** Decrypting with `s` is encrypting with `-s`. */
  lemma {:induction false} CaesarDecryptIsNegatedEncrypt(text: Text, shift: int)
    ensures CaesarCipher(text, shift, false) == CaesarCipher(text, -shift, true)
  {
    assert EffectiveShift(shift, false) == EffectiveShift(-shift, true);
  }

  /** Reducing the summands modulo 26 first does not change the sum modulo 26. */
  lemma ModAdd(a: int, b: int)
    ensures (a % 26 + b % 26) % 26 == (a + b) % 26
  {
    AddModulo(a % 26, b);
    AddModulo(b, a);
  }

  /** Encrypting with `a` and then with `b` is encrypting with `a + b`. */
  lemma {:induction false} CaesarCompose(text: Text, a: int, b: int)
    ensures CaesarCipher(CaesarCipher(text, a, true), b, true) == CaesarCipher(text, a + b, true)
  {
    var ka, kb := EffectiveShift(a, true), EffectiveShift(b, true);
    ModAdd(a, b);
    var lhs, rhs := CaesarCipher(CaesarCipher(text, a, true), b, true), CaesarCipher(text, a + b, true);
    forall i | 0 <= i < |text| ensures lhs[i] == rhs[i] {
      ShiftUnitCompose(text[i], ka, kb);
    }
  }

  /** A zero shift (or any multiple of 26) changes nothing, in either direction. */
  lemma {:induction false} CaesarZeroShift(text: Text, shift: int, encrypt: bool)
    requires shift % 26 == 0
    ensures CaesarCipher(text, shift, encrypt) == text
  {
    assert EffectiveShift(shift, encrypt) == 0;
    var r := CaesarCipher(text, shift, encrypt);
    forall i | 0 <= i < |text| ensures r[i] == text[i] {
      ShiftUnitZero(text[i]);
    }
  }

  /** Decrypting with `s` undoes encrypting with `s`, and the other way round. */
  lemma {:induction false} CaesarRoundTrip(text: Text, shift: int)
    ensures CaesarCipher(CaesarCipher(text, shift, true), shift, false) == text
    ensures CaesarCipher(CaesarCipher(text, shift, false), shift, true) == text
  {
    var k := NormalizeShift(shift);
    var ed, de := CaesarCipher(CaesarCipher(text, shift, true), shift, false), CaesarCipher(CaesarCipher(text, shift, false), shift, true);
    forall i | 0 <= i < |text| ensures ed[i] == text[i] && de[i] == text[i] {
      ShiftUnitInverse(text[i], k);
    }
  }

  /** "ABC" with shift 3 encrypts to "DEF", and "DEF" decrypts back to "ABC". */
  lemma CaesarExample()
    ensures CaesarCipher(Ascii("ABC"), 3, true) == Ascii("DEF")
    ensures CaesarCipher(Ascii("DEF"), 3, false) == Ascii("ABC")
  {
    var e := CaesarCipher(Ascii("ABC"), 3, true);
    assert e[0] == 68 && e[1] == 69 && e[2] == 70;
    var d := CaesarCipher(Ascii("DEF"), 3, false);
    assert d[0] == 65 && d[1] == 66 && d[2] == 67;
  }
}
