/** Text as the library sees it: a JavaScript string is a sequence of UTF-16
    code units (what `split("")` and `charCodeAt` work on), and every cipher
    branches on the two ASCII letter ranges 65..90 and 97..122. */
module TextUnits {

  /** One UTF-16 code unit. */
  type CodeUnit = c: int | 0 <= c < 0x1_0000

  type Text = seq<CodeUnit>

  predicate IsUpper(c: int) { 65 <= c <= 90 }

  predicate IsLower(c: int) { 97 <= c <= 122 }

  predicate IsLetter(c: int) { IsUpper(c) || IsLower(c) }

  predicate IsDigit(c: int) { 48 <= c <= 57 }

  /** Position of an ASCII letter in the alphabet: 0 for A and a, 25 for Z and z. */
  function LetterIndex(c: int): (n: int)
    requires IsLetter(c)
    ensures 0 <= n < 26
  {
    if IsUpper(c) then c - 65 else c - 97
  }

  /** `toLowerCase` restricted to ASCII: an upper-case letter becomes the
      lower-case letter at the same alphabet position, anything else stays. */
  function ToLower(c: CodeUnit): (r: CodeUnit)
    ensures IsUpper(c) ==> IsLower(r) && LetterIndex(r) == LetterIndex(c)
    ensures !IsUpper(c) ==> r == c
  {
    if IsUpper(c) then c + 32 else c
  }

  /** Number of ASCII letters in `text`, i.e. the length of
      `text.replace(/[^a-zA-Z]/g, "")`. */
  function LetterCount(text: Text): (n: nat)
    ensures n <= |text|
  {
    if text == [] then 0
    else LetterCount(text[..|text| - 1]) + (if IsLetter(text[|text| - 1]) then 1 else 0)
  }

  /** `text.toLowerCase().replace(/[^a-z]/g, "")` under ASCII-only lower-casing:
      the letters of `text`, in order, all folded to lower case. */
  function LowercaseLetters(text: Text): (r: Text)
    ensures |r| == LetterCount(text)
    ensures forall i :: 0 <= i < |r| ==> IsLower(r[i])
  {
    if text == [] then []
    else
      var last := text[|text| - 1];
      LowercaseLetters(text[..|text| - 1]) + (if IsLetter(last) then [ToLower(last)] else [])
  }

  /** Two texts of equal length that have letters at the same positions have
      the same number of letters. */
  lemma {:induction false} LetterCountSamePositions(a: Text, b: Text)
    requires |a| == |b|
    requires forall i :: 0 <= i < |a| ==> (IsLetter(a[i]) <==> IsLetter(b[i]))
    ensures LetterCount(a) == LetterCount(b)
  {
    if a != [] {
      LetterCountSamePositions(a[..|a| - 1], b[..|b| - 1]);
    }
  }

  /** A text made only of letters keeps all of them: folding it gives the
      text lower-cased position by position. */
  lemma {:induction false} LowercaseLettersOfLetters(text: Text)
    requires forall i :: 0 <= i < |text| ==> IsLetter(text[i])
    ensures LowercaseLetters(text) == seq(|text|, i requires 0 <= i < |text| => ToLower(text[i]))
  {
    if text != [] {
      LowercaseLettersOfLetters(text[..|text| - 1]);
    }
  }

  /** The code units of an ASCII string literal. */
  function Ascii(s: string): (r: Text)
    requires forall i :: 0 <= i < |s| ==> s[i] as int < 128
    ensures |r| == |s|
  {
    seq(|s|, i requires 0 <= i < |s| => s[i] as int)
  }
}
