# Classical cipher toolkit: verified model of the cipher and cryptanalysis core

This project models, in Dafny, the computational core of a browser toolkit
for classical ciphers:

- the Caesar transform (`caesarCipher`);
- the Vigenère transform (`vigenereCipher`);
- letter-frequency counting (`getLetterFrequency`);
- the reference English letter distribution (`englishLetterFrequency`);
- automatic Caesar decryption by frequency matching (`autoCaesarDecrypt`);
- the password-strength estimator (`estimatePasswordStrength`);
- the ROT13 and Atbash transforms that live inside their page components;
- the "try every shift" listing of the Caesar page (`handleBruteForce`).

Text is a sequence of UTF-16 code units, as JavaScript strings are. Every
transform branches on the ASCII letter ranges 65..90 and 97..122 and leaves
every other code unit alone.

Modules, one per part of the library:

| module | file | models |
|---|---|---|
| `TextUnits` | `text_units.dfy` | code units, letter classes, ASCII lower-casing, letter extraction |
| `Caesar` | `caesar.dfy` | `caesarCipher`, with JavaScript's truncating `%` |
| `Vigenere` | `vigenere.dfy` | `vigenereCipher` |
| `Frequency` | `frequency.dfy` | `getLetterFrequency` (a method with its two loops) and `englishLetterFrequency` |
| `AutoDecrypt` | `auto_decrypt.dfy` | `autoCaesarDecrypt` (a method with its search loop and the inner scoring loop), with NaN and `Number.MAX_VALUE` |
| `Strength` | `strength.dfy` | `estimatePasswordStrength` (a method that accumulates step by step) |
| `Rot13` | `rot13.dfy` | `rot13Cipher` |
| `Atbash` | `atbash.dfy` | `atbashCipher` |
| `BruteForce` | `brute_force.dfy` | the text built by `handleBruteForce` |

Each transform is stated as a function whose contract gives the invariants
every transform keeps: the same length, the same case at every position, and
non-letters unchanged. Separate lemmas say where letters go and prove the
round trips:

- Caesar decrypt∘encrypt is the identity, and so is Vigenère's;
- ROT13 and Atbash are involutions;
- Caesar shifts compose additively;
- only the shift modulo 26 matters;
- ROT13 is Caesar with shift 13.

The loops of `getLetterFrequency` and `autoCaesarDecrypt`, and the
step-by-step accumulation of `estimatePasswordStrength`, are methods proved
against specification functions. Lemmas then prove what those functions promise:

- the frequency table covers `a`..`z` and its counts add up to the number of letters;
- the chosen shift is the first minimum of the 26 scores, and shift 0 is chosen for text without letters;
- the score is between 0 and 100;
- the suggestions appear exactly when their condition holds, in a fixed order;
- neither the score nor the crack-time band drops when a password grows.

**Vigenère key position.** The model follows the code. The key letter for
the code unit at position `i` is `key[i % key.length]`, with `i` the
position in the whole text, so non-letters use up a key position too. The
textbook Vigenère cipher advances the key only on letters; this code
advances it on every code unit. `Vigenere.VigenereKeyAdvancesOnNonLetters`
shows the difference on a concrete input: "A A" under "ab" stays "A A",
where a letters-only key stream would give "A B".

## Model

| member | source | states |
|---|---|---|
| TextUnits.LetterCount | src/utils/encryption.ts:134 | number of ASCII letters (the length of the text with non-letters stripped), never more than the text's length |
| TextUnits.ToLower | src/utils/encryption.ts:45 | ASCII `toLowerCase` on one code unit: an upper-case letter becomes the lower-case letter at the same alphabet index, anything else stays |
| TextUnits.LowercaseLetters | src/utils/encryption.ts:74 | the folded letters of a text: as many as its letters, all in `a`..`z` |
| Caesar.JsRemainder | src/utils/encryption.ts:9 | JavaScript's truncating `%`: smaller in size than the divisor, with the sign of the dividend, and equal to the Euclidean remainder for a non-negative dividend |
| Caesar.NormalizeShift | src/utils/encryption.ts:9 | `((shift % 26) + 26) % 26` with JavaScript's truncating `%` lands in 0..25 and equals the mathematical `shift mod 26`, negatives included |
| Caesar.EffectiveShift | src/utils/encryption.ts:9-14 | the shift applied is `shift mod 26` when encrypting and `-shift mod 26` when decrypting |
| Caesar.ShiftUnit | src/utils/encryption.ts:19-32 | one code unit: case kept, non-letters unchanged, a letter's alphabet index advanced by `k` modulo 26 |
| Caesar.CaesarCipher | src/utils/encryption.ts:3-35 | output has the input's length, the same upper/lower case at every position, and non-letters unchanged |
| Caesar.CaesarShiftsLetters | src/utils/encryption.ts:22-28 | every letter's alphabet index becomes `(index ± shift) mod 26` |
| Caesar.CaesarShiftModulo | src/utils/encryption.ts:9 | shifts equal modulo 26 give the same transform |
| Caesar.CaesarDependsOnShiftMod26 | src/utils/encryption.ts:9 | transforming with `shift` equals transforming with `shift mod 26` |
| Caesar.CaesarDecryptIsNegatedEncrypt | src/utils/encryption.ts:12-14 | decrypting with `s` equals encrypting with `-s` |
| Caesar.CaesarCompose | src/utils/encryption.ts:3-35 | encrypting with `a` then `b` equals encrypting with `a + b` |
| Caesar.CaesarZeroShift | src/utils/encryption.ts:9-14 | a shift that is a multiple of 26 is the identity in both directions |
| Caesar.CaesarRoundTrip | src/utils/encryption.ts:3-35 | decrypt after encrypt, and encrypt after decrypt, give back the text for every shift |
| Caesar.CaesarExample | src/utils/encryption.ts:3-35 | "ABC" with shift 3 encrypts to "DEF" and "DEF" decrypts to "ABC" |
| Vigenere.KeyShift | src/utils/encryption.ts:58-61 | a key letter's shift is its alphabet index when encrypting and its negation modulo 26 when decrypting |
| Vigenere.VigenereCipher | src/utils/encryption.ts:38-69 | same length, same case, non-letters unchanged; the text itself when the keyword has no letter `a`..`z` (empty keyword included) |
| Vigenere.VigenereShiftsLetterAt | src/utils/encryption.ts:57-66 | the letter at position `i` moves by the index of the key letter at `i` modulo the key length: forward when encrypting, back when decrypting |
| Vigenere.VigenereShiftsLetters | src/utils/encryption.ts:50-66 | the same relation for every letter of the text |
| Vigenere.VigenereIsPositionwiseCaesar | src/utils/encryption.ts:58-66 | each position is the Caesar transform of that code unit with the key letter's index as shift |
| Vigenere.VigenereSingleLetterKey | src/utils/encryption.ts:45-66 | a key of one letter gives exactly the Caesar transform with that letter's index |
| Vigenere.KeyShiftsCancel | src/utils/encryption.ts:59-61 | the encrypting and decrypting shifts of one key letter cancel in either order |
| Vigenere.VigenereRoundTrip | src/utils/encryption.ts:38-69 | decrypt after encrypt, and encrypt after decrypt, give back the text for every keyword |
| Vigenere.VigenereKeyAdvancesOnNonLetters | src/utils/encryption.ts:50-58 | the key position is the raw index: "A A" under "ab" encrypts to "A A" |
| Vigenere.VigenereReferenceEncrypt | src/utils/encryption.ts:38-69 | ATTACKATDAWN under LEMON encrypts to LXFOPVEFRNHR |
| Vigenere.VigenereReferenceDecrypt | src/utils/encryption.ts:38-69 | LXFOPVEFRNHR under LEMON decrypts to ATTACKATDAWN |
| Frequency.FrequencyTable | src/utils/encryption.ts:72-88 | keys are exactly `a`..`z`; each letter's value is its lower-case plus its upper-case occurrences |
| Frequency.LetterFrequency | src/utils/encryption.ts:72-88 | the counting loop and the zero-filling loop produce exactly `FrequencyTable(text)` |
| Frequency.FoldedOccurrences | src/utils/encryption.ts:74 | folding and stripping keeps, per letter, the count of both its cases |
| Frequency.FrequencyTotal | src/utils/encryption.ts:72-88 | the 26 counts sum to the number of letters of the text |
| Frequency.CountsBounded | src/utils/encryption.ts:76-79 | no count exceeds the number of letters |
| Frequency.FrequencyWithoutLetters | src/utils/encryption.ts:81-85 | text without letters gives 26 zero counts |
| Frequency.FrequencyExample | src/utils/encryption.ts:72-88 | "Aa" counts `a` twice and every other letter zero times |
| Frequency.EnglishTableCoversAlphabet | src/utils/encryption.ts:91-118 | the English table has 26 entries, distinct letters of `a`..`z`, each percentage strictly between 0 and 100 |
| AutoDecrypt.Less | src/utils/encryption.ts:138 | definition: `score < bestMatch.score`, false when either side is NaN |
| AutoDecrypt.Add | src/utils/encryption.ts:135 | a sum is finite exactly when both summands are (NaN absorbs) |
| AutoDecrypt.Term | src/utils/encryption.ts:133-135 | a squared difference is NaN exactly when there are no letters (`0 / 0`) and otherwise non-negative |
| AutoDecrypt.PartialScore | src/utils/encryption.ts:131-136 | the sum over the first `n` table entries is finite exactly when no term is added yet or the text has letters |
| AutoDecrypt.DecryptionScore | src/utils/encryption.ts:127-136 | the score of one shift is finite exactly when the text has a letter (otherwise NaN) |
| AutoDecrypt.AllScores | src/utils/encryption.ts:126-136 | one score per shift 0..25 |
| AutoDecrypt.ScoreAgainstEnglish | src/utils/encryption.ts:131-136 | the inner loop sums the terms over the English table in its order |
| AutoDecrypt.ScoreShift | src/utils/encryption.ts:127-136 | one iteration of the search scores the decryption with that shift |
| AutoDecrypt.TermBound | src/utils/encryption.ts:133-135 | with a count at most the total, a term is at most 10000 |
| AutoDecrypt.PartialScoreBounds | src/utils/encryption.ts:131-136 | no letters: NaN; letters: a finite score between 0 and `10000 · n` |
| AutoDecrypt.LetterCountPreserved | src/utils/encryption.ts:127-134 | every decryption has as many letters as the input |
| AutoDecrypt.DecryptionScoreBounds | src/utils/encryption.ts:122-136 | no letters: every shift scores NaN; letters: every score is finite and below `Number.MAX_VALUE` |
| AutoDecrypt.FirstMinimum | src/utils/encryption.ts:122-140 | the `bestMatch` search started at shift 0 with `Number.MAX_VALUE` returns a position of the list (0 for an empty list) |
| AutoDecrypt.FirstMinimumSnoc | src/utils/encryption.ts:138-140 | a new score replaces the kept one only when strictly smaller |
| AutoDecrypt.FirstMinimumOfFinite | src/utils/encryption.ts:122-141 | over finite scores below `Number.MAX_VALUE` the search returns a minimum and every earlier entry is strictly larger |
| AutoDecrypt.FirstMinimumOfNaN | src/utils/encryption.ts:122-141 | over NaN scores the search keeps shift 0 and `Number.MAX_VALUE` |
| AutoDecrypt.BestShift | src/utils/encryption.ts:121-145 | the shift the search settles on is in 0..25 |
| AutoDecrypt.BestShiftWithoutLetters | src/utils/encryption.ts:121-147 | text without letters gives shift 0 |
| AutoDecrypt.BestShiftIsFirstMinimum | src/utils/encryption.ts:121-147 | the chosen shift is in 0..25, no shift scores strictly lower, every smaller shift scores strictly higher, 0 without letters |
| AutoDecrypt.AutoCaesarDecrypt | src/utils/encryption.ts:121-147 | returns the first-minimum shift and the text decrypted with it; text without letters comes back unchanged with shift 0 |
| Strength.HasUpper | src/utils/encryption.ts:156 | definition: some code unit is in `A`..`Z` |
| Strength.HasLower | src/utils/encryption.ts:157 | definition: some code unit is in `a`..`z` |
| Strength.HasDigit | src/utils/encryption.ts:158 | definition: some code unit is in `0`..`9` |
| Strength.HasSpecial | src/utils/encryption.ts:159 | definition: some code unit is neither an ASCII letter nor a digit |
| Strength.ClassCount | src/utils/encryption.ts:174 | `varietyCount`: at most 4 classes (exactly 0 only for the empty password, see `ClassesOfPassword`) |
| Strength.StrengthScore | src/utils/encryption.ts:161-176 | the clamped score lies in 0..100 |
| Strength.Applies | src/utils/encryption.ts:178-190 | definition: the five `if` conditions, shorter than 8 and each class missing |
| Strength.Message | src/utils/encryption.ts:179-191 | definition: the five suggestion texts, verbatim |
| Strength.Hints | src/utils/encryption.ts:178-192 | at most five suggestions; the length suggestion comes first exactly when the password is shorter than 8 |
| Strength.SelectMembership | src/utils/encryption.ts:178-192 | a hint is selected exactly when it is listed and its condition holds |
| Strength.SelectOrdered | src/utils/encryption.ts:178-192 | selecting from hints in rank order keeps rank order |
| Strength.SelectAll | src/utils/encryption.ts:178-192 | when every condition holds, every hint is selected |
| Strength.SelectNone | src/utils/encryption.ts:178-192 | when no condition holds, nothing is selected |
| Strength.HintsAsFilter | src/utils/encryption.ts:178-192 | the five `if`/`push` steps select from the five hints in order |
| Strength.HintsExactlyWhenApplicable | src/utils/encryption.ts:178-192 | a suggestion appears exactly when its condition holds (shorter than 8, or a class missing) |
| Strength.HintsInFixedOrder | src/utils/encryption.ts:178-192 | suggestions come in the fixed order length, upper, lower, digits, special, each at most once |
| Strength.AllHintsOnlyWhenEmpty | src/utils/encryption.ts:178-192 | all five suggestions appear exactly for the empty password |
| Strength.AlphabetSize | src/utils/encryption.ts:195-202 | the alphabet used for guessing has between 1 and 94 symbols (`possibleChars`, or 1 when no class is present) |
| Strength.Power | src/utils/encryption.ts:202 | `Math.pow` on exact integers: positive for a positive base |
| Strength.BandFor | src/utils/encryption.ts:205-218 | "seconds" exactly below 60·10^9 combinations, "centuries" exactly from 3153600000·10^9 combinations |
| Strength.CrackBandOf | src/utils/encryption.ts:195-218 | a password of at most one code unit falls in "seconds" |
| Strength.SecondsBelow | src/utils/encryption.ts:203-214 | comparing `combinations / 10^9` seconds with a whole threshold equals comparing the combinations with that many billions |
| Strength.EstimatePasswordStrength | src/utils/encryption.ts:150-225 | the accumulated score, time band and suggestions equal `StrengthScore`, `CrackBandOf` and `Hints` |
| Strength.TimeToBreak | src/utils/encryption.ts:202-218 | the chain of `seconds <` comparisons picks the band of `possibleChars` (or 1 when it is 0) to the power `length` combinations |
| Strength.ClassesOfPassword | src/utils/encryption.ts:156-200 | no character class is present, and the alphabet is 1, exactly for the empty password |
| Strength.EmptyPassword | src/utils/encryption.ts:150-225 | the empty password scores 0, gets all five suggestions and the band "seconds" |
| Strength.StrongPasswordClasses | src/utils/encryption.ts:156-159 | "Tr0ub4dor&3" has all four classes |
| Strength.StrongPasswordScore | src/utils/encryption.ts:161-176 | "Tr0ub4dor&3" scores 100 |
| Strength.StrongPasswordHints | src/utils/encryption.ts:178-192 | "Tr0ub4dor&3" gets no suggestion |
| Strength.StrongPasswordBand | src/utils/encryption.ts:195-218 | "Tr0ub4dor&3" takes centuries |
| Strength.ClassesPersist | src/utils/encryption.ts:156-159 | appending a character never removes a class |
| Strength.ScoreNeverDropsWhenExtended | src/utils/encryption.ts:161-176 | appending a character never lowers the score |
| Strength.BandMonotone | src/utils/encryption.ts:205-218 | more combinations never give an earlier band |
| Strength.AlphabetNeverShrinks | src/utils/encryption.ts:195-200 | appending any code unit never makes the guessing alphabet smaller |
| Strength.BandNeverDropsWhenExtended | src/utils/encryption.ts:195-218 | appending any code unit never gives an earlier band |
| Rot13.Rot13Unit | src/components/ROT13Cipher.tsx:21-27 | one code unit: case kept, non-letters unchanged, a letter's alphabet index advanced by 13 modulo 26 |
| Rot13.Rot13Cipher | src/components/ROT13Cipher.tsx:17-30 | same length and case, non-letters unchanged, each letter's index advanced by 13 modulo 26 |
| Rot13.Rot13IsCaesar | src/components/ROT13Cipher.tsx:17-30 | ROT13 equals the Caesar transform with shift 13, encrypting and decrypting alike |
| Rot13.Rot13Involution | src/components/ROT13Cipher.tsx:17-30 | applying ROT13 twice gives back the text |
| Rot13.Rot13NoFixedLetter | src/components/ROT13Cipher.tsx:22-26 | every letter changes |
| Rot13.Rot13Example | src/components/ROT13Cipher.tsx:17-30 | "Hello!" becomes "Uryyb!" |
| Atbash.AtbashUnit | src/components/AtbashCipher.tsx:21-27 | one code unit: case kept, non-letters unchanged, alphabet index `n` becomes `25 - n` |
| Atbash.AtbashCipher | src/components/AtbashCipher.tsx:17-30 | same length, upper `c` becomes `155 - c` and lower `c` becomes `219 - c` in the same case, non-letters unchanged, alphabet index `i` becomes `25 - i` |
| Atbash.AtbashInvolution | src/components/AtbashCipher.tsx:17-30 | applying Atbash twice gives back the text |
| Atbash.AtbashNoFixedLetter | src/components/AtbashCipher.tsx:22-26 | no letter maps to itself |
| Atbash.AtbashReversesOrder | src/components/AtbashCipher.tsx:22-26 | within one case, the order of two letters is reversed |
| Atbash.AtbashExample | src/components/AtbashCipher.tsx:17-30 | "Hello" becomes "Svool" |
| BruteForce.Decimal | src/components/CaesarCipher.tsx:88 | a shift prints as at least one decimal digit, with no leading zero except for 0 itself |
| BruteForce.DecimalRoundTrip | src/components/CaesarCipher.tsx:88 | the printed digits read back as the shift |
| BruteForce.Prefix | src/components/CaesarCipher.tsx:88 | `substring(0, n)` keeps the first `min(n, length)` code units, a prefix of the text |
| BruteForce.Header | src/components/CaesarCipher.tsx:88 | `Shift ${shift}: `: "Shift ", the digits, ": ", so 8 code units more than the digits |
| BruteForce.Entry | src/components/CaesarCipher.tsx:82-88 | every entry begins with its header (`EntryLayout` gives the rest) |
| BruteForce.Entries | src/components/CaesarCipher.tsx:78-84 | one entry for every shift 0..25 |
| BruteForce.Join | src/components/CaesarCipher.tsx:89 | `join`: empty for no parts, otherwise begins with the first part |
| BruteForce.BruteForceListing | src/components/CaesarCipher.tsx:78-89 | the listing begins with the shift-0 entry |
| BruteForce.JoinBlock | src/components/CaesarCipher.tsx:87-89 | in a joined list, part `k` sits at its offset with the separator right before it unless it is the first |
| BruteForce.JoinLength | src/components/CaesarCipher.tsx:87-89 | a joined list ends where its last part ends |
| BruteForce.EntryLayout | src/components/CaesarCipher.tsx:88 | an entry is "Shift ", the shift's digits, ": ", the first 50 code units of the decryption, then "..." exactly when the input is longer than 50 |
| BruteForce.FirstEntryShowsInput | src/components/CaesarCipher.tsx:78-88 | the shift-0 entry shows the input itself |
| BruteForce.ListingLayout | src/components/CaesarCipher.tsx:78-89 | entry `i` appears in the listing at its offset, after a blank line unless it is the first |
| BruteForce.ListingEnds | src/components/CaesarCipher.tsx:87-89 | the listing begins with entry 0 and ends with entry 25 |
| BruteForce.EmptyInputListing | src/components/CaesarCipher.tsx:78-89 | for empty input the listing starts "Shift 0: ", a blank line, "Shift 1: " |

## Left out

- Persistence of saved messages (`src/utils/storage.ts`) and all React components, state hooks, toasts and rendering are not part of this model. Of the components, only the string computations named above are modelled. Setting the output text is a UI side effect.
- The frequency-chart component (`src/components/FrequencyAnalysis.tsx`) is not part of this model. It converts the counts of `getLetterFrequency` into percentages of the letter total (1 when there are no letters) and charts them beside `englishLetterFrequency`; that conversion is not modelled.
- `toLowerCase` is modelled for ASCII only. JavaScript also maps a few non-ASCII code units to `a`..`z` (U+212A KELVIN SIGN becomes `k`), so a keyword or text holding them would fold differently.
- AutoDecrypt.Term: scores are exact reals, not IEEE doubles. Rounding in `/`, `*` and `Math.pow` could in principle reorder two nearly equal scores. The NaN for text without letters is modelled, and so is the starting value `Number.MAX_VALUE`.
- The `Infinity` that `count / 0` would give is not modelled. Here a count is never positive when the letter total is 0 (`Frequency.CountsBounded`, `AutoDecrypt.LetterCountPreserved`), so only `0 / 0`, NaN, can arise.
- `autoCaesarDecrypt` also computes the frequency of the input itself (`cipheredFrequency`) and never uses it. The model omits that call.
- Strength.TimeToBreak: the band is computed from the exact integer `possibleChars^length`, not the double that `Math.pow` returns. The time text (`toFixed(2)` plus unit) is left out, and only its band is modelled (`CrackBand`).
- Strength.EstimatePasswordStrength: suggestions are returned as the `Hint` values. `Strength.Message` gives each one's exact text.
- The Caesar shift is an integer. Fractional, infinite or NaN shifts (possible in JavaScript) are not modelled.
- Frequency.EnglishTableCoversAlphabet: JavaScript object key order is not modelled as an object. The table is a sequence in source order, the order in which `for ... in` visits it.
