# Caesar cipher engine

A Dafny model of the Caesar cipher in `Caesar.py`. It has three layers, one module each, and a
fourth module of worked scenarios.

- `Shift` (`shift.dfy`) holds the four per-character routines `encryptUpper`, `encryptLower`,
  `decryptUpper` and `decryptLower`. Each one adds the key to the code point, or subtracts it.
  When the result leaves the letter's alphabet, it corrects it once by 26. The model uses the
  same constants: 90 for `Z`, 122 for `z`, 65 for `A` and 97 for `a`. Each routine is proved
  to return a letter of the same case at alphabet position `(pos + key) mod 26`, or
  `(pos - key) mod 26` when decrypting.
- `Codec` (`codec.dfy`) holds `caesarEncryption` and `caesarDecryption`. These are methods
  whose loops append one character per input character, as the source does. Upper-case letters
  go to the upper-case routine, lower-case letters to the lower-case routine, and every other
  character is copied unchanged. Each method is proved equal to a recursive specification
  function (`Encrypted`, `Decrypted`). Lemmas about those functions prove:
  - the round trip in both directions;
  - key 0 is the identity;
  - decrypting is the same as encrypting with the complementary key.
- `KeyRecovery` (`key_recovery.dfy`) holds `bruteForceDecryption`. Its loop tries keys 0 to 25
  in increasing order. For each key it decrypts the text, lower-cases it, splits it on
  whitespace, and counts every word that is in the vocabulary list. It keeps a candidate only
  when its count is strictly greater than the best so far, starting from `("", 0)` with best
  count 0. The method is proved to return:
  - a key in 0..25 whose score is the maximum over all 26 keys;
  - the smallest key with that maximum score;
  - the decryption under that key whenever the score is positive;
  - `("", 0)` exactly when no key matches any word.

  The source counts matches in an inner loop inside `bruteForceDecryption`. Here that loop is
  its own method, `CountVocabMatches`.
- `Scenarios` (`examples.dfy`) derives worked cases from the general contracts:
  - "ABCXYZ" under key 3 is "DEFABC";
  - "Attack at Dawn!" under key 4 is "Exxego ex Hear!";
  - under key 5, "the cat sat on the mat" scores 6 against the vocabulary
    `["the", "cat", "sat", "on", "mat"]`.

The model follows what the code does on these points:
- The vocabulary is the list the code searches with `word in vocabList`: a `seq<string>` with
  sequence membership, not a set.
- A key must lie in 0..25, the key space that `bruteForceDecryption` searches (Caesar.py:191).
  The code's single correction by 26 is exact for keys 0..26, where key 26 acts as key 0.
  From 27 up, or below 0, some letters leave the alphabet: `Z` under key 27 gives `[`, and
  `A` under key -1 gives `@`. A code point below 0 makes `chr` raise.
- `bruteForceDecryption` returns a `(text, key)` pair. Its `-> str` annotation says otherwise.

Python's `str.lower()` is modelled as ASCII lower-casing (`Lowered`). Python's `str.split()`
with no separator is modelled as `Words`: the maximal runs of characters that are not ASCII
whitespace. The whitespace set is code points 9 to 13 and 28 to 32, which is what Python's
`str.isspace` gives in the ASCII range. Lemmas pin `Words` down completely on such text:
- no word is empty or contains whitespace;
- gluing the words back together gives the non-whitespace characters in order;
- a whitespace character splits the text into two independent halves;
- a non-empty run without whitespace is exactly one word.

## Model

| member | source | states |
|---|---|---|
| `Shift.EncryptUpper` | Caesar.py:3-27 | For an upper-case letter and a key in 0..25, returns an upper-case letter whose alphabet position is (position + key) mod 26 |
| `Shift.EncryptLower` | Caesar.py:29-53 | For a lower-case letter and a key in 0..25, returns a lower-case letter whose alphabet position is (position + key) mod 26 |
| `Shift.DecryptUpper` | Caesar.py:56-80 | For an upper-case letter and a key in 0..25, returns an upper-case letter whose alphabet position is (position - key) mod 26 |
| `Shift.DecryptLower` | Caesar.py:82-106 | For a lower-case letter and a key in 0..25, returns a lower-case letter whose alphabet position is (position - key) mod 26 |
| `Shift.WrapAroundExamples` | Caesar.py:20-106 | Shifting past `Z`/`z` wraps to `A`/`a`, and shifting back past `A`/`a` wraps to `Z`/`z`; e.g. `X` under key 3 is `A` |
| `Shift.PositionRoundTrip` | Caesar.py:20-27 | Shifting an alphabet position forward by the key and then back (or back, then forward) returns the same position |
| `Codec.EncryptChar` | Caesar.py:127-135 | The character appended by the encryption loop keeps its case class, is shifted forward by the key mod 26 when it is a letter, and is the input character itself otherwise |
| `Codec.DecryptChar` | Caesar.py:158-166 | The character appended by the decryption loop keeps its case class, is shifted back by the key mod 26 when it is a letter, and is the input character itself otherwise |
| `Codec.CharRoundTrip` | Caesar.py:3-106 | Decrypting an encrypted character with the same key gives it back, and so does encrypting a decrypted one |
| `Codec.Encrypted` | Caesar.py:125-137 | The ciphertext has the input's length, and character i is the forward shift of input character i under the key |
| `Codec.Decrypted` | Caesar.py:156-168 | The plaintext has the input's length, and character i is the backward shift of input character i under the key |
| `Codec.CaesarEncryption` | Caesar.py:108-137 | The string built by the character loop is exactly the ciphertext `Encrypted(plainText, key)` |
| `Codec.CaesarDecryption` | Caesar.py:139-168 | The string built by the character loop is exactly the plaintext `Decrypted(cipher, key)` |
| `Codec.RoundTrip` | Caesar.py:108-168 | For a key in 0..25, decryption undoes encryption and encryption undoes decryption on every text (non-ASCII letters are copied unchanged; see Left out) |
| `Codec.KeyZeroIdentity` | Caesar.py:125-168 | Encrypting or decrypting with key 0 returns the text unchanged (non-ASCII letters are copied unchanged; see Left out) |
| `Codec.DecryptIsComplementEncrypt` | Caesar.py:108-168 | Decrypting with key k equals encrypting with key (26 - k) mod 26 |
| `KeyRecovery.ToLower` | Caesar.py:195 | Lower-casing turns an upper-case letter into the lower-case letter at the same position, leaves everything else unchanged, and leaves no upper-case letter |
| `KeyRecovery.Lowered` | Caesar.py:195 | The lower-cased text has the same length, contains no upper-case letter, maps each upper-case letter to its lower-case twin and keeps every other character |
| `KeyRecovery.SplitFrom` | Caesar.py:196 | Splitting continues a partial word: no produced word is empty or holds whitespace, and the words glued together are the partial word followed by the text's non-whitespace characters |
| `KeyRecovery.Words` | Caesar.py:196 | No word of the split is empty or holds whitespace, and the words glued together are the text's non-whitespace characters in order |
| `KeyRecovery.WordsAtSpace` | Caesar.py:196 | The words of a + whitespace + b are the words of a followed by the words of b |
| `KeyRecovery.WordsOfRun` | Caesar.py:196 | A non-empty text without whitespace splits into exactly itself |
| `KeyRecovery.WordCountBound` | Caesar.py:196 | A text splits into no more words than it has characters |
| `KeyRecovery.WordsOfJoin` | Caesar.py:196 | Splitting non-empty, whitespace-free words joined by single spaces gives the same words back |
| `KeyRecovery.JoinWithoutUpper` | Caesar.py:195-196 | Words without upper-case letters, joined by spaces, give a text without upper-case letters |
| `KeyRecovery.LoweredWithoutUpper` | Caesar.py:195 | Lower-casing a text that has no upper-case letter returns it unchanged |
| `KeyRecovery.Matches` | Caesar.py:198-200 | The count is at most the number of words; it is 0 exactly when no word is in the vocabulary and equals the word count exactly when every word is |
| `KeyRecovery.MatchesAppend` | Caesar.py:198-200 | Counting is additive over concatenated word lists, so every occurrence of a word counts |
| `KeyRecovery.Score` | Caesar.py:192-200 | The count the inner loop reaches for key k, `Matches(Words(Lowered(Decrypted(c, k))), v)`, never exceeds the ciphertext's length |
| `KeyRecovery.CountVocabMatches` | Caesar.py:192-200 | The counting loop returns exactly `Matches(searchList, vocabList)` |
| `KeyRecovery.BruteForceDecryption` | Caesar.py:170-207 | Returns a key in 0..25 with the maximum score over all 26 keys. Every smaller key scores strictly less. The text is that key's decryption when the score is positive. The result is ("", 0) exactly when every key scores 0 |
| `KeyRecovery.EmptyTextScoresZero` | Caesar.py:191-200 | An empty text matches no vocabulary word under any key |
| `KeyRecovery.EmptyVocabularyScoresZero` | Caesar.py:198-200 | With an empty vocabulary every key scores 0, so the search returns ("", 0) |
| `KeyRecovery.TrueKeyScore` | Caesar.py:191-200 | Under the key that encrypted it, a ciphertext scores exactly what its plaintext's own words score |
| `Scenarios.ShiftAlphabetEnds` | Caesar.py:125-137 | Encrypting "ABCXYZ" under key 3 gives "DEFABC" |
| `Scenarios.MixedText` | Caesar.py:125-137 | Encrypting "Attack at Dawn!" under key 4 gives "Exxego ex Hear!": letters shift, `w` wraps to `a`, and spaces and `!` pass through |
| `Scenarios.CatOnMatWords` | Caesar.py:195-196 | "the cat sat on the mat" lower-cases to itself and splits into its six words |
| `Scenarios.CatOnMat` | Caesar.py:191-200 | Under key 5, the encryption of "the cat sat on the mat" scores 6 against ["the", "cat", "sat", "on", "mat"], so the repeated "the" counts twice |

## Left out

- The interactive driver (Caesar.py:209-231) is not modelled. It reads the vocabulary file, prompts with `input()`, parses keys with `int()` and calls `print`. The vocabulary, texts and keys are parameters here.
- Keys outside 0..25 are excluded by a precondition. Such a key can come from the driver's unchecked `int(input(...))`. Key 26 behaves like key 0 in the code. From 27 up, or below 0, the single correction by 26 lets some letters leave the alphabet (`Z` under 27 gives `[`, `A` under -1 gives `@`). A code point below 0 makes `chr` raise.
- Non-ASCII letters are treated as "other" and copied unchanged. In Python, `isupper()` and `islower()` are also true for letters such as `É`. Their code points lie above 122, so the code moves them down by 26 − key when encrypting (even under key 0) and by key when decrypting. The result may be a letter of either case or no letter.
- Python's Unicode whitespace beyond ASCII (for `split()`) and its Unicode case mapping (for `lower()`) are not modelled. Both are approximated on ASCII.
