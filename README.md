# Hash-function revisions, modelled in Dafny

The script `hasning.py` designs a hash function for a hashtable step by step.
It redefines `hash_function` five times, and each revision fixes a weakness
of the one before:

1. `SumHash` sums the character codes (`ord`) of a string.
2. `StrSumHash` sums the codes of `str(key)`, so that non-string keys can be hashed.
3. `ReprSumHash` sums the codes of `repr(key)`.
4. `WeightedReprHash` weights each character of `repr(key)` by its position, counted from 1.
   `BoundedHash` reduces that hash `% 100`.
5. `StrippedHash` weights `repr(key).lstrip("'")` by position.

The module `PyStrings` (`py_strings.dfy`) models the Python builtins these revisions use:

- `Str` stands for `str`.
- `Repr` stands for `repr`. Its partner `EvalLiteral` reads a literal back.
- `LStrip` stands for `lstrip` with a single character.

Keys are strings or booleans (`Key = Text(s) | Flag(b)`), the two kinds the script
hashes besides floats.

The module `Hashing` (`hashing.dfy`) holds the five revisions. It also holds the
generator sums they are made of:

- `OrdSum` is the plain sum of character codes.
- `WeightedSum` is the sum weighted from a start index, as `enumerate(..., start)` gives.
- `PositionSum` is an independent reference for the weighted sum, built from the last character.

The lemmas in `Hashing` state the claims in the script's comments:

- Version 1 is blind to anagrams and barely moves when one character changes.
- Version 2 equals version 1 on strings.
- Versions 4 and 5 separate a text from the one with two distinct characters swapped.
- The two apostrophes that `repr` adds make every single-character hash even under version 4, and stripping the left one removes that skew.

## Model

| member | source | states |
|---|---|---|
| PyStrings.Str | hasning.py:19-20 | `str(key)`: no contract of its own; `StrConflatesReprSeparates` and `Hashing.StrSumHashOfText` state that it is the identity on strings and names a boolean by "True"/"False" |
| PyStrings.Repr | hasning.py:33-34 | `repr(key)` for booleans and plain strings: no contract of its own; `ReprRoundTrip` states that it reads back as the key, `StrConflatesReprSeparates` that it separates "True" from `True` |
| PyStrings.ReprRoundTrip | hasning.py:29-34 | `repr` of a boolean or of a string that needs no escaping reads back, as a literal, as exactly the key; so `repr` never confuses two keys |
| PyStrings.LStrip | hasning.py:79-80 | `lstrip("'")` returns a suffix of its input that does not start with an apostrophe, and everything it removed was apostrophes |
| PyStrings.LStripIdempotent | hasning.py:79-80 | stripping leading apostrophes twice gives the same text as stripping once |
| PyStrings.StrConflatesReprSeparates | hasning.py:19-34 | `str` gives the string "True" and the boolean `True` the same text; `repr` gives them different texts |
| Hashing.OrdSum | hasning.py:4-5 | `sum(ord(c) for c in text)`: no contract of its own; `OrdSumConcat` is its additivity over concatenation, and `SumHashIgnoresOrder` and `SumHashReplace` state its insensitivity to order and to small changes |
| Hashing.SumHash | hasning.py:4-5 | version 1: no contract of its own; `SumHashIgnoresOrder`, `SumHashReplace` and `LoremLorenLoner` carry its properties |
| Hashing.StrSumHash | hasning.py:19-20 | version 2: no contract of its own; `StrSumHashOfText` and `StrCollidesReprSeparates` carry its properties |
| Hashing.ReprSumHash | hasning.py:33-34 | version 3: no contract of its own; `ReprSumHashOfText` and `StrCollidesReprSeparates` carry its properties |
| Hashing.WeightedSum | hasning.py:46-47 | `sum(i * ord(c) for i, c in enumerate(text, start))`: no contract of its own; `WeightedSumIsPositionSum` ties it to the independent `PositionSum`, and `WeightedSumAppend`, `WeightedSumShift`, `WeightedSumReplace` and `WeightedSumSwap` state how it changes |
| Hashing.WeightedReprHash | hasning.py:46-47 | version 4: no contract of its own; `WeightedReprHashOfText`, `WeightedReprHashSeparatesSwaps`, `WeightedReprHashRotation` and `WeightedReprHashSingleIsEven` carry its properties |
| Hashing.StrippedHash | hasning.py:79-80 | version 5: no contract of its own; `StrippedHashOfText`, `WeightedIsStrippedPlusRepr`, `StrippedHashSeparatesSwaps` and `StrippedHashSingle` carry its properties |
| Hashing.SumHashIgnoresOrder | hasning.py:4-15 | the plain character-code sum is the same for any two texts that are rearrangements of each other |
| Hashing.SumHashReplace | hasning.py:4-15 | replacing one character changes the plain sum by exactly the difference of the two codes |
| Hashing.LoremLorenLoner | hasning.py:4-10 | "Loren" hashes one above "Lorem", and the anagrams "Loren" and "Loner" collide under version 1 |
| Hashing.StrSumHashOfText | hasning.py:19-20 | on a string key, the `str`-based version 2 equals the plain version 1 |
| Hashing.StrCollidesReprSeparates | hasning.py:19-34 | version 2 gives "True" and `True` the same hash; under version 3 the string's hash is 78 above the boolean's |
| Hashing.ReprSumHashOfText | hasning.py:33-34 | on a string key, version 3 is version 1 plus 78, the codes of the two apostrophes `repr` adds |
| Hashing.WeightedSumIsPositionSum | hasning.py:46-47 | the weighted sum with positions counted from 1 equals the sum over i of (i + 1) * ord(s[i]), which is 0 on the empty text |
| Hashing.WeightedSumAppend | hasning.py:46-47 | appending a character adds its code times its position |
| Hashing.WeightedSumShift | hasning.py:46-47 | counting positions from one further adds the plain sum once more |
| Hashing.WeightedSumAtLeastOrdSum | hasning.py:46-47 | the position-weighted sum is never below the plain sum |
| Hashing.WeightedSumReplace | hasning.py:46-47 | replacing the character at position k changes the weighted sum by its weight times the change of code |
| Hashing.WeightedSumSwap | hasning.py:42-47 | swapping positions i < j changes the weighted sum by (j - i) times the difference of the two codes |
| Hashing.WeightedSumSeparatesSwaps | hasning.py:42-47 | swapping two distinct characters always changes the weighted sum |
| Hashing.WeightedReprHashOfText | hasning.py:46-47 | on a string key, version 4 is the text weighted from 2 plus the two apostrophes at positions 1 and len(s) + 2 |
| Hashing.WeightedReprHashSeparatesSwaps | hasning.py:42-47 | version 4 changes when two distinct characters of a key are swapped, while version 3 does not |
| Hashing.WeightedReprHashSeparatesPairs | hasning.py:42-47 | for distinct characters a and b, version 4 hashes "ab" and "ba" apart |
| Hashing.WeightedReprHashRotation | hasning.py:42-47 | position weighting does not separate every anagram: rotating xyz to yzx leaves version 4 unchanged exactly when ord(y) + ord(z) == 2 * ord(x) |
| Hashing.WeightedReprHashAnagramCollision | hasning.py:42-47 | an instance: the anagrams "bac" and "acb" collide under version 4 |
| Hashing.BoundedHash | hasning.py:55-60 | version 4 taken `% 100` lies in [0, 100), and a hash already below 100 is left as it is |
| Hashing.BoundedHashTiny | hasning.py:50-58 | "Tiny" hashes to 1801 under version 4, which is 1 once reduced `% 100` |
| Hashing.WeightedReprHashSingle | hasning.py:71-76 | under version 4, a single character c hashes to 156 + 2 * ord(c): 39 for the opening apostrophe, 2 * ord(c), and 3 * 39 for the closing one |
| Hashing.WeightedReprHashSingleIsEven | hasning.py:71-76 | under version 4 every single character hashes to an even number |
| Hashing.LStripReprOfText | hasning.py:79-80 | stripping the `repr` of a non-empty string removes only the opening apostrophe; for the empty string it removes both |
| Hashing.StrippedHashOfText | hasning.py:79-80 | on a non-empty string key, version 5 is the text weighted from 1 plus one apostrophe at position len(s) + 1 |
| Hashing.WeightedIsStrippedPlusRepr | hasning.py:33-80 | on a non-empty string key, version 4 equals version 5 plus version 3: dropping the opening apostrophe moves every character one place forward |
| Hashing.StrippedHashSeparatesSwaps | hasning.py:79-80 | version 5 changes when two distinct characters of a string key are swapped |
| Hashing.StrippedHashOfEmpty | hasning.py:79-80 | version 5 hashes the empty string to 0, while version 4 gives it 117 |
| Hashing.StrippedHashOfFlag | hasning.py:79-80 | on a boolean key there is no apostrophe to strip, so version 5 agrees with version 4 |
| Hashing.StrippedHashSingle | hasning.py:79-84 | under version 5, a single character c hashes to ord(c) + 78 |
| Hashing.StrippedHashSingleParity | hasning.py:79-84 | under version 5 a single character's hash has the parity of its code, so odd hashes appear again |
| Hashing.WeightedReprHashAbc | hasning.py:74-76 | "a", "b" and "c" hash to 350, 352 and 354 under version 4 |
| Hashing.StrippedHashAbc | hasning.py:79-84 | "a", "b" and "c" hash to the consecutive 175, 176 and 177 under version 5 |

## Left out

- The `HashTable` class used by `test_hashtable.py` and `01_define_a_custom_hashtable_class/test_hashtable.py` is not modelled. It would have slots, insertion and collision handling. Its source, `hashtable.py`, is not part of this model, so any model of it would be invented.
- The `print` calls throughout the script are console output with no logic.
- `plot` and `distribute` come from `hash_distribution`, which is not part of this model. The histograms at hasning.py:65-69 and 85-86 are left out with them. So is `string.printable`, which only feeds those histograms.
- Floats as keys are left out (`str(3.14)`, `repr(3.14)` at hasning.py:26 and 39), because their text comes from Python's float formatting. Keys here are strings and booleans.
- PyStrings.Repr: handles only strings of printable ASCII without an apostrophe or a backslash. Python's escaping rules and its table of printable non-ASCII characters are not modelled. So every member that applies `repr` to a string requires `PlainText`.
- The hash of `"This is very long and slow!" * 1_000_000` (hasning.py:53 and 60) only shows running time. Its value is covered by the general definitions, but it is not computed.
- Ord: a Dafny `char` is a Unicode scalar value, so texts holding lone surrogates (U+D800 to U+DFFF), which a Python `str` can hold and versions 1 and 2 would sum, are not modelled.
