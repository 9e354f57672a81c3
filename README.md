# Record matching between two business directories

The system matches the businesses of two directory tables: a "left" table keyed
by `business_id` and a "right" table keyed by `entity_id`. It works in four
stages:

1. **Abbreviation expander** (`replace_abbreviations`). It walks a fixed,
   ordered USPS table (street types, directions, "bldg", two names, ordinals).
   For each entry it rewrites every whole-word occurrence of the key, using
   `re.sub(r"\bkey\b", full, text)`.
2. **Preprocessing** (`left_preprocess`, `right_preprocess`).
   - Each zip code is cut at its first `-`, in place, row by row. Each postal
     code is cut at its first `.`.
   - Name, address and city are stripped of every character outside `[\w\s']`
     and lower-cased.
   - Only the address then goes through the expander.
   - The number of duplicate keys is counted. No row is removed.
3. **Blocker** (`merge_table`). Both tables are split over the five states PA,
   FL, MO, TN and IN. Each state's rows are inner-joined on the address, and the
   per-state results are concatenated in that order.
4. **Threshold filter** (`per_state_matcher`). Each merged row is scored on its
   two names. A missing name counts as the empty string. The row is kept, with
   its score, when the score is above 80.

The Dafny modules follow these stages:

- `Chars`: the ASCII character classes behind `\w`, `\s` and `str.lower`.
- `Abbreviations`: the table; a character-level model of `re.sub` with `\b`;
  an independent word-level reading of it; the expander loop; idempotence.
- `AbbreviationExamples`: the expander on concrete addresses.
- `Records`: the two row types.
- `Cleaning`: field cleaning, zip and postal truncation, duplicate counting,
  and the two preprocess functions. The in-place zip-code loop works on an
  `array`.
- `Blocking`: `merge_table`, with the state list as a parameter.
- `Matching`: the threshold filter as a loop, proved against a filter
  function.
- `Scenarios`: the stages composed on small inputs.

`re.sub` is modelled as a scan from left to right (`Abbreviations.SubScan`). The
scan carries one flag: whether the previous character is a word character. A
key matches at a position when the text there starts with the key and there is
a word boundary on both sides, as `\b` defines it. A word boundary is a change
between word and non-word characters, or a string end. The apostrophe is a
non-word character, so it is a boundary. After a match the scan resumes behind
the replaced text, as `re.sub` does. `Abbreviations.ReSubIsWordReplacement`
proves that, for keys made of word characters, this scan equals replacing the
maximal word runs that equal the key (`Abbreviations.ReplaceWords`). The
expander's properties are proved on that word-level reading.

## Model

| member | source | states |
|---|---|---|
| Chars.ToLower | Functions.py:90-92 | the result is never upper case; an upper-case letter moves 32 code points up, to its lower-case form, every other character is unchanged, and the word and space classes are kept |
| Abbreviations.SubScan | Functions.py:66-67 | the definition of `re.sub` with `\b` boundaries: a left-to-right scan that replaces a match and resumes behind it; its meaning is stated by `ScanInsideWord`, `NoMatchInDifferentWord`, `MatchInEqualWord` and `ReSubIsWordReplacement` |
| Abbreviations.ReSub | Functions.py:66-67 | `re.sub(pattern, full, text)` for one key, starting with no word character before the text; `ReSubIsWordReplacement` states its word-level meaning |
| Abbreviations.ReSubIsWordReplacement | Functions.py:65-67 | `re.sub(r"\bkey\b", full, t)` equals replacing each maximal word run of `t` that equals the key, for every text and every word-character key |
| Abbreviations.ScanInsideWord | Functions.py:66-67 | inside a word run no match can start, since `\b` fails there, so the scan copies the rest of the run unchanged |
| Abbreviations.NoMatchInDifferentWord | Functions.py:66 | a word run that differs from the key does not start a `\b`-bounded match of the key, even when the key is a prefix of the run ("n" in "nst") |
| Abbreviations.MatchInEqualWord | Functions.py:66 | a word run equal to the key is a `\b`-bounded match |
| Abbreviations.WordsOfReplaceWords | Functions.py:65-67 | the words of the replaced text are the words of the input, with each occurrence of the key replaced by the words of the expansion |
| Abbreviations.ReplaceWordsAbsent | Functions.py:67 | a key that is not a word of the text leaves the text unchanged |
| Abbreviations.ReplaceAbbreviations | Functions.py:21-68 | the loop over the table, reassigning the text once per entry, returns the table applied entry by entry in table order, and no key is left as a word of its result |
| Abbreviations.Expand | Functions.py:65-67 | the definition of the expander: the entries applied one `ReSub` at a time in table order; `ReplaceAbbreviations` is proved equal to it, and `ExpandAppend`, `ExpandLeavesNoKey`, `ExpandFixedPoint` and `ExpandIdempotent` state its properties |
| Abbreviations.ExpandAppend | Functions.py:65-67 | applying a table split in two is applying the first part, then the second |
| Abbreviations.ExpandLeavesNoKey | Functions.py:65-67 | after a table whose expansions contain none of its keys as a word, no key is a word of the result |
| Abbreviations.ExpandFixedPoint | Functions.py:65-67 | a text containing none of the keys as a word is left unchanged |
| Abbreviations.TableIsClosed | Functions.py:26-63 | no expansion in the table contains any key as a whole word |
| Abbreviations.TableIsGood | Functions.py:26-63 | every key is a short word, and every expansion is lower-case text whose words are long or short |
| Abbreviations.WordsOfMartinLutherKing | Functions.py:51 | "martin luther king" has the three words "martin", "luther" and "king" |
| Abbreviations.ExpandIdempotent | Functions.py:21-68 | applying the expander twice gives the same result as applying it once |
| AbbreviationExamples.ExpandByGroups | Functions.py:26-67 | the table is applied group after group: street types, directions, buildings, names, ordinals |
| AbbreviationExamples.MainStreet | Functions.py:26-67 | "100 n main st" becomes "100 north main street" |
| AbbreviationExamples.LongerWordsUntouched | Functions.py:65-67 | "brandt" and "nst", which contain keys but are not keys, are unchanged |
| Cleaning.StripPunctuation | Functions.py:89-92 | every remaining character is a word character, ASCII whitespace or `'`, and each such character keeps its number of occurrences |
| Cleaning.Lower | Functions.py:90-92 | same length; no upper-case letter; upper-case letters move to lower case and every other character is kept |
| Cleaning.Clean | Functions.py:89-92 | the cleaned field contains only word characters, ASCII whitespace and `'`, has no upper-case letter, and is no longer than the input |
| Cleaning.CleanNormal | Functions.py:89-92 | a field that is already clean is unchanged by cleaning |
| Cleaning.CleanIdempotent | Functions.py:89-92 | cleaning twice is cleaning once |
| Cleaning.NormalizeAddress | Functions.py:91-95 | a normalized address is clean and contains no key of the table as a word |
| Cleaning.NormalizeCleanAddress | Functions.py:91-95 | for an address that is already clean, normalizing only expands it |
| Cleaning.ExpandKeepsNormal | Functions.py:95 | expansion keeps a clean text clean, because every expansion is clean |
| Cleaning.NormalizeAddressIdempotent | Functions.py:91-95 | normalizing an address twice is normalizing it once |
| Cleaning.BeforeFirst | Functions.py:83-86 | `s.split(sep)[0]` is a prefix of `s` without `sep`, followed in `s` by `sep` when it is shorter, and equal to `s` when `sep` does not occur |
| Cleaning.TruncateZip | Functions.py:83-86 | a zip code containing `-` becomes its prefix before the first `-`; a zip code without `-` is unchanged; the result has no `-` |
| Cleaning.TruncatePostal | Functions.py:113-114 | a postal code becomes its prefix before the first `.`, which has no `.`; a postal code without `.` is unchanged |
| Cleaning.DuplicateCount | Functions.py:98-99 | the definition of `duplicated(subset=[key]).sum()`: each row counts once when its key occurs in an earlier row; `DuplicateCountIsRowsMinusKeys` states its value |
| Cleaning.DuplicateCountIsRowsMinusKeys | Functions.py:98-99 | the number of rows whose key occurs in an earlier row is the number of rows minus the number of distinct keys |
| Cleaning.CleanLeft | Functions.py:83-95 | a cleaned left row keeps its id and state; its name and city are only cleaned, its address is cleaned and expanded, and its zip code is exactly `TruncateZip` of the raw zip code |
| Cleaning.CleanRight | Functions.py:113-124 | a cleaned right row keeps its id and state; its name and city are only cleaned, its address is cleaned and expanded, and its postal code is exactly `TruncatePostal` of the raw postal code |
| Cleaning.ZipTruncated | Functions.py:84-86 | a row after the zip-code loop: only its zip code changes, to `TruncateZip` of it; `TruncateZipCodes` is proved to produce it for every row |
| Cleaning.CleanFields | Functions.py:90-95 | a row after the three column maps: name and city cleaned, address normalized; `CleanLeftInTwoSteps` ties it to `CleanLeft` |
| Cleaning.CleanLeftInTwoSteps | Functions.py:83-95 | the zip-code loop followed by the column maps gives the cleaned row |
| Cleaning.TruncateZipCodes | Functions.py:83-86 | the loop updates in place every row of the array, and only its zip code, which is cut at the first `-` |
| Cleaning.TruncateZipAt | Functions.py:85-86 | one pass of the loop updates only row `i` |
| Cleaning.LeftPreprocess | Functions.py:74-102 | every row is kept, in order, and cleaned; the keys are unchanged; the returned count is rows minus distinct `business_id`s |
| Cleaning.RightPreprocess | Functions.py:105-131 | every row is kept, in order, and cleaned; the keys are unchanged; the returned count is rows minus distinct `entity_id`s |
| Blocking.LeftInState | Functions.py:143-147 | the definition of the state mask on the left table, in row order; `LeftInStateMembers` states which rows it keeps |
| Blocking.RightInState | Functions.py:149-153 | the same mask on the right table; `RightInStateMembers` states which rows it keeps |
| Blocking.RightInStateMembers | Functions.py:149-153 | a row is selected for a state iff it is in the table and has that state |
| Blocking.LeftInStateMembers | Functions.py:143-147 | a row is selected for a state iff it is in the table and has that state |
| Blocking.Join | Functions.py:155-159 | the definition of the inner merge on address, each left row in order with its matching right rows in order; `JoinMembers` and `JoinGroupSize` state its contents and multiplicities |
| Blocking.JoinMembers | Functions.py:155-159 | a pair is in the inner join iff its rows come from the two sides and have equal addresses |
| Blocking.Merge | Functions.py:155-161 | the per-state merges concatenated in the order of the state list; `MergeMembers`, `MergeGroupSize`, `MergeGroupedByState` and `MergeSize` state its properties |
| Blocking.MergeTable | Functions.py:138-165 | `merge_table`: `Merge` over PA, FL, MO, TN, IN; `MergeTableShape` states its shape |
| Blocking.MergeMembers | Functions.py:143-161 | a pair is in the merge iff its rows come from the two tables, have the same state, that state is listed, and the addresses are equal |
| Blocking.MergeGroupSize | Functions.py:155-161 | for each state and address, the merge holds (left rows with that state and address) × (right rows with that state and address) pairs, and none for an unlisted state |
| Blocking.JoinGroupSize | Functions.py:155-159 | for each state and address, the inner merge holds (left rows with that state and address) × (right rows with that address) pairs |
| Blocking.MergeSize | Functions.py:155-161 | the merge has at most (left rows of the listed states) × (right rows) pairs, so never more than the cross product |
| Blocking.MergeGroupedByState | Functions.py:161 | the pairs are grouped by state in the order of the state list |
| Blocking.MergeTableShape | Functions.py:138-165 | `merge_table` emits only PA, FL, MO, TN and IN pairs, grouped in that order, and never more than the cross product |
| Matching.Accepted | Functions.py:179-187 | the definition of the filter: the rows scoring above 80, in input order, each with its score; `PerStateMatcher` is proved equal to it, and `AcceptedSelects`, `AcceptedEmpty` and `AcceptedScores` state its properties |
| Matching.PerStateMatcher | Functions.py:171-188 | the loop returns exactly the accepted rows in input order, each score above 80 and at most 100 |
| Matching.AcceptedAppend | Functions.py:179-184 | the filter works row by row, so it commutes with concatenation |
| Matching.AcceptedScores | Functions.py:183 | every reported score is above 80 and at most 100 |
| Matching.AcceptedSelects | Functions.py:179-187 | there are increasing positions that are exactly the rows scoring above 80, and the k-th output is the k-th of those rows with its score |
| Matching.AcceptedEmpty | Functions.py:186-188 | the output is empty iff no row scores above 80 |
| Matching.Boundary | Functions.py:183 | a score of 80 is rejected, a score of 81 is accepted |
| Matching.MissingNames | Functions.py:180-181 | a missing name is scored as the empty string |
| Scenarios.DifferentStatesNeverPaired | Functions.py:143-161 | rows whose states differ are never paired |
| Scenarios.OtherStatesDropped | Functions.py:143-161 | a row of a state outside the five is never paired |
| Scenarios.SameNormalizedAddressPaired | Functions.py:155-159 | two preprocessed rows of a listed state whose raw addresses normalize alike are paired |
| Scenarios.SinglePair | Functions.py:155-161 | one left row and one right row with the same listed state and address merge into exactly that pair |
| Scenarios.RawPairMatched | Functions.py:74-188 | two raw rows with the same listed state, addresses that normalize alike, and cleaned names scoring above 80 give exactly one match, with that score |
| Scenarios.JoesPizzaPaired | Functions.py:138-165 | "joes pizza" and "joe's pizza and grill", both at "100 n main st" in PA, are paired |
| Scenarios.JoesAddresses | Functions.py:91-95 | both raw addresses normalize to "100 north main street" |
| Scenarios.JoesPizzaMatched | Functions.py:74-188 | with a score above 80 for the cleaned names, that pair is the whole result, with ids B1 and E1 |
| Scenarios.DissimilarNamesRejected | Functions.py:155-188 | a pair the blocker generates is still rejected when its names score 80 or less |

## Left out

- `load` and `csv_writer` (Functions.py:12-14, 196-197) read and write CSV files. They are file I/O; the model takes and returns sequences of rows.
- `fuzz.partial_ratio` (Functions.py:182) is a foreign library call. It is a parameter of the matcher, of type `(string, string) -> Score` with `Score` the integers 0 to 100.
- The `tqdm` progress bar and the `print` of the duplicate counts (Functions.py:100, 129, 179). The count is returned instead of printed.
- Characters are ASCII: `\w`, `\s` and `str.lower` are modelled for ASCII only, not for Unicode.
- `str(x)` of a missing value gives `"nan"` in the preprocess functions (Functions.py:90-92, 119-121). The model represents missing names as `None` at the matcher only.
- A missing zip code (NaN, a float) or a zip-code column read as integers makes the test for `-` in the zip-code loop (Functions.py:85) raise `TypeError`. Zip codes are modelled as strings, so `Cleaning.TruncateZipAt` never fails and this exception is not modelled.
- `astype(str)` on a postal code read as a number (Functions.py:113) is not modelled. Postal codes are strings, and only the cut at `.` is modelled.
- The pandas DataFrame machinery is not modelled: indexes, the `_x`/`_y` suffixes and the drop of the `size` and `categories` columns, which are absent from the row types.
- The order of an inner merge within one state is modelled as left-row-major: for each left row in order, its matching right rows in order. That is the order of recent pandas releases; older releases grouped the output by key. Membership, multiplicities and the order between states do not depend on this.
- The dictionary literal is modelled as a sequence of pairs in its insertion order, which is the order in which Python iterates it.
- Blocking.MergeGroupSize: states the number of pairs for each (state, address) group, and Blocking.MergeMembers says that every pair belongs to such a group. The total as an explicit sum over all addresses is not stated.
- Cleaning.StripPunctuation: the contract states which characters remain and how many of each, not that they stay in their original order.
