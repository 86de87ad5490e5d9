# Word-frequency pipeline, modelled in Dafny

This project models the word counter in `task-two/main.py`. The counter
takes a text and runs it through five stages:

1. `remove_punctuation` deletes every character of Python's
   `string.punctuation`. These are the 32 ASCII characters
   ``!"#$%&'()*+,-./:;<=>?@[\]^_`{|}~``. The characters are deleted, not
   replaced by a space, so `"a.b"` becomes `"ab"`.
2. `str.split()` cuts the result into maximal runs of non-whitespace.
3. `map_function` turns every token into the pair `(word, 1)`.
4. `shuffle_function` groups the pairs in a `defaultdict(list)`.
5. `reduce_function` sums each group.

`map_reduce` chains these stages into a dict from word to count. From that
dict, `visualize_top_words` keeps the ten entries with the highest counts.

The model has four modules, one per stage group:

- `Tokenizer` (`tokenizer.dfy`) covers punctuation stripping and splitting.
  `IsPunctuation` is the 32-character set, written as four code-point
  ranges. `IsWhitespace` is the fixed set of separators that `str.split()`
  uses: `\t`..`\r`, `\x1c`..`\x1f`, the space, U+0085, U+00A0, U+1680,
  U+2000..U+200A, U+2028, U+2029, U+202F, U+205F and U+3000.
- `MapReduce` (`mapreduce.dfy`) covers map, shuffle, reduce and
  `map_reduce`. `Shuffle` is a method whose loop updates a
  `map<string, seq<int>>` and a `seq<string>` holding the dict's key
  insertion order. Its loop invariant ties the map to `GroupsOf`, which
  replays the appends, and the method is proved equal to the specification
  function `Grouped`. `CountWords` is a method because it calls `Shuffle`. A Python
  dict is modelled as the sequence of its items in insertion order, and
  `AsDict` gives its key/value view.
- `TopWords` (`topwords.dfy`) covers
  `dict(sorted(words_count.items(), key=lambda x: x[1], reverse=True)[:10])`.
  Python's `sorted` is stable, including with `reverse=True`. The model
  sorts with a stable insertion sort by descending count, and proves that
  any stable descending sort gives the same result.
- `Seqs` (`seqs.dfy`) holds shared sequence facts: the distinct elements
  in order of first occurrence (the key order of a dict filled from a
  sequence), and sums of occurrence counts.

Each `ThreadPoolExecutor` stage is only `executor.map`, which returns
results in input order, so each one is modelled as a sequential sequence
map.

Ties in the top-10 report follow from the code. Python's `sorted` is
stable, also with `reverse=True`. The dict's items come in the order in
which the words first occur. `TopWordsTieOrder` proves that equal counts
are reported in that order.

## Model

| member | source | states |
|---|---|---|
| `Tokenizer.IsPunctuation` | task-two/main.py:31 | `string.punctuation` as four code-point ranges: `!`..`/`, `:`..`@`, `[`..`` ` ``, `{`..`~` |
| `Tokenizer.PunctuationIsPythonSet` | task-two/main.py:31 | The four ranges hold exactly the 32 characters of the `string.punctuation` literal, and no others |
| `Tokenizer.IsWhitespace` | task-two/main.py:72 | The separators of `str.split()` as ranges: `\t`..`\r`, `\x1c`..`\x1f` and the space, U+0085, U+00A0, U+1680, U+2000..U+200A, U+2028, U+2029, U+202F, U+205F, U+3000 |
| `Tokenizer.WhitespaceIsSplitSet` | task-two/main.py:72 | The ranges hold exactly the 29 separators of `str.split()`, listed one by one, and no others |
| `Tokenizer.RemovePunctuation` | task-two/main.py:25-31 | The result holds no character of `string.punctuation` and is never longer than the input |
| `Tokenizer.RemovePunctuationCounts` | task-two/main.py:31 | Every character that is not punctuation is kept exactly as often as it occurs in the input |
| `Tokenizer.RemovePunctuationConcat` | task-two/main.py:31 | Stripping a concatenation strips each part, so kept characters stay in their original order |
| `Tokenizer.RemovePunctuationKeeps` | task-two/main.py:31 | Text without punctuation comes back unchanged |
| `Tokenizer.RemovePunctuationIdempotent` | task-two/main.py:31 | Stripping twice gives the same result as stripping once |
| `Tokenizer.RemovePunctuationJoinsWords` | task-two/main.py:31 | Punctuation is deleted, not replaced by a space: `"a.b"` becomes `"ab"` |
| `Tokenizer.Split` | task-two/main.py:72 | Every piece produced by `str.split()` is non-empty and contains no whitespace |
| `Tokenizer.SplitAtWhitespace` | task-two/main.py:72 | One whitespace character separates: splitting `a c b` gives the pieces of `a` followed by the pieces of `b` |
| `Tokenizer.SplitWord` | task-two/main.py:72 | A string that is a single word splits into exactly that word |
| `Tokenizer.SplitEmpty` | task-two/main.py:72 | The split is empty exactly when the text is empty or all whitespace |
| `Tokenizer.SplitKeepsText` | task-two/main.py:72 | Gluing the pieces back together gives the text with all whitespace removed, in order |
| `Tokenizer.SplitJoin` | task-two/main.py:72 | Splitting inverts joining words with a space, for any list of words |
| `Tokenizer.Tokens` | task-two/main.py:71-72 | Every token of the punctuation-stripped text is a non-empty word without whitespace |
| `Tokenizer.TokenChars` | task-two/main.py:71-72 | No token contains whitespace or punctuation |
| `Tokenizer.TokensEmpty` | task-two/main.py:71-72 | There are no tokens exactly when the text is empty or contains only whitespace and punctuation |
| `Tokenizer.TokensExample` | task-two/main.py:71-72 | Matching is case-sensitive: `"A a."` gives the two tokens `"A"` and `"a"` |
| `MapReduce.MapFunction` | task-two/main.py:34-40 | The word is returned unchanged, paired with the count unit 1 |
| `MapReduce.MapAll` | task-two/main.py:74-75 | There is one pair per token, in token order, duplicates kept; the pairs' words give back the token list, and every unit is 1 |
| `MapReduce.ValuesOfLength` | task-two/main.py:49-51 | A key collects as many values as it has occurrences among the input pairs |
| `MapReduce.ValuesOfConcat` | task-two/main.py:49-51 | Grouping keeps input order: the values for a key from a concatenation are the values from each part, one after the other |
| `MapReduce.GroupsOf` | task-two/main.py:49-51 | The `defaultdict(list)` after the loop: for each pair in turn, the key's list (empty if the key is new) with the value appended |
| `MapReduce.GroupsOfKeys` | task-two/main.py:49-51 | The `defaultdict` built by the loop holds a key exactly when some pair carries it |
| `MapReduce.GroupsOfValues` | task-two/main.py:49-51 | The `defaultdict` built by the loop maps every key to the values paired with it, in input order |
| `MapReduce.OrderStep` | task-two/main.py:49-51 | One loop step adds a key to the end of the insertion order when it is new, and leaves the order alone otherwise |
| `MapReduce.Shuffle` | task-two/main.py:43-52 | The loop over the pairs returns the dict's items, one per distinct word in order of first occurrence, each holding the values paired with that word in input order |
| `MapReduce.ShuffleProperties` | task-two/main.py:43-52 | After shuffling, the keys are exactly the input words, each once; no list is empty; and the list lengths add up to the number of pairs |
| `MapReduce.Sum` | task-two/main.py:62 | Python's `sum` of a list: 0 for the empty list, otherwise the values added from left to right |
| `MapReduce.SumConcat` | task-two/main.py:62 | `sum` of a concatenation is the sum of the parts |
| `MapReduce.SumOfUnits` | task-two/main.py:62 | `sum` of a list of count units equals its length |
| `MapReduce.ReduceFunction` | task-two/main.py:55-62 | The key is returned unchanged; for a list of units, the sum is the list's length |
| `MapReduce.ReduceAll` | task-two/main.py:79-80 | One result per group, in group order, with the same keys |
| `MapReduce.AsDict` | task-two/main.py:82 | `dict(items)` has exactly the keys of the items |
| `MapReduce.AsDictLookup` | task-two/main.py:82 | With distinct keys, the dict maps every key to the value of its item |
| `MapReduce.ReduceShuffleMapped` | task-two/main.py:74-82 | Mapping, shuffling and reducing a token list gives every distinct token, in first-occurrence order, with its number of occurrences |
| `MapReduce.WordCountsTotal` | task-two/main.py:65-82 | The counts add up to the number of tokens, every count is at least 1, and there are no counts exactly when there are no tokens |
| `MapReduce.CountWords` | task-two/main.py:65-82 | The dict's keys are exactly the distinct tokens of the stripped text, in first-occurrence order; each value is that word's number of occurrences and at least 1; the values add up to the token count; the dict is empty exactly when there are no tokens |
| `Seqs.Distinct` | task-two/main.py:49-52 | The dict's key order holds every input key exactly once, and nothing else |
| `Seqs.DistinctFirstOccurrence` | task-two/main.py:49-52 | The dict's keys come in the order in which they first occur in the input |
| `Seqs.DistinctCountsSum` | task-two/main.py:49-52 | Summing the occurrence counts of the distinct keys gives the length of the input |
| `TopWords.SortByCountDesc` | task-two/main.py:91-92 | The sort returns a permutation of the items with counts in non-increasing order |
| `TopWords.SortStable` | task-two/main.py:91-92 | The sort is stable: for every count, the entries with that count keep their input order |
| `TopWords.StableSortUnique` | task-two/main.py:91-92 | Any arrangement that is sorted by descending count and stable is exactly the modelled sort's result |
| `TopWords.SelectTop` | task-two/main.py:91-92 | The selection has `min(10, number of distinct words)` entries |
| `TopWords.TopWordsSelects` | task-two/main.py:91-92 | The selection is sorted by descending count and holds only input entries; no entry left out has a higher count than an entry kept |
| `TopWords.TopWordsAll` | task-two/main.py:91-92 | With at most ten distinct words, every entry is reported |
| `TopWords.TopWordsTieOrder` | task-two/main.py:91-92 | Among the reported words, equal counts appear in the order in which the words first occur in the text |
| `TopWords.TopWordsDistinct` | task-two/main.py:91-92 | The selected entries have distinct words, so the `dict(...)` around the selection drops nothing and maps each word to its count |

## Left out

- `get_text` (task-two/main.py:10-22) is left out. It is a network fetch through `requests` with error logging, and its text becomes the `text` parameter of `CountWords`.
- Chart rendering in `visualize_top_words` (task-two/main.py:93-104) is left out. It is matplotlib and numpy output; the model ends at the selected entries.
- The `__main__` block (task-two/main.py:107-116) is left out. It sets up logging and fetches a fixed URL. It calls `map_reduce` and `visualize_top_words` only under `if text:` (lines 111-113). A failed fetch (`None`) or an empty text therefore goes to the error branch at lines 115-116 and is never counted. `CountWords` models `map_reduce` alone: its result for empty text (no tokens, so an empty dict) is what `map_reduce` returns, not what the program reports.
- The `ThreadPoolExecutor` parallelism (task-two/main.py:74-80) is not modelled. `executor.map` returns results in input order, so each stage is a sequential map.
- `IsWhitespace` is a fixed list of characters. It matches the separators of `str.split()` for current Unicode data, but it does not follow later changes to the Unicode database.
- Python's arbitrary-precision integers are modelled as Dafny's unbounded `int`, so there is no overflow to model.
- `task-one/main.py` is not part of this model. It is an asynchronous file copier (directory walk, `mkdir`, copy, argument parsing and logging), and its extension bucket depends on pathlib's `suffix` rules and Unicode `lower()`.
