# Word-frequency MapReduce, modelled in Dafny

`mapreduce_wordcount.py` counts the words of a text in five steps:

1. It deletes punctuation.
2. It splits the text on whitespace.
3. If search words are given, it keeps only the tokens whose lower-case form is one of them.
4. It runs a toy map/shuffle/reduce:
   - `map_function` pairs each lower-cased word with 1;
   - `shuffle_function` groups the values by key in a `defaultdict(list)`;
   - `reduce_function` sums each group;
   - `dict(...)` collects the results.
5. It selects the top N words with a stable sort by count, largest first, and the slice `[:N]`.

This project models that pipeline and proves what it promises:

- every count is the number of occurrences of its word;
- the counts add up to the number of tokens;
- the shuffle is complete, keeps input order and loses no value;
- the top-N result is a bounded prefix of the table's items sorted by count.

Modules, one per stage:

- `Text` (`text.dfy`) is the normaliser. It holds `string.punctuation` as the four ASCII ranges `!`-`/`, `:`-`@`, `[`-`` ` `` and `{`-`~`. It holds the exact whitespace set of Python's `str.split()`, the ASCII part of `str.lower()`, and the split into tokens.
- `Table` (`table.dfy`) is a Python `dict` from words to counts. It stores the key order beside the map of entries, because the top-N sort breaks ties by insertion order.
- `WordCount` (`wordcount.dfy`) holds the map, shuffle and reduce stages and `map_reduce`.
  - `shuffle_function` is imperative in the source, so `Shuffle` is a method with a loop. It is proved equal to the reference function `Grouped`.
  - `MapReduce` is a function built on `Grouped`, because a function cannot call a method.
  - Each thread pool's `executor.map` returns results in input order, so both pools are sequential maps over a sequence (`MapAll`, `ReduceAll`).
- `TopWords` (`topwords.dfy`) is the top-N selection. `SortByCount` is a stable insertion sort. `Head` has Python's slice semantics, including a negative bound.

Tie order among equal counts is fixed by the code: a Python dict keeps insertion order, and `sorted` is stable. Ties keep the order in which the lower-cased words first occur in the text (`MapReduceOrder`, `KeysOfFirstOccurrence`, `SortByCountStable`).

## Model

| member | source | states |
|---|---|---|
| Text.RemovePunctuation | mapreduce_wordcount.py:17-19 | the result contains no character of `string.punctuation` and is no longer than the input |
| Text.RemovePunctuationCounts | mapreduce_wordcount.py:17-19 | every non-punctuation character occurs as often in the result as in the input; punctuation occurs zero times |
| Text.RemovePunctuationAppend | mapreduce_wordcount.py:19 | removal from a concatenation is the concatenation of the removals, so the characters kept stay in their order |
| Text.RemovePunctuationChar | mapreduce_wordcount.py:19 | one character is dropped if it is punctuation and kept otherwise; with the previous row this fixes the function on every string |
| Text.RemovePunctuationKeepsClean | mapreduce_wordcount.py:19 | a string without punctuation is returned unchanged |
| Text.RemovePunctuationIdempotent | mapreduce_wordcount.py:19 | removing punctuation twice is the same as removing it once |
| Text.RemovePunctuationJoinsWords | mapreduce_wordcount.py:19 | deletion is not replaced by a space: "end.Next" becomes "endNext" |
| Text.IsPunctuation | mapreduce_wordcount.py:19 | `string.punctuation`: a character is punctuation exactly when it is printable ASCII other than the space, a letter or a digit |
| Text.IsSpace | mapreduce_wordcount.py:40 | the whitespace set of `str.split()`; no whitespace character is punctuation, a letter or a digit, so removing punctuation never deletes a separator |
| Text.Split | mapreduce_wordcount.py:40 | `str.split()`: every token is non-empty and whitespace-free; together, in order, the tokens are exactly the text's non-whitespace characters |
| Text.SplitAtSpace | mapreduce_wordcount.py:40 | token boundaries fall exactly at whitespace: a whitespace character splits the text into two parts tokenised independently |
| Text.SplitWord | mapreduce_wordcount.py:40 | a non-empty, whitespace-free word is a single token; with the previous row and `SplitBlank` this fixes `str.split()` on every string |
| Text.SplitJoinWords | mapreduce_wordcount.py:40 | splitting words joined by single spaces gives back exactly those words |
| Text.SplitBlank | mapreduce_wordcount.py:40 | a text yields no token exactly when it holds only whitespace |
| Text.Lower | mapreduce_wordcount.py:23 | ASCII lower-casing: 'A'..'Z' become 'a'..'z', letter for letter; the result is never an upper-case letter; every other character is unchanged |
| Text.LowerWord | mapreduce_wordcount.py:23 | `word.lower()` keeps the length, replaces each upper-case letter by its lower-case letter, leaves no upper-case letter and changes no other character |
| Text.LowerWordIdempotent | mapreduce_wordcount.py:23 | lower-casing twice equals lower-casing once, and a token stays a token |
| Table.Put | mapreduce_wordcount.py:53 | a dict assignment keeps the table well formed; a new key goes last and an existing key keeps its place |
| Table.FromPairs | mapreduce_wordcount.py:53 | `dict(pairs)` is a well-formed table whose keys are exactly the keys of the pairs |
| Table.Items | mapreduce_wordcount.py:57 | `.items()` lists each key in insertion order with its value |
| Table.FromDistinctPairs | mapreduce_wordcount.py:53 | for pairs with distinct keys, `dict` keeps their order and values, and `.items()` gives the pairs back |
| Table.FromDistinctKeys | mapreduce_wordcount.py:53 | for pairs with distinct keys, `dict` lists the keys in the pairs' order |
| Table.FromDistinctValues | mapreduce_wordcount.py:53 | for pairs with distinct keys, `dict` maps each pair's key to that pair's value |
| Table.FromPairsItems | mapreduce_wordcount.py:53 | rebuilding a dict from its own items gives the same table |
| WordCount.MapWord | mapreduce_wordcount.py:21-23 | `map_function`: the value is 1; the key is lower-case, as long as the word, and equal to it up to case |
| WordCount.MapAll | mapreduce_wordcount.py:45-46 | the map stage returns one pair per word, in input order |
| WordCount.KeysOfComplete | mapreduce_wordcount.py:25-30 | the shuffle's keys are pairwise distinct and are exactly the keys that occur in the input |
| WordCount.ValuesOfPresent | mapreduce_wordcount.py:25-30 | a key's group is non-empty exactly when the key occurs in the input |
| WordCount.ValuesOfAppend | mapreduce_wordcount.py:28-29 | one more pair appends its value to its own key's group and changes no other group |
| WordCount.KeysOfFirstOccurrence | mapreduce_wordcount.py:27-30 | the shuffle lists keys in strictly increasing order of their first occurrence in the input |
| WordCount.Shuffle | mapreduce_wordcount.py:25-30 | the `defaultdict(list)` loop returns every distinct key once, in first-occurrence order, with all its values in input order |
| WordCount.ShuffleConserves | mapreduce_wordcount.py:27-29 | the groups together hold exactly as many values as there are input pairs |
| WordCount.Sum | mapreduce_wordcount.py:35 | `sum`: a sum of non-negative values is non-negative, and a sum of values of at least 1 is at least their number |
| WordCount.SumOfOnes | mapreduce_wordcount.py:35 | the sum of a list of 1s is its length |
| WordCount.SumAppend | mapreduce_wordcount.py:35 | summing splits over concatenation |
| WordCount.ReduceGroup | mapreduce_wordcount.py:32-35 | `reduce_function` keeps the key; for a group of 1s its value is the size of the group |
| WordCount.ReduceAll | mapreduce_wordcount.py:50-51 | the reduce stage returns one result per group, in group order |
| WordCount.ReduceAllTotal | mapreduce_wordcount.py:50-51 | reducing groups of 1s keeps the total number of values |
| WordCount.Filter | mapreduce_wordcount.py:42-43 | every word kept comes from the input and lower-cases to a search word |
| WordCount.FilterAppend | mapreduce_wordcount.py:43 | the comprehension works word by word and keeps order: filtering a concatenation concatenates the filtered parts |
| WordCount.FilterOne | mapreduce_wordcount.py:43 | one word is kept exactly when its lower-case form is a search word; with the previous row this fixes the filter on every list |
| WordCount.FilterCount | mapreduce_wordcount.py:42-43 | filtering keeps every occurrence of a search word and drops every other word |
| WordCount.Tokens | mapreduce_wordcount.py:39-43 | every counted token is a non-empty, whitespace-free word |
| WordCount.MapReduce | mapreduce_wordcount.py:37-53 | `map_reduce` returns a well-formed table |
| WordCount.MappedValues | mapreduce_wordcount.py:45-48 | after the map stage, a word's group holds one 1 per occurrence of that word |
| WordCount.TableOfGroups | mapreduce_wordcount.py:48-53 | the dict of the reduced groups has the shuffle's keys in the shuffle's order, and its items are the reduced groups |
| WordCount.MapReduceCounts | mapreduce_wordcount.py:37-53 | a word is a key exactly when some counted token lower-cases to it; its count is the number of such tokens |
| WordCount.MapReduceKeysLower | mapreduce_wordcount.py:37-53 | every key is a non-empty, whitespace-free, lower-case word |
| WordCount.MapReduceOrder | mapreduce_wordcount.py:37-53 | the table's insertion order is the order in which lower-cased tokens first occur |
| WordCount.MapReduceTotal | mapreduce_wordcount.py:37-53 | the counts add up to the number of counted tokens |
| WordCount.MapReduceEmpty | mapreduce_wordcount.py:39-53 | a text with no token, because it has no non-whitespace character after punctuation removal or because the filter keeps nothing, yields the empty table, not an error |
| WordCount.MapReduceFilter | mapreduce_wordcount.py:42-43 | with search words, every key is a search word, a search word is a key exactly when it occurs in the unfiltered text, and then it is counted as there; without search words the counted tokens are all tokens of the text |
| TopWords.Insert | mapreduce_wordcount.py:57 | one insertion step keeps the sequence sorted by count, largest first, and adds exactly the new entry |
| TopWords.InsertPermutes | mapreduce_wordcount.py:57 | an insertion step adds the entry and loses none, as multisets |
| TopWords.InsertWithCount | mapreduce_wordcount.py:57 | the inserted entry goes after every entry with the same count |
| TopWords.SortByCount | mapreduce_wordcount.py:57 | `sorted(..., key=count, reverse=True)`: the result is sorted, largest count first, with the same entries and length |
| TopWords.SortByCountPermutes | mapreduce_wordcount.py:57 | the sorted sequence is a permutation of the items |
| TopWords.SortByCountStable | mapreduce_wordcount.py:57 | stability: for every count, the entries with that count keep their order |
| TopWords.StableSortUnique | mapreduce_wordcount.py:57 | two sorted sequences with the same entries per count in the same order are equal, so any stable sort gives this result |
| TopWords.SortDistinct | mapreduce_wordcount.py:57 | sorting keeps the keys distinct |
| TopWords.Head | mapreduce_wordcount.py:57 | the slice `[:n]` is a prefix of length min(n, size) for n >= 0, and of size + n, floored at 0, for negative n |
| TopWords.TopN | mapreduce_wordcount.py:57 | the top-N expression, also at line 77: a prefix of the table's items sorted by count, largest first, no longer than the table |
| TopWords.TopNSpec | mapreduce_wordcount.py:57 | top-N, also used at line 77: for n >= 0, min(n, keys) entries; sorted by count, largest first; each a table entry; no key twice; no omitted entry counts more than a returned one |

## Left out

- `get_text` (lines 7-15) is not modelled. It retrieves text over HTTP and handles the library's exceptions; this is network I/O.
- `visualize_top_words` (lines 59-67) is modelled only by its sort and slice at line 57. The plotting calls are not modelled, and neither is `zip(*sorted_words)`, which fails on an empty table.
- The `__main__` block (lines 69-81) is not modelled: its fixed URL, its printing and its `if text:` guard. Only its sort and slice at line 77 are, as `TopN`. `map_reduce(None)` raises an error in the source; that guard keeps it from being called.
- The `ThreadPoolExecutor` concurrency (lines 45-46 and 50-51) is not modelled. `executor.map` returns results in input order, so each pool is a sequential map.
- `MapReduce` uses the reference function `Grouped`, not the method `Shuffle`. `Shuffle` carries the source's loop and is proved to return `Grouped`.
- Text.Lower: only ASCII letters are lower-cased. Python's full Unicode case mapping is not modelled. That mapping also changes other letters (such as 'Ä'), and for a few characters it changes the length.
- WordCount.Tokens: `search_words` is a set of strings. Python's `None` and an empty collection both fail the `if search_words:` test, so the empty set stands for both. A plain string passed as `search_words` would make `in` a substring test; this is not modelled. Search words are compared as given and are not lower-cased, as in the source.
