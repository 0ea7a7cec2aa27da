# Word frequency by map/reduce: a verified model

This project models the map/reduce word-frequency core of `task_2/task_2.py`.

The script runs these steps:

1. It splits a downloaded text into `num_chunks = 8` fragments of whole lines (`split_text`).
2. It counts the lower-cased words of every fragment with a `Counter` (`mapper`).
3. It adds the counters together (`reducer`).
4. It hands the aggregate to `visualize_top_words`. That function checks that there is something to show and takes `most_common(10)`.

The model keeps the same steps, and these Dafny modules each mirror one function of the script:

- `WordCounts`: the `Counter` semantics the script relies on.
  - A counter is a `map<string, nat>` where a missing key reads as 0 (`Get`).
  - `Counter(words)` is `Tally`.
  - `Counter.update` is the pointwise sum `Merge`.
  - The reducer's fold is `SumAll`. It is proved equal to an independent pointwise sum, `SumAt`.
- `Tokenizer`: `mapper`.
  - `str.lower()` is `Lower`.
  - `re.findall(r'\b\w+\b', ...)` is `Words`, the maximal runs of word characters.
  - The number of tokens is proved equal to a second, finite-state count of run starts (`RunCount`).
- `Splitter`: `split_text`.
  - `str.splitlines` is `SplitLines`, and `"\n".join` is `Join`.
  - `max(1, len // n)` is `ChunkSize`, and Python's clamping slices are `Slice`.
  - The errors are returned as a `Result`: division by zero for a zero chunk count, and the thread pool's refusal of a negative worker count (`NoWorkers`).
- `Reducer`: `reducer`, as an imperative fold.
  - `Update` is `Counter.update`: a loop over the keys of the added counter.
  - `Reduce` is the loop over the counters.
- `TopWords`: the selection in `visualize_top_words`.
  - The two guards: an empty counter, and no entries to show.
  - `most_common(top_n)`: the first `top_n` entries of a stable sort by descending count.
- `Pipeline`: the main block.
  - It composes split, map and reduce.
  - End-to-end lemmas relate the aggregate to the tokens of the whole text, including the lines `split_text` drops.

## Model

| member | source | states |
|---|---|---|
| WordCounts.Get | task_2/task_2.py:23 | definition of reading a counter, where a missing word reads as 0 |
| WordCounts.Bump | task_2/task_2.py:17 | counting one more word raises that word's count by one, adds it as a key, and leaves every other count unchanged |
| WordCounts.Merge | task_2/task_2.py:23 | `update` keeps the keys of both counters and makes every count the sum of the two counts (0 where missing) |
| WordCounts.Tally | task_2/task_2.py:17 | definition of `Counter(words)` as the words counted one after another; characterised by `TallyCounts`, `TallyAppend` and `TallyTotal` |
| WordCounts.TallyCounts | task_2/task_2.py:17 | `Counter(words)` maps each word to its number of occurrences in the list, its keys are exactly the listed words, and every count is at least 1 |
| WordCounts.TallyAppend | task_2/task_2.py:17 | counting a concatenation of two word lists gives the merge of their two counters |
| WordCounts.TallyTotal | task_2/task_2.py:17 | the counts of `Counter(words)` add up to the number of words |
| WordCounts.SumAll | task_2/task_2.py:20-24 | definition of the reducer's result as the left-to-right fold of `update` from an empty counter; characterised by `SumAllAt` and `SumAtPermutation`, and `Reducer.Reduce` is proved to compute it |
| WordCounts.SumAllAt | task_2/task_2.py:20-24 | the left-to-right fold of `update` gives each word the sum of its counts over all counters, and a word is a key exactly when some counter has it |
| WordCounts.SumAtPermutation | task_2/task_2.py:20-24 | the pointwise sum over the counters does not depend on their order |
| Reducer.Update | task_2/task_2.py:23 | the loop over the added counter's keys ends with the union of the keys and the pointwise sum of the counts |
| Reducer.Reduce | task_2/task_2.py:20-24 | the reducer loop returns the fold of the counters from an empty counter; each count is the sum over all counters, and the keys are the words some counter has |
| Reducer.ReducePermutation | task_2/task_2.py:20-24 | reducing the same counters in any order gives the same words with the same counts, so no count depends on the order of the mapper results |
| Tokenizer.IsWordChar | task_2/task_2.py:16 | definition of `\w` restricted to ASCII: letters, digits and the underscore |
| Tokenizer.LowerChar | task_2/task_2.py:16 | a capital `A`-`Z` becomes the lower-case letter at the same place in the alphabet, every other character is unchanged, the result is never upper-case, and word characters stay word characters |
| Tokenizer.Lower | task_2/task_2.py:16 | `lower()` keeps the length and lower-cases each character in place |
| Tokenizer.LowerIdempotent | task_2/task_2.py:16 | lower-casing twice is the same as lower-casing once |
| Tokenizer.Words | task_2/task_2.py:16 | definition of the tokens `\b\w+\b` finds, as maximal runs from left to right; characterised by `WordsAreRuns`, `WordsCountRuns`, `WordsSplit` and `WordsOfWord` |
| Tokenizer.RunLength | task_2/task_2.py:16 | the leading run of word characters is as long as possible: every character in it is a word character, and the next one is not |
| Tokenizer.WordsAreRuns | task_2/task_2.py:16 | every token `\b\w+\b` finds is non-empty and made only of word characters |
| Tokenizer.WordsCountRuns | task_2/task_2.py:16 | there are as many tokens as places where a run of word characters starts, counted by an independent finite-state scan |
| Tokenizer.RunStartsLower | task_2/task_2.py:16 | lower-casing does not change the number of runs of word characters |
| Tokenizer.WordsSplit | task_2/task_2.py:16 | no token crosses a non-word character: the tokens of `x + c + y` are the tokens of `x` followed by those of `y` |
| Tokenizer.LowerWordsAreLower | task_2/task_2.py:16 | the tokens of a lower-cased text contain no upper-case letter |
| Tokenizer.Mapper | task_2/task_2.py:15-17 | each word's count in the mapper's counter is its number of occurrences among the tokens of the lower-cased chunk, and every key has a count of at least 1 |
| Tokenizer.MapperLower | task_2/task_2.py:15-17 | the mapper gives the same counter for a chunk and for its lower-cased copy |
| Tokenizer.MapperCounts | task_2/task_2.py:15-17 | the mapper's keys are non-empty lower-case runs of word characters with counts of at least 1; each count is the word's number of occurrences as a token, and the counts add up to the number of runs |
| Tokenizer.MapperSplit | task_2/task_2.py:15-17 | mapping two pieces joined by a line break gives the merge of the two pieces' counters, so splitting at line breaks loses or invents no word |
| Tokenizer.MapperExample | task_2/task_2.py:15-17 | case and punctuation are normalised away: "Hello, hello world!" gives `hello` 2 and `world` 1 |
| Splitter.LineEnd | task_2/task_2.py:28 | the first line of a text ends at its first line break, or at the end of the text |
| Splitter.SplitLines | task_2/task_2.py:28 | definition of `splitlines` on "\n"; characterised by `SplitLinesNoNewline` and the round trips `JoinSplitLines` and `SplitLinesJoin` |
| Splitter.Join | task_2/task_2.py:30 | definition of `"\n".join`; characterised by the round trips `JoinSplitLines` and `SplitLinesJoin` |
| Splitter.SplitLinesNoNewline | task_2/task_2.py:28 | no line `splitlines` returns contains a line break |
| Splitter.JoinSplitLines | task_2/task_2.py:28 | joining the lines with "\n" gives the text back, except for the final "\n" that `splitlines` drops |
| Splitter.SplitLinesJoin | task_2/task_2.py:28 | lines without breaks whose last line is not empty come back unchanged from `splitlines` of their join |
| Splitter.ChunkSize | task_2/task_2.py:29 | the chunk size is at least 1: `len // n` when there are at least `n` lines, and 1 otherwise |
| Splitter.Slice | task_2/task_2.py:30 | a slice clamps both bounds to the length and is empty when they cross |
| Splitter.SplitText | task_2/task_2.py:27-30 | a zero chunk count is an error (division by zero), a negative one gives no fragments, and a positive `n` gives exactly `n` fragments |
| Splitter.ChunkLines | task_2/task_2.py:30 | definition of the slice `lines[i * chunk_size:(i + 1) * chunk_size]` for each of the `num_chunks` fragments; characterised by `ChunkPrefix` and `ChunksCoverPrefix` |
| Splitter.Fragments | task_2/task_2.py:30 | definition of the list comprehension that joins each group of lines; characterised by `FragmentLines`, `FewLines` and `EmptyText` |
| Splitter.ChunkPrefix | task_2/task_2.py:29-30 | the first `k` groups together are the first `min(len, k * chunk_size)` lines |
| Splitter.ChunksCoverPrefix | task_2/task_2.py:29-30 | the fragments' groups, concatenated, are exactly the first `Covered` lines, each once and in order |
| Splitter.FragmentLines | task_2/task_2.py:30 | fragment `i` is the join of lines `[i * size, (i + 1) * size)` clamped to the line count; each fragment starts where the previous one ends, and the last ends at `Covered` |
| Splitter.DroppedTail | task_2/task_2.py:29-30 | with at least `n` lines, exactly the first `n * (len // n)` lines are in fragments, and the last `len % n` lines are in none |
| Splitter.FewLines | task_2/task_2.py:29-30 | with fewer lines than fragments every line is kept: fragment `i` is line `i`, and the remaining fragments are empty |
| Splitter.EmptyText | task_2/task_2.py:27-30 | the empty text gives `n` empty fragments and no error |
| TopWords.MostCommon | task_2/task_2.py:38 | `most_common(n)` gives no entries for `n <= 0` and otherwise `min(n, len)` of them; they come in non-increasing count order and are drawn from the counter's entries |
| TopWords.Items | task_2/task_2.py:38 | `counter.items()` in the counter's iteration order: one entry per key in `order`, pairing the word with its count |
| TopWords.InsertByCount | task_2/task_2.py:38 | inserting an entry adds exactly that entry |
| TopWords.SortByCount | task_2/task_2.py:38 | the sort is a permutation of the entries and its counts never increase |
| TopWords.SortByCountStable | task_2/task_2.py:38 | entries with equal counts keep their order from the counter's iteration |
| TopWords.SortedItemsEntries | task_2/task_2.py:38 | the sorted entries are as many as the keys, and each pairs a key with its count |
| TopWords.SortedItemsDistinct | task_2/task_2.py:38 | no word appears twice among the sorted entries |
| TopWords.SortedItemsComplete | task_2/task_2.py:38 | every key of the counter appears among the sorted entries |
| TopWords.LeftOutRanksLower | task_2/task_2.py:38 | a word left out of the top entries has a count no greater than any chosen entry's |
| TopWords.VisualizeTopWords | task_2/task_2.py:33-41 | the empty-counter report happens exactly when the counter is empty, and the no-data report exactly when it is not empty and `top_n <= 0`; otherwise a chart is drawn, as `VisualizeTopWordsChart` characterises |
| TopWords.VisualizeTopWordsChart | task_2/task_2.py:38-43 | a chart shows `min(top_n, len)` entries in non-increasing count order, each a distinct key with its true count, and no word left out outranks a chosen one |
| Pipeline.MapChunks | task_2/task_2.py:76 | definition of `executor.map(mapper, text_chunks)` as one counter per fragment, in fragment order; characterised by `ReduceMappedGroups` |
| Pipeline.Analyze | task_2/task_2.py:71-78 | split, map and reduce fail exactly when the chunk count is not positive: a zero count with the splitter's division by zero, a negative count with the thread pool's refusal to start; the end-to-end lemmas characterise the positive case |
| Pipeline.CountWords | task_2/task_2.py:70-78 | split, start the pool, map every fragment and reduce gives the splitter's error, the pool's error for a negative worker count, or the aggregate of the fragments' counters |
| Pipeline.RunWordFrequency | task_2/task_2.py:70-82 | the main block with 8 fragments and `top_n = 10` produces the outcome of `visualize_top_words` on that aggregate |
| Pipeline.WordsOfJoin | task_2/task_2.py:30 | the tokens of lines joined by "\n" are the tokens of each line in turn |
| Pipeline.TokensOfText | task_2/task_2.py:28 | splitting a text into lines loses no token and adds none |
| Pipeline.ReduceMappedGroups | task_2/task_2.py:76-78 | mapping every group of lines and reducing counts the tokens of all the groups' lines, taken in order |
| Pipeline.AnalyzeCountsCoveredLines | task_2/task_2.py:71-78 | for a positive chunk count, the aggregate counts exactly the tokens of the first `Covered` lines |
| Pipeline.AnalyzeCountsWholeText | task_2/task_2.py:71-78 | when the line count is a multiple of the chunk count, or smaller than it, every word's aggregate count is its number of occurrences as a token of the whole lower-cased text |
| Pipeline.DroppedTailExample | task_2/task_2.py:29-30 | "a\nb\nc" in 2 fragments gives fragments "a" and "b", and the word `c`, which occurs once in the text, has aggregate count 0 |

## Left out

- `fetch_text` (lines 9-12) is outside the model: it performs an HTTP request. The text is a parameter of `Pipeline.CountWords` and `Pipeline.RunWordFrequency`.
- The command-line handling is left out: the argument check, `sys.argv`, `sys.exit(1)` (lines 54-62) and the two `except` handlers that print errors (lines 84-87). The splitter's division-by-zero error and the thread pool's `ValueError` for `max_workers <= 0` are returned as `Splitter.Result.Err`, not printed.
- The progress and error messages printed by the script are left out, because they are output only.
- The bar chart (lines 43-52) is left out. `TopWords.Outcome.Chart` carries the entries that would be plotted.
- The thread pool (lines 75-76) is modelled as a sequential map in fragment order. `executor.map` returns results in input order and the workers share no state. `Reducer.ReducePermutation` shows that no count depends on the order of the results. The order does decide the aggregate counter's key order, and so the order of tied entries in `most_common`; since `executor.map` keeps input order, this does not arise.
- `str.lower()`, `\w` and `str.splitlines()` are modelled for ASCII text only. Case folding covers `A`-`Z`, word characters are ASCII letters, digits and `_`, and only "\n" breaks lines. Python's Unicode rules are not modelled: non-ASCII letters and digits, and the other line boundaries `splitlines` also recognises such as "\r", "\r\n" and "\x0b".
- A `Counter`'s iteration order, which decides ties in `most_common`, is not recorded by a `map`. It enters `TopWords.VisualizeTopWords` and `Pipeline.RunWordFrequency` as an `order` parameter that must list every key exactly once.
- Counts are `nat`. `Counter.update` can produce zero or negative counts only when the input counters hold them, and mapper counters never do.
- `most_common` is modelled as the first `n` entries of a stable sort by descending count, which is the result that `heapq.nlargest` guarantees; the heap mechanics are not modelled.
- `Splitter.SplitText` keeps the source's behaviour of dropping the last `len % n` lines when `len >= n` (`Splitter.DroppedTail`). `Pipeline.AnalyzeCountsWholeText` therefore holds only when no line is dropped.
