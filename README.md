# Mnemonic recovery search: a verified model

This project models the search-and-filter core of a tool that recovers a
forgotten BIP39 mnemonic phrase. For each word position the user gives the
first letter as a one-character hint. A hint of any other length opens no
position and makes the estimate raise, so the search stops there. The tool
works in steps. It checks the configured candidate words against the
dictionary, printing an error for each word it does not find; the check does
not stop the script. It builds, for each single-letter hint, the list of candidate words
that start with that letter (a *slot*). It prints two estimates of the number
of phrases. Then it forms the cartesian product of the slots and keeps the
phrases in which no word repeats. Those phrases are handed to a checksum stage,
which is not modelled.

Modules, one per component of `main.py`:

- `Common`: the `Result` type for operations that can raise. It also defines
  `Subsequence` and an exact `Prod` (the `numpy.prod` of the estimator), with
  arithmetic lemmas about `Prod`.
- `Dictionary`: `mnemonic_valid_check`, as the list of words it reports.
- `Slots`: `construct_list_apc`, as a method with nested loops (`ConstructSlots`)
  checked against the function `Compile`.
- `Candidates`: `itertools.product` over the slots (`Product`).
- `Estimate`: `combination_count`, as a loop that updates a map
  (`CombinationCount`). It is checked against the closed form
  `CountsWithoutRepetition`. `estimator` is the function `Estimator`.
- `Uniqueness`: the filtering loop of `unique_filter` (`UniqueFilter`), checked
  against `UniquePhrases`, and `repetition_filter` (`RepetitionFilter`).
- `Recovery`: the main block up to the checksum stage (`Recover`), with the
  end-to-end soundness and completeness lemma and worked examples.
- `DistinctCount`: what the estimate without repetition counts. It bounds the
  number of phrases the filter keeps, and equals it when no candidate word is
  listed twice.

Where the code raises, the model returns `Err`. This covers `IndexError` on an
empty word in `construct_list_apc`. It also covers `IndexError` on an empty slot
and `KeyError` on a hint letter that is not a key in `combination_count`. Each
error carries the first failing position or letter, matching where Python
stops. Hints and words are strings, as in the source. The hints and the
candidate word list are parameters; the source imports them from a
configuration module. `combination_count` reads the global `hints`; here the
hints are an explicit argument.

## Design and code

The system's design description differs from `main.py` in places. The model
follows the code:

- Hints. The design has exact-word, first-letter and unconstrained hints. The
  code has only strings: a hint of length 1 opens a slot and any other hint
  opens none (main.py:43). `combination_count` still looks every hint up as a
  key, and keys are one-character strings. So any hint of another length makes
  the estimator raise, and the script stops before filtering. It raises
  `KeyError` when that hint is looked up. It raises `IndexError` instead when
  some slot is empty, because `char_count` is built from every slot before any
  hint is looked up. `Estimate.OtherHintLengthFails` states this, and
  `Recovery.ExampleOtherHint` shows the `IndexError` case.
- Estimate without repetition. `combination_count` decrements a letter's pool
  once for every occurrence of the letter, so an entry can drop below zero.
  `Estimate.EstimateBounds` shows that the product still lies between 0 and
  the count with repetition. `DistinctCount.EstimateCountsKept` shows that it
  is never less than the number of phrases the filter keeps. It equals that
  number when no candidate word is listed twice. With a repeated word it can
  be larger (`DistinctCount.ExampleDuplicateWord`). The progress timer divides
  the phrases found so far by this estimate (main.py:95-96), so the bound keeps
  that ratio at most 1 whenever the estimate is positive. The estimate can be
  0 while the script still reaches the filter: two "a" hints over the single
  word ab give the entries 1 and 0, and the timer then divides 0 by 0
  (`Recovery.ExampleZeroEstimate`).
- Dictionary check. Point 1 of the module docstring (main.py:4) says every
  word of a phrase is in the BIP39 dictionary. `mnemonic_valid_check` only
  prints an error for a word it does not find (main.py:28-30); the script goes
  on. `Recover` does not read the dictionary, so a candidate word outside it can
  reach the phrases handed on.
- Phrases listed once. Point 2 of the module docstring (main.py:5) says each
  phrase appears once among the possibilities. The code promises this only
  when no candidate word is listed twice (`Recovery.RecoverOnce`). With a
  repeated word the product repeats phrases and the filter keeps every copy
  (`Recovery.ExampleRepeatedPhrase`).
- Empty slots. The design treats a letter that matches no word as a
  configuration error. The code raises `IndexError` at `word[0][0]` in
  `combination_count`, which the model reports as `EmptySlot`.
- The filter runs sequentially, as a single job submitted to the thread pool. No sharding is modelled.

## Model

| member | source | states |
|---|---|---|
| `Dictionary.Unrecognised` | main.py:24-32 | Every report is a checked word that is absent from the dictionary, and there are no more reports than checked words. The three rows below state exactly which words are reported, and in what order. |
| `Dictionary.UnrecognisedExactly` | main.py:28-32 | A word is reported once per occurrence when it is not in the dictionary, and never when it is. |
| `Dictionary.UnrecognisedInOrder` | main.py:28-32 | The reports follow the order of the checked list; the loop visits every word. |
| `Dictionary.AllRecognised` | main.py:24-32 | Nothing is reported exactly when every checked word is in the dictionary. |
| `Slots.ConstructSlots` | main.py:35-49 | The nested append loops return `Compile`: `EmptyWord` at the first empty word when some hint has length 1, otherwise one slot per single-letter hint. |
| `Slots.SlotsOfLetters` | main.py:41-49 | There is one slot per hint of length 1, in hint order; slot `i` is the slot of the `i`-th single-letter hint; other hints add none. |
| `Slots.SlotForExactly` | main.py:44-47 | A word occurs in slot `c` exactly as often as in the word list if it starts with `c`, and not at all otherwise. |
| `Slots.SlotForMembers` | main.py:45-47 | Every word of a slot starts with its letter, and every listed word starting with that letter is in the slot. |
| `Slots.SlotForInOrder` | main.py:44-47 | Each slot is a subsequence of the word list; relative order is kept. |
| `Slots.FirstEmpty` | main.py:45-46 | The reported index is that of an empty word, and no earlier word is empty. |
| `Candidates.Product` | main.py:79 | No contract of its own; `ProductMembers`, `ProductLength`, `ProductAt` and `ProductCount` below state its members, its size, its order and how often each phrase occurs. |
| `Candidates.ProductMembers` | main.py:79 | A phrase is in the product iff it has one word per slot and its `i`-th word is in slot `i`. |
| `Candidates.ProductLength` | main.py:79 | The product has as many phrases as the product of the slot sizes. |
| `Candidates.ProductAt` | main.py:79 | Lexicographic order: position `i * n + j` holds word `i` of the first slot followed by phrase `j` of the later slots. |
| `Candidates.ProductCount` | main.py:79 | A phrase occurs in the product as many times as it can be formed: the product, over its positions, of how often its word occurs in that slot. |
| `Candidates.ProductOnce` | main.py:79 | When no slot lists a word twice, no phrase occurs twice in the product. |
| `Estimate.CombinationCount` | main.py:52-62 | The loop over the hints, with its decremented `char_count` map, returns `CountsWithoutRepetition`: `EmptySlot` at the first bad slot, `MissingLetter` at the first hint that is not a key, otherwise for the `k`-th earlier occurrence of a letter its pool size minus `k`. |
| `Estimate.Pool` | main.py:58 | No contract of its own; `PoolLookup` below states its keys and values, and `CompiledPool` its values for single-letter hints. |
| `Estimate.PoolLookup` | main.py:58 | `char_count` has exactly the slots' first letters as keys, each mapped to the size of the last slot with that key. |
| `Estimate.FirstUnkeyed` | main.py:58 | The reported slot is empty or starts with an empty word, and all earlier slots are well formed. |
| `Estimate.FirstMissing` | main.py:59-60 | The reported hint is not a key, and all earlier hints are keys. |
| `Estimate.Estimator` | main.py:65-70 | The count with repetition equals the number of phrases the product at line 79 generates. |
| `Estimate.OtherHintLengthFails` | main.py:59-60 | A hint whose length is not 1 makes `combination_count` raise, even though `construct_list_apc` accepted it. |
| `Estimate.CompiledPool` | main.py:58-60 | For single-letter hints with non-empty slots, every hint is a key, and its pool size is the size of its own slot. |
| `Estimate.DrawsBounded` | main.py:59-61 | Drawing one fewer per repeated letter gives a product between 0 and the product of the pool sizes. |
| `Estimate.EstimateBounds` | main.py:65-70 | For single-letter hints, the estimate without repetition is computed iff every slot is non-empty, and then it lies between 0 and the estimate with repetition. |
| `Estimate.OccurrenceReached` | main.py:59-61 | A letter decremented past `m` was handed out with exactly `m` earlier occurrences at some step. |
| `Uniqueness.NoRepeatsMeansDistinct` | main.py:106 | `len(phrase) == len(set(phrase))` holds iff the words are pairwise distinct; the set is never larger than the phrase. |
| `Uniqueness.UniqueFilter` | main.py:101-110 | The filtering loop returns `UniquePhrases` of its input. |
| `Uniqueness.UniquePhrasesExactly` | main.py:105-107 | A phrase is kept as often as it occurs in the input when its words are pairwise distinct, and never otherwise. |
| `Uniqueness.UniquePhrasesMembers` | main.py:105-107 | The output holds exactly the input phrases with pairwise distinct words. |
| `Uniqueness.UniquePhrasesInOrder` | main.py:105-107 | The output is an in-order subsequence of the input. |
| `Uniqueness.RepetitionFilter` | main.py:73-115 | `repetition_filter` returns the phrases of the cartesian product with no repeated word, in product order. |
| `Recovery.Recover` | main.py:118-124 | When the script reaches the filter, slot compilation succeeded, and the phrases handed on are an in-order subsequence of the generated product. `RecoverFinds`, `RecoverSucceeds` and `DistinctCount.EstimateCountsKept` state the rest. |
| `Recovery.RecoverFinds` | main.py:118-124 | When the script reaches the filter, it hands on exactly the phrases that take one listed word per single-letter hint, each starting with its letter, with no word repeated. |
| `Recovery.RecoverSucceeds` | main.py:119-124 | With single-letter hints and no empty word, the script reaches the filter iff every hint letter starts some listed word. |
| `Recovery.ExampleEstimates` | main.py:65-70 | Two "a" hints and one "b" over apple, ant, bear estimate 4 phrases with repetition and 2 without. |
| `Recovery.ExampleRecover` | main.py:118-124 | The same case hands on (apple, ant, bear) and (ant, apple, bear), in that order. |
| `Recovery.RecoverOnce` | main.py:5 | When no candidate word is listed twice, every phrase occurs at most once among the possibilities, and at most once among the phrases handed on. |
| `Recovery.ExampleRepeatedPhrase` | main.py:79 | With ab listed twice, hints "a", "b" over ab, ab, bc reach the filter and hand on (ab, bc) twice. |
| `Recovery.ExampleZeroEstimate` | main.py:65-70 | Two "a" hints over the single word ab reach the filter with an estimate of 0 phrases without repetition. |
| `Recovery.ExampleOtherHint` | main.py:58-60 | Hints "a", "xx", "b" over the single word apple raise `IndexError` at the empty second slot, before the "xx" lookup. |
| `DistinctCount.DistinctBound` | main.py:57-61 | Over the slots of a sequence of letters, the phrases with no repeated word are at most the product of the entries. Each entry is the number of words starting with the letter, less its earlier occurrences, and is raised to 0 if negative. The bound is exact when no word is listed twice. |
| `DistinctCount.EstimateCountsKept` | main.py:52-70 | When the script reaches the filter with single-letter hints, the estimate without repetition is computed and is at least the number of phrases handed on. It is exactly that number when no candidate word is listed twice. |
| `DistinctCount.ExampleDuplicateWord` | main.py:65-70 | With the word ab listed twice, two "a" hints estimate 2 phrases without repetition, yet none is handed on. |

## Left out

- Reading `dictdata/english.txt` (main.py:20-21). This is file I/O; the dictionary is a parameter. `split("\n")[:-1]` drops the last entry whatever it is. That is the empty entry after a final newline, or the last word when the file does not end in a newline.
- The `words_hints` import (main.py:18). This is configuration; `hints` and the candidate words are parameters.
- All `print` output in `mnemonic_valid_check`, `estimator`, `repetition_filter` and the main block. The model keeps only the words, numbers and phrases behind it.
- The progress `timer` thread, the `is_filtering` flag, `Thread`/`join` and the `ThreadPoolExecutor` (main.py:87-104, 108-115). These are concurrency, wall-clock time, `time.sleep` and floating-point rates; the filter is modelled as the sequential loop it runs.
- `checksum_validator` and `derive_address` (checker.py:15-60). These are the BIP39 checksum from `btclib`, BIP32 derivation from `bip32utils`, and network lookups through `blockcypher`; they are foreign code and network calls. The model stops at the phrases handed to the checksum stage.
- Estimate.Estimator: does not model `numpy.prod`'s 64-bit wrap-around or its float result `1.0` for an empty list, because products are exact unbounded integers here.
- Point 2 of the module docstring (main.py:5), each phrase listed once, is not enforced by the code when a candidate word is listed twice. The model keeps the code's behaviour: `Recovery.RecoverOnce` proves the promise under that condition, and `Recovery.ExampleRepeatedPhrase` shows the repeated phrase without it.
- Point 1 of the module docstring (main.py:4), every word in the dictionary, is not enforced: `mnemonic_valid_check` only prints, and `Recover` does not consult the dictionary.
- Phrases are sequences; that `itertools.product` yields tuples rather than lists is not modelled. The list comprehension at main.py:79 materialises the product, and the model does the same.
