# Greedy Wordle opener selection, modelled and verified in Dafny

The program reads a word list and picks three opening guesses for a Wordle-style game.

1. Letter costs: every character is counted over all words, and each count is divided by 26.
2. The first word is the unique-letter word (no repeated character) with the highest tie-broken score. Its score is its letter cost plus `starting[first]/26 + ending[last]/26`. Here `starting` and `ending` count the first and last letters of all words.
3. The second and third words are chosen by `process_next_choice`. It drops every candidate that contains a letter of the words chosen so far, ranks the survivors by letter cost, and takes the first.

Python dictionaries keep insertion order, and the sorts are stable. So every "take the first key of the sorted dict" is an argmax, with ties going to the earliest entry.

The model keeps the program's structure:

- The loops that fill dictionaries and lists become Dafny methods with `while` loops. Each is proved equal to a closed-form function: `Tally`, `LetterCosts`, `WordCosts`, `TieBroken`, `Filter`, `Survivors`, `NextChoice`, `Selection`.
- The lemmas then state, about those functions, what the program promises.

Modules, in dependency order:

- `Wrappers`: `Option` and `Result`.
- `Seqs`: distinctness, first-occurrence order, stable filtering, relative order, and `list.remove`.
- `Dicts`: an ordered dict is a key sequence beside a map. `Put` models `d[k] = v`. The counting step and `Tally` model a counting dict or `Counter`.
- `LetterStats`: `frequency_of_letters`, `cost_of_letters`, `starting_frequency`, `ending_frequency`.
- `Uniqueness`: `isUniqueChars`, `words_with_unique_letters`.
- `Scoring`: `cost_of_words`, `break_ties`.
- `Sorting`: `sort_dict` and the two inline re-sorts of `main`, modelled as a stable descending insertion sort.
- `Selector`: `process_next_choice`.
- `Pipeline`: the selection body of `main`.

Modelling choices:

- **Constant 26.** `main` passes the literal 26 to `cost_of_letters`, and `break_ties` divides by the literal 26. Both are the one constant `Scoring.AlphabetSize`.
- **Exact scores.** Scores are exact `real`s.
- **Crashes become errors.** The ways the program crashes become `Failure` values of `Pipeline.Selection`:
  - an empty word makes `word[0]` fail in `starting_frequency`;
  - an empty sorted dict before pick 1, 2 or 3 makes `list(...)[0]` fail.
- **Disjoint picks.** The three picks are pairwise letter-disjoint, because picks 2 and 3 come only from candidates that share no letter with earlier picks (`Pipeline.SelectionPicks`).

## Model

| member | source | states |
|---|---|---|
| `Dicts.Put` | src/screeningWords.py:54-57 | defined as Python's `d[k] = v`: a new key is appended to the key order, an existing key keeps its place, and the key's value becomes `v` |
| `Dicts.PutValid` | src/screeningWords.py:54-57 | `d[k] = v` keeps a dict well formed: every key listed once, and the listed keys are exactly the map's keys |
| `Dicts.Bump` | src/screeningWords.py:54-57 | defined as one step of a counting loop (also lines 124-127 and 139-142): a letter not yet in the dict is put with count 1, otherwise its count is put one higher |
| `Dicts.Tally` | src/screeningWords.py:45-58 | defined as the counting dict of a sequence, which is what both the counting loops and `Counter` build: its distinct elements in order of first occurrence, each mapped to its number of occurrences |
| `Dicts.TallySnoc` | src/screeningWords.py:54-57 | counting one more letter is one step of the counting update: a new letter gets count 1 and is appended to the key order; a known letter's count goes up by one and it keeps its place |
| `Dicts.TallySum` | src/screeningWords.py:45-58 | a counting dict is well formed and its counts add up to the number of letters counted |
| `LetterStats.FrequencyOfLetters` | src/screeningWords.py:45-58 | the outer loop builds exactly the counting dict of all letters of all words, keys in order of first occurrence |
| `LetterStats.CountLetters` | src/screeningWords.py:53-57 | the inner loop, started on the counts of the letters seen so far, leaves the counts of those letters followed by the word's letters |
| `LetterStats.FrequencyFacts` | src/screeningWords.py:45-58 | the keys are exactly the characters occurring in some word; each count is the number of occurrences over all words and positions; the counts sum to the total length of all words |
| `LetterStats.LetterCosts` | src/screeningWords.py:60-71 | defined as the counts' keys in their order, each mapped to its count divided by `total`; division by zero is excluded only when there is a count to divide |
| `LetterStats.CostOfLetters` | src/screeningWords.py:60-71 | the loop builds exactly the dict of each count divided by the caller's total; division by zero is excluded only when there is a count to divide |
| `LetterStats.LetterCostsFacts` | src/screeningWords.py:60-71 | the costs have the same keys in the same order as the counts, and `cost[c] = count[c] / total` |
| `LetterStats.LetterCostsSum` | src/screeningWords.py:60-71 | the costs add up to the total count divided by `total` |
| `LetterStats.StartingFrequency` | src/screeningWords.py:115-128 | for non-empty words, the loop builds exactly the counting dict of the first letters |
| `LetterStats.EndingFrequency` | src/screeningWords.py:130-143 | for non-empty words, the loop builds exactly the counting dict of the last letters |
| `LetterStats.StartingFacts` | src/screeningWords.py:115-128 | the keys are exactly the first letters of the words; each count is that letter's number of occurrences among the first letters; the counts sum to the number of words |
| `LetterStats.EndingFacts` | src/screeningWords.py:130-143 | the same for the last letters |
| `Uniqueness.IsUniqueChars` | src/screeningWords.py:74-86 | defined as the source's test: the counting dict of the word has as many keys as the word has characters |
| `Uniqueness.IsUniqueCharsIff` | src/screeningWords.py:74-86 | the `Counter` length test holds exactly when no character occurs twice in the word |
| `Uniqueness.UniqueWords` | src/screeningWords.py:88-98 | every kept word is a word of the list that passes the test |
| `Uniqueness.WordsWithUniqueLetters` | src/screeningWords.py:88-98 | the loop keeps exactly the passing words, in order |
| `Uniqueness.UniqueWordsFacts` | src/screeningWords.py:88-98 | the result is a subsequence of the input; it holds exactly the input words without a repeated character, each as many times as in the input |
| `Scoring.WordCost` | src/screeningWords.py:108-112 | defined as the sum of the costs of a word's letters, one term per occurrence, added left to right as the inner loop does |
| `Scoring.WordCosts` | src/screeningWords.py:100-113 | defined as `cost_of_words`' result: the listed words in order of first occurrence, each mapped to its `WordCost` |
| `Scoring.WordCostConcat` | src/screeningWords.py:108-112 | a word's cost is additive: the cost of two pieces together is the sum of their costs |
| `Scoring.WordCostsFacts` | src/screeningWords.py:100-113 | the word-cost dict is well formed; its keys are exactly the listed words; each value is the sum of the letter costs over every letter occurrence of the word |
| `Scoring.CostOfWords` | src/screeningWords.py:100-113 | the nested loops build exactly that dict, for every input in which each letter has a cost |
| `Scoring.Bonus` | src/screeningWords.py:156-157 | defined as the first letter's start count divided by 26 plus the last letter's end count divided by 26 |
| `Scoring.TieBroken` | src/screeningWords.py:145-159 | defined as the dict `break_ties` builds: each key of the input, in its order, put with its old score plus its `Bonus` |
| `Scoring.BreakTies` | src/screeningWords.py:145-159 | the loop builds exactly the tie-broken dict |
| `Scoring.TieBrokenPrefixFacts` | src/screeningWords.py:153-158 | after `n` iterations the dict lists exactly the first `n` words, in order, and its map has exactly those words as keys |
| `Scoring.TieBrokenPrefixAt` | src/screeningWords.py:153-158 | after `n` iterations each of the first `n` words has its old score plus its bonus |
| `Scoring.TieBrokenScores` | src/screeningWords.py:145-159 | the result has the same keys in the same order as the input; each new score is the old score plus `starting[w[0]]/26 + ending[w[-1]]/26` |
| `Scoring.TieBrokenAt` | src/screeningWords.py:153-158 | one word of the input gets its old score plus its first/last letter bonus |
| `Scoring.TieBrokenCosts` | src/screeningWords.py:145-159 | on a dict holding the letter costs of a pool, each pool word's new score is its letter cost plus its bonus |
| `Scoring.TieBrokenRaises` | src/screeningWords.py:145-159 | when every first-letter count is at least one, every score strictly increases |
| `Sorting.InsertPos` | src/screeningWords.py:191 | the insertion point passes every word scoring at least as much and stops before the first word scoring less |
| `Sorting.SortDesc` | src/screeningWords.py:191 | the sorted list is a permutation of the input |
| `Sorting.InsertSorted` | src/screeningWords.py:191 | inserting at the insertion point keeps a descending list descending |
| `Sorting.SortDescSorted` | src/screeningWords.py:191 | the sorted list is in descending order of score |
| `Sorting.SortDescStable` | src/screeningWords.py:191 | two distinct words of equal score keep their input order |
| `Sorting.SortDescHead` | src/screeningWords.py:191 | the head of the sorted list has maximal score, and comes no later in the input than any word of equal score |
| `Sorting.SortDescHeadAt` | src/screeningWords.py:191 | the head of the sorted list measured against one input word: it scores at least as much, and on equal scores it comes no later |
| `Sorting.SortDict` | src/screeningWords.py:185-192 | the sorted dict has the same entries and a permutation of the keys |
| `Sorting.SortDictFacts` | src/screeningWords.py:185-192 | the sorted dict is well formed, has the same keys, is in descending order of value, and keeps keys of equal value in their old relative order (both directions) |
| `Sorting.SortDictHead` | src/screeningWords.py:185-192 | the first key after sorting has maximal value, and no key of that value came before it |
| `Sorting.Top` | src/screeningWords.py:213 | defined as `list(sort_dict(d).keys())[0]` (also line 181), with `None` where the source raises `IndexError` on an empty dict |
| `Sorting.TopBest` | src/screeningWords.py:213 | the first key of the sorted dict exists exactly when the dict is not empty; it is a key of maximal value and the earliest key of that value |
| `Sorting.TopAt` | src/screeningWords.py:213 | the same facts measured at one position of the dict |
| `Selector.Survivors` | src/screeningWords.py:173-178 | every survivor is a candidate with none of the chosen letters |
| `Selector.SurvivorsFacts` | src/screeningWords.py:173-178 | the survivors are a subsequence of the candidates; they are exactly the candidates sharing no letter with any chosen word, each as often as in the pool |
| `Selector.Ranking` | src/screeningWords.py:179-180 | the ranked dict is well formed; its keys are exactly the survivors; each value is the survivor's letter cost |
| `Selector.RankingFacts` | src/screeningWords.py:179-180 | the ranking is in descending order of cost; words of equal cost keep their first-occurrence order (both directions) |
| `Selector.RankingHead` | src/screeningWords.py:179-181 | the ranking is empty exactly when there are no survivors; otherwise its head is a survivor of maximal cost and the earliest such |
| `Selector.NextChoice` | src/screeningWords.py:161-181 | defined as the first key of the ranking of the pool words that share no letter with the chosen words, with `None` where the source raises `IndexError` |
| `Selector.NextChoiceInPool` | src/screeningWords.py:161-181 | the next choice is a word of the pool |
| `Selector.NextChoiceBest` | src/screeningWords.py:161-181 | there is no next choice exactly when no candidate survives; otherwise it shares no letter with any chosen word, has maximal letter cost among the survivors, and is the earliest of them in the pool when costs tie |
| `Selector.NextChoiceBestAt` | src/screeningWords.py:179-181 | the same bound and tie-break for one surviving candidate |
| `Selector.NextChoiceDropShared` | src/screeningWords.py:218-224 | removing from the pool a word that shares a letter with the chosen words does not change the next choice |
| `Selector.DropOne` | src/screeningWords.py:176-178 | removing one copy of a word that holds a chosen letter keeps the survivors and every other word, and leaves one copy fewer of that word |
| `Selector.DropSharing` | src/screeningWords.py:175-178 | the inner loop removes copies of one word only; the survivors are unchanged; a word with a chosen letter loses a copy or is already gone |
| `Selector.Eliminate` | src/screeningWords.py:173-178 | the elimination loops leave exactly the survivors, in order |
| `Selector.ProcessNextChoice` | src/screeningWords.py:161-181 | the method returns exactly the next choice, or nothing where the source fails on an empty dict |
| `Seqs.RemoveFirst` | src/screeningWords.py:218-223 | `list.remove` deletes exactly the first occurrence: the multiset loses one copy and the rest keeps its order |
| `Pipeline.Costs` | src/screeningWords.py:201-202 | the letter costs of `main` are a well-formed dict covering every letter of the list |
| `Pipeline.BoundaryLetters` | src/screeningWords.py:156-157 | every word's first and last letters have counts, so `break_ties` finds them |
| `Pipeline.Composite` | src/screeningWords.py:205-209 | the tie-broken dict keeps the letter-cost ranking's order and gives every unique-letter word its tie-broken score |
| `Pipeline.CompositeScores` | src/screeningWords.py:205-209 | `break_ties` receives a well-formed dict whose words have counted ends, and produces the tie-broken scores |
| `Pipeline.CompositeRaises` | src/screeningWords.py:209 | with the first-letter counts of `main`, every unique-letter word's score is strictly raised |
| `Pipeline.FirstChoice` | src/screeningWords.py:205-213 | defined as the top key of the tie-broken ranking of the unique-letter words, or `None` when there is none |
| `Pipeline.FirstChoiceInPool` | src/screeningWords.py:213-218 | the first pick is in the unique-letter pool, so the removal on line 218 finds it |
| `Pipeline.FirstChoiceAt` | src/screeningWords.py:205-213 | for one unique-letter word: the first pick's score is at least as high; on a score tie its letter cost is at least as high; on a double tie it is the earlier word |
| `Pipeline.FirstChoiceBest` | src/screeningWords.py:205-213 | there is no first pick exactly when no word has unique letters; otherwise it is a unique-letter word of the list maximizing the tie-broken score, then the letter cost, then earliest position |
| `Pipeline.ThirdPick` | src/screeningWords.py:222-225 | defined as: remove the second pick from the pool, choose again against both earlier picks, and return the three picks or fail with `Insufficient(2)` |
| `Pipeline.LaterPicks` | src/screeningWords.py:217-225 | defined as: remove the first pick from the unique-letter pool, choose the second pick or fail with `Insufficient(1)`, then `ThirdPick` |
| `Pipeline.Selection` | src/screeningWords.py:201-225 | defined as `main`'s selection: `EmptyWord` when some word is empty, `Insufficient(0)` when there is no first pick, and otherwise `LaterPicks` |
| `Pipeline.SecondChoice` | src/screeningWords.py:217-219 | defined as the next choice after the first pick over the whole unique-letter pool, without the removal of line 218 (`Pipeline.SelectionChoices` shows the removal changes nothing) |
| `Pipeline.ThirdChoice` | src/screeningWords.py:222-224 | defined as the next choice after the first two picks over the whole unique-letter pool, without the removals of lines 218 and 223 |
| `Pipeline.NextChoiceAt` | src/screeningWords.py:219-224 | a later pick measured against one unique-letter word of the list that avoids the chosen letters |
| `Pipeline.NextChoiceFromList` | src/screeningWords.py:219-224 | a later pick exists exactly when some unique-letter word avoids all chosen letters; it is such a word, of maximal letter cost, and the earliest in the list on ties |
| `Pipeline.SelectionChoices` | src/screeningWords.py:217-225 | the removals on lines 218 and 223 do not change any pick: the selection is the three choices made over the whole unique-letter pool, or the first missing one's error |
| `Pipeline.SelectionErrors` | src/screeningWords.py:201-219 | the selection fails with an empty word exactly when the list has one; fails before pick 1 exactly when no word has unique letters; fails before pick 2 exactly when every unique-letter word shares a letter with the first pick |
| `Pipeline.SelectionErrorThird` | src/screeningWords.py:222-225 | the selection fails before pick 3 exactly when every unique-letter word shares a letter with the first or the second pick |
| `Pipeline.SelectionPicks` | src/screeningWords.py:213-225 | three picks are the first, second and third choices; each is a non-empty word of the input without a repeated letter; they are pairwise letter-disjoint |
| `Pipeline.NoDisjointTripleFails` | src/screeningWords.py:213-225 | when no three non-empty unique-letter words of the list are pairwise letter-disjoint, the selection fails |
| `Pipeline.FirstPick` | src/screeningWords.py:201-213 | the statistics, ranking, tie-breaking and re-sort give the first pick, an empty-word failure or a no-candidate failure; it hands back the letter costs and the unique-letter pool |
| `Pipeline.PickThird` | src/screeningWords.py:222-225 | removing the second pick and choosing again gives the third pick, or the failure before pick 3 |
| `Pipeline.PickTwoMore` | src/screeningWords.py:214-225 | the two later picks, each after removing the previous pick from the pool |
| `Pipeline.SelectTopThree` | src/screeningWords.py:201-225 | `main`'s selection body returns exactly the selection |

## Left out

- `read_file` (src/screeningWords.py:17-30) is file I/O, so the word list is a parameter. Its `line[:-1]` always drops the last character of each line, even a final line without a newline. That is a loader quirk and is not modelled.
- `parse_args` (src/screeningWords.py:33-42) is command-line plumbing.
- The `print` reporting (src/screeningWords.py:227-232) is output only.
- The imports of `pandas`, `matplotlib`, `numpy`, `math` and `warnings` are unused.
- Scores are exact reals. IEEE floating-point rounding of the summed costs, which could break or create a tie differently, is not modelled.
- Python's `Counter` and `sorted` are specified by their results. `Counter` is the counting dict `Dicts.Tally`. `sorted(..., reverse=True)` is a stable descending insertion sort.
- Seqs.RemoveFirst: returns a list without the element unchanged, where Python's `list.remove` raises `ValueError`. This case never arises in `main`, because each removed pick is in the pool (`Pipeline.FirstChoiceInPool`, `Selector.NextChoiceInPool`).
- `cost_of_words` raises a `KeyError` for a letter without a cost, and `break_ties` raises one for a word whose end letters have no count. These failures are preconditions of `Scoring.CostOfWords` and `Scoring.BreakTies`. `main` always meets them (`Pipeline.Costs`, `Pipeline.BoundaryLetters`), so they are not error values.
- Pipeline.NoDisjointTripleFails: states only one direction. The greedy choice can fail even when three pairwise-disjoint unique-letter words exist, since an early pick can block them. So success is not promised whenever such a triple exists. What is proved is that success yields such a triple (`Pipeline.SelectionPicks`) and that the absence of one forces failure.
