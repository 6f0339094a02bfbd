# Wordle solver agents, modelled in Dafny

This project models the core of an English/Arabic Wordle solver. It has four agents, each holding a
pool of candidate words that it narrows after every guess:

- **constraint satisfaction (CSP):** keeps the words that would have produced the observed feedback;
- **entropy:** guesses the word whose feedback histogram over the remaining answers has the largest
  Shannon entropy;
- **Bayesian:** weighs each candidate by a likelihood that decays exponentially with the number of
  tiles on which its predicted feedback differs from the observed one, then filters and renormalises;
- **letter frequency:** guesses a word whose distinct letters are most frequent in the pool, and
  filters the pool with a simplified per-tile test.

It also models the helpers that prepare the word lists: stripping ASCII characters and Arabic
diacritics (tashkeel), the Latin-letter gate in front of the English dictionary lookup, and the
merge of new Arabic words into the sorted word list.

The module layout:

- **Feedback engine (`feedback_engine.dfy`):** one declarative definition of the tile feedback,
  `FeedbackEngine.Feedback`. A position is green when the letters agree. Otherwise it is yellow when
  fewer earlier unmatched occurrences of its letter in the guess have claimed the secret's unmatched
  occurrences than there are, and grey otherwise.
- **The three feedback implementations:** the CSP agent's, the entropy agent's and the Bayesian
  agent's are each written as the loops of the source. Each is proved equal to `Feedback`, and
  `Agreement.FeedbackAgrees` puts the three side by side.
- **Agent classes:** one class per agent, with the fields the source updates in place (`candidates`,
  `previous_guesses`, `probabilities`, `entropy_cache`). Their `update` and `get_guess` methods are
  proved against specification functions (`Filter`, `Histogram`, `EntropyTable`, `Posterior`,
  `Kept`, `Normalized`, `MaxScore`). The properties the source promises are proved about those
  functions.
- **Python dicts:** modelled as association lists (`Dicts.Dict`) because insertion order matters. The
  Bayesian candidates are the dict's keys in order, and `max` breaks ties by position.
- **Randomness, files and the network:** `random.choice` is a nondeterministic choice from the list.
  Cache files and the dictionary lookup are parameters. `math.log2` is a parameter of type
  `real -> real`, and `math.exp(-n)` is `1 / e^n` over exact reals.

## Model

| member | source | states |
|---|---|---|
| FeedbackEngine.FeedbackShape | agents/CSP_agent.py:62-99 | the feedback has one of green/yellow/grey per guess letter, green exactly where guess and secret agree |
| FeedbackEngine.LetterAccounting | agents/entropy_agent.py:98-117 | repeated letters are counted once per occurrence: green plus yellow tiles on a letter equal the smaller of its counts in guess and secret |
| FeedbackEngine.YellowTiles | agents/CSP_agent.py:90-97 | unmatched guess occurrences of a letter take the secret's unmatched occurrences first come first served: yellows = min(unmatched in guess, unmatched in secret) |
| FeedbackEngine.AllGreenIffSolved | agents/CSP_agent.py:83-88 | for equal lengths, the feedback is all green if and only if the guess is the secret |
| FeedbackEngine.TraceAgainstCrane | agents/CSP_agent.py:62-99 | "trace" against "crane" gives grey, green, green, yellow, green |
| FeedbackEngine.NullFirstCount | agents/CSP_agent.py:97 | `l[l.index(x)] = None` removes exactly one x when present and leaves every other letter's count |
| FeedbackEngine.CopyAfterCount | agents/CSP_agent.py:81-97 | the nulled copy of the secret holds each letter exactly as often as it is still unclaimed |
| FeedbackEngine.CopyAfterTile | agents/CSP_agent.py:94-97 | an unmatched position is yellow exactly when its letter is still in the copy |
| FeedbackEngine.MarksAfterAt | agents/CSP_agent.py:84-97 | after i steps of the second pass the positions below i carry their final tile, the rest still show the first pass |
| FeedbackEngine.PendingMarksAt | agents/bayesian_agent.py:159-177 | with marks started at None, after i steps positions below i hold their final tile, the rest green-if-matched or None |
| FeedbackEngine.GreensMarkedAt | agents/bayesian_agent.py:163-167 | the first pass marks exactly the matched positions below i green |
| FeedbackEngine.UnmatchedAfterGreens | agents/entropy_agent.py:104-108 | taking the greens off the answer's letter counts leaves the unmatched counts |
| FeedbackEngine.TileByRemaining | agents/entropy_agent.py:111-117 | an unmatched position is yellow exactly when an unclaimed occurrence of its letter remains |
| Dicts.FromKeysProperties | agents/bayesian_agent.py:44 | a dict comprehension over a list has its distinct keys in first-occurrence order, each mapped by the expression |
| Dicts.FilterDistinctKeys | agents/bayesian_agent.py:99 | filtering a dict's items keeps its keys distinct |
| Dicts.FilterKeysSubsequence | agents/bayesian_agent.py:99 | filtering a dict's items keeps an ordered selection of its keys |
| Agents.WordsFor | agents/base_agent.py:31-36 | language "en" selects the English list; every other language, "ar" or not, selects the Arabic list |
| Csp.IsConsistent | agents/CSP_agent.py:53-60 | a consistent feedback has five marks, green exactly where candidate and guess agree |
| Csp.SurvivorsExactly | agents/CSP_agent.py:50 | update keeps exactly the consistent, not yet guessed pool words, in order, and never grows the pool |
| Csp.SecretSurvives | agents/CSP_agent.py:53-60 | the true secret, pooled and not yet guessed, survives an update with its own feedback |
| Csp.CspAgent.constructor | agents/CSP_agent.py:20-25 | a new agent holds its language's word list and no guesses |
| Csp.CspAgent.Reset | agents/CSP_agent.py:27-33 | the pool is the language's word list again and the guesses are cleared |
| Csp.CspAgent.GetGuess | agents/CSP_agent.py:35-43 | None exactly for an empty pool, otherwise a pool word; the result is recorded either way |
| Csp.CspAgent.Update | agents/CSP_agent.py:45-50 | the new pool is the old one filtered by consistency and not having been guessed |
| Csp.CspAgent.GetFeedback | agents/CSP_agent.py:62-99 | the two passes compute the reference feedback of the first five guess letters |
| Entropy.LetterCounts | agents/entropy_agent.py:100-102 | the frequency dict maps exactly the answer's letters to their numbers of occurrences |
| Entropy.MarkGreens | agents/entropy_agent.py:104-108 | the first pass marks the matched positions green and takes each green's letter off the count |
| Entropy.MarkRest | agents/entropy_agent.py:110-117 | the second pass fills every open position with its final yellow or grey tile |
| Entropy.FreqAfterNext | agents/entropy_agent.py:113-115 | a yellow takes its letter's positive count down by one and nothing else changes |
| Entropy.CountsBounded | agents/entropy_agent.py:104-117 | in the first pass each letter count stays between 0 and the answer's count of that letter; the second pass only lowers the counts the first pass left |
| Entropy.ComputeFeedback | agents/entropy_agent.py:84-118 | compute_feedback returns the reference feedback |
| Entropy.HistogramCounts | agents/entropy_agent.py:64-67 | each feedback is counted once per answer producing it; an absent feedback reads 0 |
| Entropy.HistogramKeys | agents/entropy_agent.py:64-67 | the histogram's keys are distinct and are exactly the feedbacks some answer produces |
| Entropy.HistogramTotal | agents/entropy_agent.py:64-67 | the histogram's counts add up to the number of answers |
| Entropy.HistogramSingle | agents/entropy_agent.py:131-134 | a guess every answer gives the same feedback has a one-bar histogram |
| Entropy.FeedbackCounts | agents/entropy_agent.py:131-134 | the counting loop builds the histogram |
| Entropy.EntropyNonNegative | agents/entropy_agent.py:135-138 | with a logarithm not positive on (0, 1], the entropy of counts within the total is not negative |
| Entropy.HistogramBar | agents/entropy_agent.py:131-137 | every count in `feedback_counts` is at least 1 and at most the number of candidates, so each `p` lies in (0, 1] |
| Entropy.ScoreNonNegative | agents/entropy_agent.py:130-139 | with a logarithm not positive on (0, 1], the entropy the agent computes for any guess is not negative |
| Entropy.NoInformation | agents/entropy_agent.py:70-73 | a guess that every answer answers alike has entropy 0 |
| Entropy.EntropyOfCounts | agents/entropy_agent.py:135-138 | the accumulation loop computes the entropy sum |
| Entropy.EntropyTableScores | agents/entropy_agent.py:128-140 | the entropy table holds each guess word once, with its score over the answers |
| Entropy.ComputeEntropies | agents/entropy_agent.py:120-140 | the nested loops build the entropy table, one histogram and one entropy per guess word |
| Entropy.MaxIndex | agents/entropy_agent.py:156 | max settles on a position of largest score that no earlier position reaches |
| Entropy.MaxBy | agents/entropy_agent.py:159 | max(words, key) raises ValueError exactly for no words; otherwise the first word of largest score |
| Entropy.ExplicitCacheNameFails | agents/entropy_agent.py:24-30 | as written a given cache name is never stored, so construction raises AttributeError; corrected, the name is used |
| Entropy.CacheFileChoice | agents/entropy_agent.py:24-30 | the corrected choice fails, with ValueError, only for no name and a language other than en/ar, and agrees with the code when no name is given |
| Entropy.UpdateKeeps | agents/entropy_agent.py:173-179 | update keeps exactly the unguessed pool words with the observed feedback, in order |
| Entropy.EntropyAgent.constructor | agents/entropy_agent.py:10-38 | the language's words, a fresh game, and the cache loaded or computed over every word |
| Entropy.EntropyAgent.Reset | agents/entropy_agent.py:40-46 | the pool is every word again, no guesses |
| Entropy.EntropyAgent.LoadOrComputeEntropyCache | agents/entropy_agent.py:49-80 | the cache is the stored one when the file exists, else the entropy table over every word |
| Entropy.EntropyAgent.GetGuess | agents/entropy_agent.py:142-162 | the single candidate unrecorded; else the first max-entropy word, from the cache while the pool holds every word and recomputed over the pool otherwise, recorded |
| Entropy.EntropyAgent.Update | agents/entropy_agent.py:164-181 | the new pool is the unguessed pool words whose computed feedback is the observed one |
| Entropy.NewEntropyAgent | agents/entropy_agent.py:24-30 | construction fails with ValueError exactly for a language with no default file and no given name |
| Bayesian.ComputeFeedback | agents/bayesian_agent.py:143-179 | compute_feedback(candidate, guess) returns the reference feedback of the guess against the candidate |
| Bayesian.LikelihoodDecays | agents/bayesian_agent.py:137-140 | exp(-0) is 1, every likelihood lies in (0, 1], and each further mismatch makes it strictly smaller |
| Bayesian.MismatchesZeroIff | agents/bayesian_agent.py:131-135 | the error count is at most the zipped length, and 0 exactly when equal-length feedbacks agree |
| Bayesian.ErrorCount | agents/bayesian_agent.py:132-135 | the loop counts the differing positions of the zip |
| Bayesian.LikelihoodOf | agents/bayesian_agent.py:106-141 | likelihood is exp(-number of tiles where the predicted feedback differs) |
| Bayesian.LikelihoodOneIff | agents/bayesian_agent.py:128-140 | against five observed tiles, the likelihood is 1 exactly when the candidate predicts that feedback |
| Bayesian.MaxValue | agents/bayesian_agent.py:67 | max(values, default=0) is 0 for no values, else a value no smaller than any other |
| Bayesian.BestIff | agents/bayesian_agent.py:66-70 | best_candidates are exactly the words of maximal weight, and there is one when the dict is not empty |
| Bayesian.NormalizedDistribution | agents/bayesian_agent.py:47-55 | normalising positive weights gives positive values summing to 1 |
| Bayesian.UniformPrior | agents/bayesian_agent.py:41-45 | for any word list, the empty one included, reset gives every distinct word the same probability, one over their number, in first-seen order |
| Bayesian.SecretKept | agents/bayesian_agent.py:81-102 | the secret, a candidate never guessed with weight above the threshold, survives an update with its own feedback |
| Bayesian.PosteriorEntries | agents/bayesian_agent.py:93-96 | new_probabilities has distinct keys, each entry a candidate with its prior weight times its likelihood |
| Bayesian.KeptKeys | agents/bayesian_agent.py:93-102 | the words an update keeps are exactly the candidates never guessed whose weight is above 1e-8, as an ordered selection of the distinct candidates, so the pool never grows |
| Bayesian.UpdateDistribution | agents/bayesian_agent.py:93-100 | after an update that keeps a word, the weights sum to 1 over distinct words |
| Bayesian.PosteriorOf | agents/bayesian_agent.py:93-96 | the loop weighs every candidate by prior times likelihood |
| Bayesian.BayesianAgent.constructor | agents/bayesian_agent.py:22-33 | the language's words, uniformly weighted and normalised, no guesses |
| Bayesian.BayesianAgent.Reset | agents/bayesian_agent.py:35-45 | the language's word list, each word weighted 1.0 and then normalised, and the candidates are the weighted words |
| Bayesian.BayesianAgent.NormalizeProbabilities | agents/bayesian_agent.py:47-55 | each weight divided by the total when that is positive, the dict untouched otherwise |
| Bayesian.BayesianAgent.GetGuess | agents/bayesian_agent.py:57-79 | IndexError exactly for no candidates; otherwise a candidate, of maximal weight unless all tie, recorded |
| Bayesian.BayesianAgent.Update | agents/bayesian_agent.py:81-102 | the weights become the normalised, filtered posterior and the candidates its keys |
| Frequency.OccurrencesPositive | agents/frequency_agent.py:62-65 | a letter is counted exactly when some pool word holds it |
| Frequency.LetterFrequency | agents/frequency_agent.py:62-65 | the frequency dict maps exactly the pool's letters to their total occurrences |
| Frequency.ScoreByLetterSet | agents/frequency_agent.py:73 | scores count each distinct letter once: words with the same letters score alike |
| Frequency.ScoreAgainstPool | agents/frequency_agent.py:62-73 | scoring with the built dict is scoring against the pool's letter occurrences |
| Frequency.MaxScore | agents/frequency_agent.py:68-80 | best_score is -1 exactly for no words, else the largest score, attained by some word |
| Frequency.BestCandidates | agents/frequency_agent.py:68-80 | the scoring loop collects the words of maximal score |
| Frequency.BestCandidatesExactly | agents/frequency_agent.py:68-80 | best_candidates are exactly the pool words of maximal score, in order, and not empty for a non-empty pool |
| Frequency.MatchesIff | agents/frequency_agent.py:120-132 | match_feedback holds exactly when every zipped position meets its tile's rule |
| Frequency.MatchFeedback | agents/frequency_agent.py:100-132 | the early-return loop computes that test |
| Frequency.DistinctGrey | agents/frequency_agent.py:128-131 | for a guess without repeated letters, a grey letter is absent from the secret |
| Frequency.YellowPresent | agents/frequency_agent.py:124-127 | a yellow letter is in the secret, not at that position |
| Frequency.SoundForDistinctLetters | agents/frequency_agent.py:100-132 | for a guess without repeated letters the secret passes match_feedback against its own feedback |
| Frequency.EerieAgainstThere | agents/frequency_agent.py:128-131 | with a repeated letter it does not: "eerie" against "there" is yellow, grey, yellow, grey, green and fails the test |
| Frequency.UpdateKeeps | agents/frequency_agent.py:98 | update keeps exactly the matching, not yet guessed pool words, in order |
| Frequency.SecretDropped | agents/frequency_agent.py:98 | updating with the exact feedback of "eerie" for "there" drops the secret |
| Frequency.FrequencyAgent.constructor | agents/frequency_agent.py:20-32 | the language's word list and no guesses |
| Frequency.FrequencyAgent.Reset | agents/frequency_agent.py:34-42 | the pool is the language's word list again, no guesses |
| Frequency.FrequencyAgent.GetGuess | agents/frequency_agent.py:44-85 | an empty pool is refilled with the Arabic list; IndexError exactly when that is empty; otherwise a pool word of maximal score, recorded |
| Frequency.FrequencyAgent.Update | agents/frequency_agent.py:87-98 | the new pool is the old one filtered by match_feedback and not having been guessed |
| Agreement.FeedbackAgrees | agents/CSP_agent.py:62-99 | the three implementations return the same five tiles, green exactly where the letters agree |
| Agreement.ConsistencyAgrees | agents/CSP_agent.py:53-60 | the CSP consistency test, the entropy update test and a Bayesian likelihood of 1 accept the same words |
| Agreement.FrequencyAcceptsConsistent | agents/frequency_agent.py:120-132 | for a guess without repeats, every word the CSP agent keeps passes match_feedback |
| Validation.IsEnglishAlphabet | utils/word_processing/validation.py:4-8 | a word that passes the scan is pure ASCII |
| Validation.IsValidWord | utils/word_processing/validation.py:14-18 | a valid word is all Latin letters and accepted by the dictionary |
| Validation.EnglishAlphabetIff | utils/word_processing/validation.py:4-8 | a word passes exactly when every character is in a-z or A-Z |
| Validation.EnglishAlphabetAppend | utils/word_processing/validation.py:4-8 | a concatenation passes exactly when both parts pass |
| Validation.IsValidWordIff | utils/word_processing/validation.py:14-18 | a word is valid exactly when it is all Latin letters and the dictionary accepts it; any other word is rejected |
| TextCleaning.RemoveAscii | utils/word_processing/arabic_text_cleaning.py:1-2 | the result holds no ASCII character and is no longer than the word |
| TextCleaning.RemoveAsciiProperties | utils/word_processing/arabic_text_cleaning.py:1-2 | no ASCII character is left, every other is kept in order, never longer, idempotent |
| TextCleaning.StripStep | utils/word_processing/arabic_text_cleaning.py:16-17 | one replace after another deletes both sets of marks |
| TextCleaning.RemoveTashkeel | utils/word_processing/arabic_text_cleaning.py:4-18 | the replace loop deletes every tashkeel mark and keeps the rest |
| TextCleaning.WithoutMarksProperties | utils/word_processing/arabic_text_cleaning.py:4-18 | no mark is left, every other character is kept in order, never longer, idempotent |
| TextCleaning.RemoveTashkeelAndAscii | utils/word_processing/arabic_text_cleaning.py:20-21 | the combined cleaning is ASCII removal after mark removal |
| TextCleaning.CleaningCommutes | utils/word_processing/arabic_text_cleaning.py:20-21 | the two steps commute and leave exactly the non-ASCII, non-mark characters |
| InsertData.LexTotal | data/arabic/insert_data.py:17 | Python's string order is total |
| InsertData.LexTransitive | data/arabic/insert_data.py:17 | Python's string order is transitive |
| InsertData.AdjacentSortedIsSorted | data/arabic/insert_data.py:17 | ordered neighbours make an ordered list |
| InsertData.MergedPrefix | data/arabic/insert_data.py:13-15 | the merge keeps the current list as a prefix |
| InsertData.MergedMembers | data/arabic/insert_data.py:13-15 | the merge adds every new five-letter word and nothing else |
| InsertData.MergedFresh | data/arabic/insert_data.py:13-15 | the appended words are distinct and were not listed before |
| InsertData.Merge | data/arabic/insert_data.py:13-15 | the loop computes the merge |
| InsertData.SortWords | data/arabic/insert_data.py:17 | the sort leaves the array ordered and a permutation of its old contents |
| InsertData.InsertLast | data/arabic/insert_data.py:17 | one insertion step orders one more prefix position, permuting only |
| InsertData.InsertWords | data/arabic/insert_data.py:13-17 | the result is sorted and a permutation of the merged list |
| InsertData.InsertWordsContents | data/arabic/insert_data.py:13-17 | the result holds every listed word, every new five-letter word, and nothing else |

## Left out

- The graphical interface, the benchmark, the app entry points and the precomputation script are not
  part of this model. The interface does more than call the agents: before a game with a
  user-entered secret it appends that word to `agent.candidates` directly (UI/ui_testwindow.py:206,
  UI/ui_comparison.py:205-206, UI/ui_mainwindow.py:214). The model's classes offer no such write. For
  the Bayesian agent such a word has no entry in `probabilities`, so the next `update` raises KeyError
  at agents/bayesian_agent.py:96. The model does not show that error: `Bayesian.BayesianAgent.Valid()`
  demands that the pool and the probability keys hold the same words, and the standalone
  `Bayesian.Weight` reads a missing word as weight 0.0 instead of raising.
- Reading and writing word lists and the cache JSON are left out. The corpora are a `WordLists`
  value, and an existing cache file's contents are the parameter `stored`.
- The English dictionary lookup `is_valid_english_word` calls the network. It is the parameter
  `isEnglishWord`.
- `random.choice` is a nondeterministic choice (`:|`). The model proves the choice lies in the right
  list, not its distribution.
- `math.log2` is an abstract function parameter. Entropy results are therefore stated for any
  logarithm; non-negativity assumes only that it is not positive on (0, 1].
- Floating point is not modelled. `math.exp(-n)` is `1 / e^n` over exact reals, with e the float
  value 2.718281828459045, and the `1e-8` threshold is an exact real.
- The four agents share no base class here. `BaseAgent.candidates` is the function `Agents.WordsFor`,
  and the pool holds the same list value (the model does not capture aliasing with the global list).
- The cache paths are modelled by their file names under `data/`, without the directory prefix built
  at start-up.
- The entropy agent's `print` of an empty pool is left out; the pool is still set to the empty list.
- The tqdm progress bar is left out.
- The CSP, Bayesian and frequency agents' `__init__` methods only set fields and call `reset`. They
  are the classes' constructors.
- The corpora are assumed to hold only five-character words (the type `Word`), and every agent's pool
  and guesses have that type. `load_word_list` (utils/file_processing.py:3-5) only strips,
  lower-cases and drops blank lines; it does not check lengths. A corpus word of another length
  would make the source's feedback code raise IndexError or compare words of different lengths, and
  the model does not cover that. The lower-casing is not modelled either: the corpora are taken as
  loaded.
- Observed feedback that the agents receive is a list of `Tile` values. `Other(text)` stands for any
  string other than "green", "yellow" and "grey"; the model does not identify `Other("green")` with
  `Green` as the strings would be in the source.
- The stored entropy cache is a JSON object, so its keys are taken to be distinct (a `requires` on
  the entropy agent's constructor); duplicate keys in the file, where `json.load` keeps the last
  value, are not modelled.
- Entropy.ComputeFeedback: requires the answer to be at least as long as the guess, since a shorter
  one raises IndexError in the source; the agents only compare words of the type `Word`.
- Bayesian.ComputeFeedback: requires the candidate to be at least as long as the guess, for the same
  reason.
- Csp.CspAgent.GetFeedback: requires both words to have at least five letters, since the source
  indexes positions 0-4 of each and raises IndexError otherwise.

## Findings

| source | as written | input that shows it | evidently intended | confidence | as-written member | corrected member |
|---|---|---|---|---|---|---|
| agents/entropy_agent.py:24-30 | a given `cache_filename` is never stored in `self.cache_filename`, so `_load_or_compute_entropy_cache` reads a missing attribute | `EntropyAgent(cache_filename="c.json")` raises AttributeError | the given name is used as the cache file | not executed | Entropy.CacheFileAsWritten, shown by Entropy.ExplicitCacheNameFails | Entropy.CacheFile, proved in Entropy.CacheFileChoice and used by Entropy.NewEntropyAgent |
