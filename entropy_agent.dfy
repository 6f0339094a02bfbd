/**
 * The entropy agent (agents/entropy_agent.py): for every word it may guess, the histogram of the
 * feedbacks that word would produce over the remaining answers, the Shannon entropy of that
 * histogram, and as the guess the first word of maximal entropy.
 */
module Entropy {
  import opened Common
  import opened FeedbackEngine
  import opened Dicts
  import Agents

  /** The letter counts `compute_feedback` holds before position `i` of its second pass: each answer letter's unclaimed occurrences. */
  ghost function FreqAfter(g: string, a: string, i: nat): map<char, int>
    requires i <= |g|
  {
    map c | c in a :: Remaining(g, a, i, c)
  }

  lemma {:induction false} AbsentLetter(g: string, a: string, k: nat, c: char)
    requires k <= |a| && c !in a
    ensures UnmatchedIn(g, a, k, c) == 0
  {
    if k > 0 {
      AbsentLetter(g, a, k - 1, c);
    }
  }

  /** The letter counts `compute_feedback` holds before position `i` of its first pass: the greens below `i` are taken off. */
  ghost function GreenFreq(g: string, a: string, i: nat): map<char, int>
  {
    map c | c in a :: Count(a, c) - GreensIn(g, a, i, c)
  }

  /** One step of the first pass: a green takes its letter, which is still counted, down by one. */
  lemma GreenFreqNext(g: string, a: string, i: nat)
    requires |g| <= |a| && i < |g|
    ensures Matched(g, a, i) ==> g[i] in GreenFreq(g, a, i) && GreenFreq(g, a, i + 1) == GreenFreq(g, a, i)[g[i] := GreenFreq(g, a, i)[g[i]] - 1]
    ensures !Matched(g, a, i) ==> GreenFreq(g, a, i + 1) == GreenFreq(g, a, i)
  {
    if Matched(g, a, i) {
      assert a[i] == g[i];
    }
  }

  /** After the first pass the counts are the answer's letters with their unmatched occurrences. */
  lemma FreqAfterStart(g: string, a: string)
    requires |g| <= |a|
    ensures GreenFreq(g, a, |g|) == FreqAfter(g, a, 0)
  {
    forall c | c in a ensures Count(a, c) - GreensIn(g, a, |g|, c) == Remaining(g, a, 0, c) {
      UnmatchedAfterGreens(g, a, c);
    }
  }

  /** One step of the second pass: a positive count of an unmatched letter is taken down by one, nothing else changes. */
  lemma FreqAfterNext(g: string, a: string, i: nat)
    requires i < |g|
    ensures g[i] in FreqAfter(g, a, i) && FreqAfter(g, a, i)[g[i]] > 0 <==> Remaining(g, a, i, g[i]) > 0
    ensures FreqAfter(g, a, i + 1)
            == if !Matched(g, a, i) && Remaining(g, a, i, g[i]) > 0
               then FreqAfter(g, a, i)[g[i] := FreqAfter(g, a, i)[g[i]] - 1]
               else FreqAfter(g, a, i)
  {
    if g[i] !in a {
      AbsentLetter(g, a, |a|, g[i]);
    }
    forall c {
      RemainingNext(g, a, i, c);
    }
  }

  /**
   * The letter counts `compute_feedback` keeps stay between 0 and the answer's count of the letter in
   * the first pass, and the second pass only lowers them from where the first pass left them.
   */
  lemma CountsBounded(g: string, a: string, i: nat)
    requires |g| <= |a| && i <= |g|
    ensures forall c :: c in GreenFreq(g, a, i) ==> 0 <= GreenFreq(g, a, i)[c] <= Count(a, c)
    ensures forall c :: c in FreqAfter(g, a, i) ==> c in GreenFreq(g, a, |g|) && FreqAfter(g, a, i)[c] <= GreenFreq(g, a, |g|)[c]
  {
    forall c | c in GreenFreq(g, a, i) ensures 0 <= GreenFreq(g, a, i)[c] <= Count(a, c) {
      GreensMonotone(g, a, i, |g|, c);
      UnmatchedAfterGreens(g, a, c);
    }
    forall c | c in FreqAfter(g, a, i) ensures FreqAfter(g, a, i)[c] <= GreenFreq(g, a, |g|)[c] {
      UnmatchedAfterGreens(g, a, c);
    }
  }

  /** The frequency dict `compute_feedback` builds: every letter of `s` with its number of occurrences. */
  method LetterCounts(s: string) returns (freq: map<char, int>)
    ensures forall c :: c in freq <==> c in s
    ensures forall c :: GetOr(freq, c, 0) == Count(s, c)
  {
    freq := map[];
    for k := 0 to |s|
      invariant forall c :: c in freq <==> c in s[..k]
      invariant forall c :: GetOr(freq, c, 0) == Occ(s, k, c)
    {
      assert s[..k + 1] == s[..k] + [s[k]];
      freq := freq[s[k] := GetOr(freq, s[k], 0) + 1];
    }
    assert s[..|s|] == s;
  }

  /**
   * `compute_feedback`: a letter count of the answer, greens first taking their letter off the count,
   * then yellow for each remaining letter whose count is still positive (taking it off), grey otherwise.
   * `guess[i] == answer[i]` raises IndexError for an answer shorter than the guess.
   */
  method ComputeFeedback(guess: string, answer: string) returns (feedback: seq<Tile>)
    requires |guess| <= |answer|
    ensures feedback == Feedback(guess, answer)
  {
    var marks: seq<Option<Tile>> := seq(|guess|, _ => None);
    var answerFreq := LetterCounts(answer);
    assert answerFreq == GreenFreq(guess, answer, 0);
    marks, answerFreq := MarkGreens(guess, answer, marks, answerFreq);
    FreqAfterStart(guess, answer);
    GreensMarkedComplete(guess, answer);
    marks := MarkRest(guess, answer, marks, answerFreq);
    PendingMarksComplete(guess, answer);
    feedback := seq(|guess|, j requires 0 <= j < |guess| => marks[j].value);
  }

  /** The first pass of `compute_feedback`: green where the letters agree, each taking its letter off the count. */
  method MarkGreens(guess: string, answer: string, marks0: seq<Option<Tile>>, freq0: map<char, int>)
    returns (marks: seq<Option<Tile>>, answerFreq: map<char, int>)
    requires |guess| <= |answer| && marks0 == GreensMarked(guess, answer, 0) && freq0 == GreenFreq(guess, answer, 0)
    ensures marks == GreensMarked(guess, answer, |guess|) && answerFreq == GreenFreq(guess, answer, |guess|)
  {
    marks, answerFreq := marks0, freq0;
    for i := 0 to |guess|
      invariant marks == GreensMarked(guess, answer, i)
      invariant answerFreq == GreenFreq(guess, answer, i)
    {
      GreenFreqNext(guess, answer, i);
      if guess[i] == answer[i] {
        marks := marks[i := Some(Green)];
        answerFreq := answerFreq[guess[i] := answerFreq[guess[i]] - 1];
      }
    }
  }

  /** One step of the second pass, stated in the terms the loop tests: the mark still open and the letter's count left. */
  lemma MarkRestStep(g: string, a: string, i: nat)
    requires i < |g|
    ensures var marks, freq := PendingMarks(g, a, i), FreqAfter(g, a, i);
      var yellow := g[i] in freq && freq[g[i]] > 0;
      && PendingMarks(g, a, i + 1)
         == (if marks[i] != None then marks else marks[i := Some(if yellow then Yellow else Grey)])
      && FreqAfter(g, a, i + 1)
         == (if marks[i] == None && yellow then freq[g[i] := freq[g[i]] - 1] else freq)
  {
    PendingMarksAt(g, a, i, i);
    CopyAfterHas(g, a, i);
    FreqAfterNext(g, a, i);
  }

  /** The second pass of `compute_feedback`: yellow while the letter's count is positive (taking it off), grey otherwise. */
  method MarkRest(guess: string, answer: string, marks0: seq<Option<Tile>>, freq0: map<char, int>)
    returns (marks: seq<Option<Tile>>)
    requires marks0 == PendingMarks(guess, answer, 0) && freq0 == FreqAfter(guess, answer, 0)
    ensures marks == PendingMarks(guess, answer, |guess|)
  {
    marks := marks0;
    var answerFreq := freq0;
    for i := 0 to |guess|
      invariant marks == PendingMarks(guess, answer, i)
      invariant answerFreq == FreqAfter(guess, answer, i)
    {
      MarkRestStep(guess, answer, i);
      if marks[i] == None {
        if guess[i] in answerFreq && answerFreq[guess[i]] > 0 {
          marks := marks[i := Some(Yellow)];
          answerFreq := answerFreq[guess[i] := answerFreq[guess[i]] - 1];
        } else {
          marks := marks[i := Some(Grey)];
        }
      }
    }
  }

  /** The answers that give `guess` the feedback `fb`, as a test on one answer. */
  function Gives(guess: Word, fb: seq<Tile>): Word -> bool
  {
    a => Feedback(guess, a) == fb
  }

  /**
   * The dict `feedback_counts` of one guess: each feedback the answers produce, in first-seen order,
   * with the number of answers producing it.
   */
  function Histogram(guess: Word, answers: seq<Word>): Dict<seq<Tile>, nat>
  {
    if answers == [] then []
    else
      var h := Histogram(guess, answers[..|answers| - 1]);
      var fb := Feedback(guess, answers[|answers| - 1]);
      Put(h, fb, Get(h, fb, 0) + 1)
  }

  /** Each feedback is counted once per answer producing it, and an absent feedback reads 0. */
  lemma {:induction false} HistogramCounts(guess: Word, answers: seq<Word>, fb: seq<Tile>)
    ensures Get(Histogram(guess, answers), fb, 0) == |Filter(answers, Gives(guess, fb))|
  {
    if answers != [] {
      var init, last := answers[..|answers| - 1], answers[|answers| - 1];
      var h := Histogram(guess, init);
      HistogramCounts(guess, init, fb);
      GetPut(h, Feedback(guess, last), Get(h, Feedback(guess, last), 0) + 1, fb, 0);
      assert answers == init + [last];
      FilterAppend(init, [last], Gives(guess, fb));
    }
  }

  /** The histogram's keys are distinct and are exactly the feedbacks some answer produces. */
  lemma {:induction false} HistogramKeys(guess: Word, answers: seq<Word>)
    ensures NoDuplicates(Keys(Histogram(guess, answers)))
    ensures forall fb :: fb in Keys(Histogram(guess, answers)) <==> exists a :: a in answers && Feedback(guess, a) == fb
  {
    if answers != [] {
      var init, last := answers[..|answers| - 1], answers[|answers| - 1];
      var h := Histogram(guess, init);
      HistogramKeys(guess, init);
      KeysPut(h, Feedback(guess, last), Get(h, Feedback(guess, last), 0) + 1);
      assert answers == init + [last];
      forall fb | fb in Keys(Histogram(guess, answers))
        ensures exists a :: a in answers && Feedback(guess, a) == fb
      {
        if fb != Feedback(guess, last) {
          var a :| a in init && Feedback(guess, a) == fb;
          assert a in answers;
        }
      }
      if Feedback(guess, last) !in Keys(h) {
        forall j | 0 <= j < |Keys(h)| ensures Keys(h)[j] != Feedback(guess, last) {
          assert Keys(h)[j] in Keys(h);
        }
      }
    }
  }

  /** The counts of a histogram add up to the number of answers scanned. */
  lemma {:induction false} HistogramTotal(guess: Word, answers: seq<Word>)
    ensures Total(Histogram(guess, answers)) == |answers|
  {
    if answers != [] {
      var init, last := answers[..|answers| - 1], answers[|answers| - 1];
      var h := Histogram(guess, init);
      HistogramTotal(guess, init);
      TotalPut(h, Feedback(guess, last), Get(h, Feedback(guess, last), 0) + 1);
    }
  }

  /** A guess that gets the same feedback from every answer has a histogram of one bar. */
  lemma {:induction false} HistogramSingle(guess: Word, answers: seq<Word>, fb: seq<Tile>)
    requires answers != [] && forall a :: a in answers ==> Feedback(guess, a) == fb
    ensures Histogram(guess, answers) == [(fb, |answers|)]
  {
    var init := answers[..|answers| - 1];
    assert answers[|answers| - 1] in answers;
    if init != [] {
      assert forall a :: a in init ==> a in answers;
      HistogramSingle(guess, init, fb);
    }
  }

  /** The loop filling `feedback_counts` for one guess over the answers. */
  method FeedbackCounts(guess: Word, answers: seq<Word>) returns (feedbackCounts: Dict<seq<Tile>, nat>)
    ensures feedbackCounts == Histogram(guess, answers)
  {
    feedbackCounts := [];
    for k := 0 to |answers|
      invariant feedbackCounts == Histogram(guess, answers[..k])
    {
      var fb := ComputeFeedback(guess, answers[k]);
      assert answers[..k + 1][..k] == answers[..k];
      feedbackCounts := Put(feedbackCounts, fb, Get(feedbackCounts, fb, 0) + 1);
    }
    assert answers[..|answers|] == answers;
  }

  /**
   * The entropy `-sum p * log2(p)` of a list of counts, accumulated in list order, each `p` the
   * count's share of `total`; `log2` stands for `math.log2`.
   */
  function EntropySum(counts: seq<nat>, total: nat, log2: real -> real): real
    requires total > 0 || counts == []
  {
    if counts == [] then 0.0
    else
      var p := counts[|counts| - 1] as real / total as real;
      EntropySum(counts[..|counts| - 1], total, log2) - p * log2(p)
  }

  /** A count within the total is a share in (0, 1]. */
  lemma Share(count: nat, total: nat)
    requires 0 < count <= total
    ensures 0.0 < count as real / total as real <= 1.0
  {
    var c, t := count as real, total as real;
    var p := c / t;
    assert p * t == c;
    if p > 1.0 {
      ScaleAbove(p, t);
    }
  }

  lemma ScaleAbove(p: real, t: real)
    requires p > 1.0 && t > 0.0
    ensures p * t > t
  {
    assert p * t - t == (p - 1.0) * t;
  }

  /** All answers in one bucket is a share of exactly one. */
  lemma WholeShare(n: nat)
    requires n > 0
    ensures n as real / n as real == 1.0
  {
    var t := n as real;
    assert t * 1.0 == t;
  }

  lemma NonPositiveProduct(p: real, q: real)
    requires p > 0.0 && q <= 0.0
    ensures p * q <= 0.0
  {
  }

  /** With a logarithm that is not positive on (0, 1], the entropy of counts within the total is not negative. */
  lemma {:induction false} EntropyNonNegative(counts: seq<nat>, total: nat, log2: real -> real)
    requires total > 0 && forall i :: 0 <= i < |counts| ==> 0 < counts[i] <= total
    requires forall p :: 0.0 < p <= 1.0 ==> log2(p) <= 0.0
    ensures EntropySum(counts, total, log2) >= 0.0
  {
    if counts != [] {
      var p := counts[|counts| - 1] as real / total as real;
      EntropyNonNegative(counts[..|counts| - 1], total, log2);
      Share(counts[|counts| - 1], total);
      NonPositiveProduct(p, log2(p));
    }
  }

  /** The entropy of one guess over the answers: the entropy of its histogram's counts. */
  function Score(guess: Word, answers: seq<Word>, log2: real -> real): real
  {
    EntropySum(Values(Histogram(guess, answers)), |answers|, log2)
  }

  /** Every bar of a histogram counts at least one answer and at most all of them. */
  lemma HistogramBar(guess: Word, answers: seq<Word>, i: nat)
    requires i < |Histogram(guess, answers)|
    ensures 0 < Histogram(guess, answers)[i].1 <= |answers|
  {
    var h := Histogram(guess, answers);
    var fb := h[i].0;
    HistogramKeys(guess, answers);
    GetEntry(h, i, 0);
    HistogramCounts(guess, answers, fb);
    FilterIsSubsequence(answers, Gives(guess, fb));
    assert Keys(h)[i] == fb && fb in Keys(h);
    var a :| a in answers && Feedback(guess, a) == fb;
    FilterMembership(answers, Gives(guess, fb), a);
  }

  /** With a logarithm that is not positive on (0, 1], the entropy score of every guess is not negative. */
  lemma ScoreNonNegative(guess: Word, answers: seq<Word>, log2: real -> real)
    requires forall p :: 0.0 < p <= 1.0 ==> log2(p) <= 0.0
    ensures Score(guess, answers, log2) >= 0.0
  {
    if answers != [] {
      var counts := Values(Histogram(guess, answers));
      forall i | 0 <= i < |counts| ensures 0 < counts[i] <= |answers| {
        HistogramBar(guess, answers, i);
      }
      EntropyNonNegative(counts, |answers|, log2);
    }
  }

  /** A guess that every answer gives the same feedback carries no information: its entropy is 0. */
  lemma NoInformation(guess: Word, answers: seq<Word>, fb: seq<Tile>, log2: real -> real)
    requires answers != [] && forall a :: a in answers ==> Feedback(guess, a) == fb
    requires log2(1.0) == 0.0
    ensures Score(guess, answers, log2) == 0.0
  {
    HistogramSingle(guess, answers, fb);
    var n := |answers|;
    assert Values(Histogram(guess, answers)) == [n];
    WholeShare(n);
    assert [n][..0] == [];
    assert EntropySum([n], n, log2) == 0.0 - 1.0 * log2(1.0);
  }

  /** The loop accumulating the entropy of one histogram. */
  method EntropyOfCounts(counts: seq<nat>, total: nat, log2: real -> real) returns (entropy: real)
    requires total > 0 || counts == []
    ensures entropy == EntropySum(counts, total, log2)
  {
    entropy := 0.0;
    for k := 0 to |counts|
      invariant entropy == EntropySum(counts[..k], total, log2)
    {
      var p := counts[k] as real / total as real;
      assert counts[..k + 1][..k] == counts[..k];
      entropy := entropy - p * log2(p);
    }
    assert counts[..|counts|] == counts;
  }

  /** The dict of every guess word's entropy over the answers: `entropy_cache` or `entropy_dict`. */
  function EntropyTable(guesses: seq<Word>, answers: seq<Word>, log2: real -> real): Dict<Word, real>
  {
    FromKeys(guesses, g => Score(g, answers, log2))
  }

  /** The entropy table holds each guess word once, with its score. */
  lemma EntropyTableScores(guesses: seq<Word>, answers: seq<Word>, log2: real -> real)
    ensures Keys(EntropyTable(guesses, answers, log2)) == Dedup(guesses)
    ensures forall g :: g in guesses ==> Get(EntropyTable(guesses, answers, log2), g, 0.0) == Score(g, answers, log2)
  {
    FromKeysProperties(guesses, g => Score(g, answers, log2));
  }

  /** One more guess scored: its entry is assigned after those of the guesses before it. */
  lemma EntropyTableStep(guesses: seq<Word>, k: nat, answers: seq<Word>, log2: real -> real)
    requires k < |guesses|
    ensures EntropyTable(guesses[..k + 1], answers, log2)
            == Put(EntropyTable(guesses[..k], answers, log2), guesses[k], Score(guesses[k], answers, log2))
  {
    assert guesses[..k + 1][..k] == guesses[..k];
  }

  /**
   * The nested loops of `_load_or_compute_entropy_cache` (answers = every word) and of
   * `_compute_entropy_over_candidates` (answers = the candidates): one histogram and one entropy per guess word.
   */
  method ComputeEntropies(guesses: seq<Word>, answers: seq<Word>, log2: real -> real) returns (entropyDict: Dict<Word, real>)
    ensures entropyDict == EntropyTable(guesses, answers, log2)
  {
    entropyDict := [];
    for k := 0 to |guesses|
      invariant entropyDict == EntropyTable(guesses[..k], answers, log2)
    {
      var feedbackCounts := FeedbackCounts(guesses[k], answers);
      var entropy := EntropyOfCounts(Values(feedbackCounts), |answers|, log2);
      EntropyTableStep(guesses, k, answers, log2);
      entropyDict := Put(entropyDict, guesses[k], entropy);
    }
    assert guesses[..|guesses|] == guesses;
  }

  /** The position Python's `max` settles on: a largest score, replaced only by a strictly larger one. */
  function MaxIndex(words: seq<Word>, score: Word -> real): (k: nat)
    requires words != []
    ensures k < |words|
    ensures forall j :: 0 <= j < |words| ==> score(words[j]) <= score(words[k])
    ensures forall j :: 0 <= j < k ==> score(words[j]) < score(words[k])
  {
    if |words| == 1 then 0
    else
      var k := MaxIndex(words[..|words| - 1], score);
      if score(words[|words| - 1]) > score(words[k]) then |words| - 1 else k
  }

  /** `max(words, key=score)`: the first word of largest score; ValueError for an empty list. */
  function MaxBy(words: seq<Word>, score: Word -> real): (r: Result<Word>)
    ensures r.Raised? <==> words == []
    ensures r.Raised? ==> r.error == ValueError
    ensures r.Ok? ==> r.value in words && forall v :: v in words ==> score(v) <= score(r.value)
    ensures r.Ok? ==> exists k :: 0 <= k < |words| && words[k] == r.value &&
                        forall j :: 0 <= j < k ==> score(words[j]) < score(r.value)
  {
    if words == [] then Raised(ValueError) else Ok(words[MaxIndex(words, score)])
  }

  /** The key `lambda word: table.get(word, 0)`. */
  function ScoreIn(table: Dict<string, real>): Word -> real
  {
    w => Get(table, w, 0.0)
  }

  const CachePathEn: string := "data/entropy_cache_en.json"
  const CachePathAr: string := "data/entropy_cache_ar.json"

  /**
   * The cache file `__init__` leaves for `_load_or_compute_entropy_cache`, as written: the language's
   * default when no name is given (ValueError for a language other than "en" and "ar"), but a given
   * name is never stored, so reading `self.cache_filename` raises AttributeError.
   */
  function CacheFileAsWritten(language: string, cacheFilename: Option<string>): Result<string>
  {
    if cacheFilename.Some? then Raised(AttributeError)
    else if language == "en" then Ok(CachePathEn)
    else if language == "ar" then Ok(CachePathAr)
    else Raised(ValueError)
  }

  /** The cache file as evidently intended: a given name is used as is. */
  function CacheFile(language: string, cacheFilename: Option<string>): Result<string>
  {
    if cacheFilename.Some? then Ok(cacheFilename.value)
    else if language == "en" then Ok(CachePathEn)
    else if language == "ar" then Ok(CachePathAr)
    else Raised(ValueError)
  }

  /** As written, every explicit cache name makes construction fail, whereas it should be taken as the file. */
  lemma ExplicitCacheNameFails(language: string, name: string)
    ensures CacheFileAsWritten(language, Some(name)) == Raised(AttributeError)
    ensures CacheFile(language, Some(name)) == Ok(name)
  {
  }

  /**
   * The corrected choice fails only for a language without a default file and no given name; it agrees
   * with the code as written whenever no name is given.
   */
  lemma CacheFileChoice(language: string, cacheFilename: Option<string>)
    ensures CacheFile(language, cacheFilename).Raised? <==> cacheFilename.None? && language != "en" && language != "ar"
    ensures CacheFile(language, cacheFilename).Raised? ==> CacheFile(language, cacheFilename).error == ValueError
    ensures cacheFilename.None? ==> CacheFile(language, cacheFilename) == CacheFileAsWritten(language, cacheFilename)
  {
  }

  /** The test `update` applies to each pool word. */
  function Fits(guess: Word, feedback: seq<Tile>, previousGuesses: seq<Word>): Word -> bool
  {
    w => w !in previousGuesses && Feedback(guess, w) == feedback
  }

  /** `update` keeps exactly the unguessed pool words with the observed feedback, in order; the true secret among them. */
  lemma UpdateKeeps(pool: seq<Word>, guess: Word, feedback: seq<Tile>, previousGuesses: seq<Word>)
    ensures forall w :: w in Filter(pool, Fits(guess, feedback, previousGuesses)) <==>
              w in pool && w !in previousGuesses && Feedback(guess, w) == feedback
    ensures IsSubsequence(Filter(pool, Fits(guess, feedback, previousGuesses)), pool)
  {
    forall w ensures w in Filter(pool, Fits(guess, feedback, previousGuesses)) <==> w in pool && Fits(guess, feedback, previousGuesses)(w) {
      FilterMembership(pool, Fits(guess, feedback, previousGuesses), w);
    }
    FilterIsSubsequence(pool, Fits(guess, feedback, previousGuesses));
  }

  class EntropyAgent {
    const language: string
    const allWords: seq<Word>
    const cacheFilename: string
    /** `math.log2`, left abstract. */
    const log2: real -> real
    var candidates: seq<Word>
    var previousGuesses: seq<Word>
    var entropyCache: Dict<string, real>

    /**
     * `__init__` once the cache file is settled: the language's words, a fresh game, and the cache read
     * from the file when it exists (`stored`, a JSON object, so its keys are distinct) or computed over
     * every word otherwise.
     */
    constructor (lists: Agents.WordLists, language: string, cacheFilename: string,
                 stored: Option<Dict<string, real>>, log2: real -> real)
      requires stored.Some? ==> NoDuplicates(Keys(stored.value))
      ensures this.language == language && allWords == Agents.WordsFor(lists, language)
      ensures this.cacheFilename == cacheFilename && this.log2 == log2
      ensures candidates == allWords && previousGuesses == []
      ensures entropyCache == if stored.Some? then stored.value else EntropyTable(allWords, allWords, log2)
    {
      this.language := language;
      allWords := Agents.WordsFor(lists, language);
      this.cacheFilename := cacheFilename;
      this.log2 := log2;
      entropyCache := [];
      new;
      Reset();
      LoadOrComputeEntropyCache(stored);
    }

    /** `reset`: the pool is every word again, and no guesses yet. */
    method Reset()
      modifies this`candidates, this`previousGuesses
      ensures candidates == allWords && previousGuesses == []
    {
      candidates := allWords;
      previousGuesses := [];
    }

    /** `_load_or_compute_entropy_cache`, with the file's contents, if it exists, as `stored`. */
    method LoadOrComputeEntropyCache(stored: Option<Dict<string, real>>)
      requires stored.Some? ==> NoDuplicates(Keys(stored.value))
      modifies this`entropyCache
      ensures entropyCache == if stored.Some? then stored.value else EntropyTable(allWords, allWords, log2)
    {
      if stored.Some? {
        entropyCache := stored.value;
      } else {
        entropyCache := ComputeEntropies(allWords, allWords, log2);
      }
    }

    /**
     * `get_guess`: the only candidate, unrecorded, when one is left; otherwise the first word of largest
     * entropy among all words, read from the cache while the pool still holds every word and recomputed
     * over the pool otherwise, and recorded.
     */
    method GetGuess() returns (r: Result<Word>)
      modifies this`previousGuesses
      ensures |candidates| == 1 ==> r == Ok(candidates[0]) && previousGuesses == old(previousGuesses)
      ensures |candidates| != 1 && (set w | w in candidates) == (set w | w in allWords) ==>
                r == MaxBy(allWords, ScoreIn(entropyCache))
      ensures |candidates| != 1 && (set w | w in candidates) != (set w | w in allWords) ==>
                r == MaxBy(allWords, ScoreIn(EntropyTable(allWords, candidates, log2)))
      ensures |candidates| != 1 && r.Ok? ==> previousGuesses == old(previousGuesses) + [r.value]
      ensures r.Raised? ==> previousGuesses == old(previousGuesses)
    {
      if |candidates| == 1 {
        return Ok(candidates[0]);
      }
      if (set w | w in candidates) == (set w | w in allWords) {
        r := MaxBy(allWords, ScoreIn(entropyCache));
      } else {
        var entropyDict := ComputeEntropies(allWords, candidates, log2);
        r := MaxBy(allWords, ScoreIn(entropyDict));
      }
      if r.Ok? {
        previousGuesses := previousGuesses + [r.value];
      }
    }

    /** `update`: the pool words not guessed before whose feedback for `guess` is the observed one, in order. */
    method Update(guess: Word, feedback: seq<Tile>)
      modifies this`candidates
      ensures candidates == Filter(old(candidates), Fits(guess, feedback, previousGuesses))
    {
      var pool := candidates;
      var newCandidates: seq<Word> := [];
      for k := 0 to |pool|
        invariant newCandidates == Filter(pool[..k], Fits(guess, feedback, previousGuesses))
      {
        var word := pool[k];
        assert pool[..k + 1] == pool[..k] + [word];
        FilterAppend(pool[..k], [word], Fits(guess, feedback, previousGuesses));
        if word !in previousGuesses {
          var computedFeedback := ComputeFeedback(guess, word);
          if computedFeedback == feedback {
            newCandidates := newCandidates + [word];
          }
        }
      }
      assert pool[..|pool|] == pool;
      candidates := newCandidates;
    }
  }

  /** `EntropyAgent(cache_filename, language)`: ValueError for a language with no default cache file and no given name. */
  method NewEntropyAgent(lists: Agents.WordLists, language: string, cacheFilename: Option<string>,
                         stored: Option<Dict<string, real>>, log2: real -> real)
    returns (r: Result<EntropyAgent>)
    requires stored.Some? ==> NoDuplicates(Keys(stored.value))
    ensures r.Raised? <==> CacheFile(language, cacheFilename).Raised?
    ensures r.Raised? ==> r.error == ValueError
    ensures r.Ok? ==> fresh(r.value) && r.value.cacheFilename == CacheFile(language, cacheFilename).value
    ensures r.Ok? ==> r.value.allWords == Agents.WordsFor(lists, language) && r.value.candidates == r.value.allWords
  {
    var file := CacheFile(language, cacheFilename);
    if file.Raised? {
      return Raised(file.error);
    }
    var agent := new EntropyAgent(lists, language, file.value, stored, log2);
    r := Ok(agent);
  }
}
