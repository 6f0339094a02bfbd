/**
 * The Bayesian agent (agents/bayesian_agent.py): a probability per candidate, multiplied after each
 * guess by a likelihood that decays exponentially with the number of tiles on which the candidate's
 * predicted feedback disagrees with the observed one, then filtered and renormalised.
 */
module Bayesian {
  import opened Common
  import opened FeedbackEngine
  import opened Dicts
  import Agents

  /**
   * `compute_feedback(candidate, guess)`: greens first, nulling their letter in a list copy of the
   * candidate, then yellow for each remaining letter found in that list (nulling its first entry),
   * grey otherwise. `candidate[i]` raises IndexError for a candidate shorter than the guess.
   */
  method ComputeFeedback(candidate: string, guess: string) returns (feedback: seq<Tile>)
    requires |guess| <= |candidate|
    ensures feedback == Feedback(guess, candidate)
  {
    var marks: seq<Option<Tile>> := seq(|guess|, _ => None);
    var candidateLetters: seq<Option<char>> := seq(|candidate|, j requires 0 <= j < |candidate| => Some(candidate[j]));
    for i := 0 to |guess|
      invariant marks == GreensMarked(guess, candidate, i) && |candidateLetters| == |candidate|
      invariant forall j :: 0 <= j < |candidate| ==>
                  candidateLetters[j] == if j < i && Matched(guess, candidate, j) then None else Some(candidate[j])
    {
      if candidate[i] == guess[i] {
        marks := marks[i := Some(Green)];
        candidateLetters := candidateLetters[i := None];
      }
    }
    GreensMarkedComplete(guess, candidate);
    assert candidateLetters == CopyAfter(guess, candidate, 0);
    for i := 0 to |guess|
      invariant marks == PendingMarks(guess, candidate, i)
      invariant candidateLetters == CopyAfter(guess, candidate, i)
    {
      PendingMarksAt(guess, candidate, i, i);
      if marks[i] == None {  // only letters not marked green
        if Some(guess[i]) in candidateLetters {
          marks := marks[i := Some(Yellow)];
          candidateLetters := candidateLetters[IndexOf(candidateLetters, Some(guess[i])) := None];
        } else {
          marks := marks[i := Some(Grey)];
        }
      }
    }
    PendingMarksComplete(guess, candidate);
    feedback := seq(|guess|, j requires 0 <= j < |guess| => marks[j].value);
  }

  /** `math.e`, the float the source uses, taken as an exact real. */
  const E: real := 2.718281828459045

  /** `update` drops candidates whose new weight is not above `1e-8`. */
  const Threshold: real := 0.00000001

  /** `e` to the power `n`; at least 1. */
  function ExpPow(n: nat): (r: real)
    ensures r >= 1.0
  {
    if n == 0 then 1.0
    else
      var prev := ExpPow(n - 1);
      assert E * prev >= prev;
      E * prev
  }

  /** `math.exp(-errors)`, idealised as `1 / e^errors` over the reals. */
  function Likelihood(errors: nat): real
  {
    1.0 / ExpPow(errors)
  }

  lemma {:induction false} ExpPowIncreasing(m: nat, n: nat)
    requires m < n
    ensures ExpPow(m) < ExpPow(n)
    decreases n
  {
    if m < n - 1 {
      ExpPowIncreasing(m, n - 1);
    }
    var prev := ExpPow(n - 1);
    assert ExpPow(n) == E * prev;
    assert E * prev > prev;
  }

  lemma ReciprocalDecreasing(a: real, b: real)
    requires 0.0 < a < b
    ensures 0.0 < 1.0 / b < 1.0 / a
  {
    var x, y := 1.0 / a, 1.0 / b;
    assert a * x == 1.0 && b * y == 1.0;
    assert y > 0.0;
  }

  /** No mismatch is certainty; every further mismatch makes the candidate strictly less likely, never impossible. */
  lemma LikelihoodDecays(m: nat, n: nat)
    ensures Likelihood(0) == 1.0
    ensures 0.0 < Likelihood(n) <= 1.0
    ensures m < n ==> Likelihood(n) < Likelihood(m)
  {
    if m < n {
      ExpPowIncreasing(m, n);
      ReciprocalDecreasing(ExpPow(m), ExpPow(n));
    }
  }

  /** Positions below `k` where the two feedbacks differ. */
  function MismatchCount(predicted: seq<Tile>, observed: seq<Tile>, k: nat): nat
    requires k <= |predicted| && k <= |observed|
  {
    if k == 0 then 0 else MismatchCount(predicted, observed, k - 1) + (if predicted[k - 1] != observed[k - 1] then 1 else 0)
  }

  /** The differing positions of `zip(predicted, observed)`, which stops at the shorter of the two. */
  function Mismatches(predicted: seq<Tile>, observed: seq<Tile>): nat
  {
    MismatchCount(predicted, observed, Min(|predicted|, |observed|))
  }

  lemma {:induction false} MismatchCountZero(predicted: seq<Tile>, observed: seq<Tile>, k: nat)
    requires k <= |predicted| && k <= |observed|
    ensures MismatchCount(predicted, observed, k) <= k
    ensures MismatchCount(predicted, observed, k) == 0 <==> predicted[..k] == observed[..k]
  {
    if k > 0 {
      MismatchCountZero(predicted, observed, k - 1);
      assert predicted[..k] == predicted[..k - 1] + [predicted[k - 1]];
      assert observed[..k] == observed[..k - 1] + [observed[k - 1]];
      if predicted[..k] == observed[..k] {
        assert predicted[..k - 1] == predicted[..k][..k - 1];
        assert observed[..k - 1] == observed[..k][..k - 1];
        assert predicted[k - 1] == predicted[..k][k - 1];
      }
    }
  }

  /** The error count is at most the compared length, and zero exactly when feedbacks of equal length agree. */
  lemma MismatchesZeroIff(predicted: seq<Tile>, observed: seq<Tile>)
    ensures Mismatches(predicted, observed) <= Min(|predicted|, |observed|)
    ensures |predicted| == |observed| ==> (Mismatches(predicted, observed) == 0 <==> predicted == observed)
  {
    MismatchCountZero(predicted, observed, Min(|predicted|, |observed|));
    assert predicted[..|predicted|] == predicted;
    assert observed[..|observed|] == observed;
  }

  /** The loop of `likelihood` that counts the differing positions. */
  method ErrorCount(predicted: seq<Tile>, observed: seq<Tile>) returns (errorCount: nat)
    ensures errorCount == Mismatches(predicted, observed)
  {
    errorCount := 0;
    for k := 0 to Min(|predicted|, |observed|)
      invariant errorCount == MismatchCount(predicted, observed, k)
    {
      if predicted[k] != observed[k] {
        errorCount := errorCount + 1;
      }
    }
  }

  /** `likelihood`: the candidate's predicted feedback for the guess, compared position by position with the observed one. */
  method LikelihoodOf(candidate: Word, guess: Word, feedback: seq<Tile>) returns (likelihoodScore: real)
    ensures likelihoodScore == Likelihood(Mismatches(Feedback(guess, candidate), feedback))
  {
    var predictedFeedback := ComputeFeedback(candidate, guess);
    var errorCount := ErrorCount(predictedFeedback, feedback);
    likelihoodScore := Likelihood(errorCount);
  }

  /**
   * Against a full observed feedback, a candidate has likelihood 1 exactly when it predicts that
   * feedback; in particular the secret itself always does.
   */
  lemma LikelihoodOneIff(candidate: Word, guess: Word, feedback: seq<Tile>)
    requires |feedback| == WordLength
    ensures Likelihood(Mismatches(Feedback(guess, candidate), feedback)) == 1.0 <==> Feedback(guess, candidate) == feedback
  {
    var n := Mismatches(Feedback(guess, candidate), feedback);
    MismatchesZeroIff(Feedback(guess, candidate), feedback);
    LikelihoodDecays(0, n);
  }

  /** `sum(d.values())`, added left to right. */
  function SumValues<K>(d: Dict<K, real>): real
  {
    if d == [] then 0.0 else d[0].1 + SumValues(d[1..])
  }

  /** Every value divided by `t`, keys and order unchanged. */
  function Divided<K>(d: Dict<K, real>, t: real): Dict<K, real>
    requires t != 0.0
  {
    seq(|d|, i requires 0 <= i < |d| => (d[i].0, d[i].1 / t))
  }

  /** What `normalize_probabilities` leaves: divided by the total when that is positive, untouched otherwise. */
  function Normalized<K>(d: Dict<K, real>): Dict<K, real>
  {
    if SumValues(d) > 0.0 then Divided(d, SumValues(d)) else d
  }

  /** The starting weights `{word: 1.0 for word in candidates}`. */
  function Uniform(candidates: seq<Word>): Dict<Word, real>
  {
    FromKeys(candidates, _ => 1.0)
  }

  /** A candidate's prior weight times the likelihood of the observed feedback, as `update` computes it. */
  function Weight(prior: Dict<Word, real>, guess: Word, feedback: seq<Tile>, word: Word): real
  {
    Get(prior, word, 0.0) * Likelihood(Mismatches(Feedback(guess, word), feedback))
  }

  /** The `new_probabilities` dict of `update`. */
  function Posterior(candidates: seq<Word>, prior: Dict<Word, real>, guess: Word, feedback: seq<Tile>): Dict<Word, real>
  {
    FromKeys(candidates, w => Weight(prior, guess, feedback, w))
  }

  /** The entries `update` keeps: weight above the threshold and never guessed. */
  function Kept(d: Dict<Word, real>, previousGuesses: seq<Word>): Dict<Word, real>
  {
    Filter(d, (e: (Word, real)) => e.1 > Threshold && e.0 !in previousGuesses)
  }

  /** `max(values, default=0)`. */
  function MaxValue(vs: seq<real>): (m: real)
    ensures vs == [] ==> m == 0.0
    ensures vs != [] ==> m in vs && forall v :: v in vs ==> v <= m
  {
    if vs == [] then 0.0
    else if |vs| == 1 then vs[0]
    else
      var rest := MaxValue(vs[1..]);
      assert forall v :: v in vs ==> v == vs[0] || v in vs[1..];
      if vs[0] >= rest then vs[0] else rest
  }

  /** `best_candidates` of `get_guess`: the words whose weight equals the largest, in dict order. */
  function Best(d: Dict<Word, real>): seq<Word>
  {
    var maxProb := MaxValue(Values(d));
    Keys(Filter(d, (e: (Word, real)) => e.1 == maxProb))
  }

  predicate IsMaxEntry(d: Dict<Word, real>, e: (Word, real))
  {
    e in d && forall e' :: e' in d ==> e'.1 <= e.1
  }

  /** The best words are exactly the keys of maximal weight, and a non-empty dict has one. */
  lemma BestIff(d: Dict<Word, real>)
    ensures forall w :: w in Best(d) <==> exists e :: IsMaxEntry(d, e) && e.0 == w
    ensures d != [] ==> Best(d) != []
  {
    var maxProb := MaxValue(Values(d));
    var p := (e: (Word, real)) => e.1 == maxProb;
    assert forall e :: e in d ==> e.1 in Values(d) by {
      forall e | e in d ensures e.1 in Values(d) {
        var i :| 0 <= i < |d| && d[i] == e;
        assert Values(d)[i] == e.1;
      }
    }
    forall e ensures e in Filter(d, p) <==> IsMaxEntry(d, e) {
      FilterMembership(d, p, e);
    }
    forall w ensures w in Best(d) <==> exists e :: e in Filter(d, p) && e.0 == w {
      if w in Best(d) {
        var i :| 0 <= i < |Filter(d, p)| && Keys(Filter(d, p))[i] == w;
        assert Filter(d, p)[i] in Filter(d, p);
      }
    }
    if d != [] {
      var i :| 0 <= i < |d| && d[i].1 == maxProb;
      assert d[i] in d;
      FilterMembership(d, p, d[i]);
      assert |Filter(d, p)| > 0;
    }
  }

  lemma {:induction false} SumDivided<K>(d: Dict<K, real>, t: real)
    requires t > 0.0
    ensures SumValues(Divided(d, t)) == SumValues(d) / t
  {
    if d != [] {
      assert Divided(d, t)[1..] == Divided(d[1..], t);
      SumDivided(d[1..], t);
      assert (d[0].1 + SumValues(d[1..])) / t == d[0].1 / t + SumValues(d[1..]) / t;
    }
  }

  lemma {:induction false} SumPositive<K>(d: Dict<K, real>)
    requires d != [] && forall e :: e in d ==> e.1 > 0.0
    ensures SumValues(d) > 0.0
  {
    if |d| > 1 {
      assert forall e :: e in d[1..] ==> e in d;
      SumPositive(d[1..]);
    } else {
      assert d[0] in d;
    }
  }

  lemma DividedPositive<K>(d: Dict<K, real>, t: real)
    requires t > 0.0 && forall e :: e in d ==> e.1 > 0.0
    ensures forall e :: e in Divided(d, t) ==> e.1 > 0.0
  {
    forall i | 0 <= i < |d| ensures d[i].1 / t > 0.0 {
      assert d[i] in d;
    }
  }

  /** Normalising keeps the keys and their order. */
  lemma NormalizedKeys<K>(d: Dict<K, real>)
    ensures Keys(Normalized(d)) == Keys(d)
  {
  }

  /** Positive weights become a probability distribution: positive values that sum to 1. */
  lemma NormalizedDistribution<K>(d: Dict<K, real>)
    requires d != [] && forall e :: e in d ==> e.1 > 0.0
    ensures SumValues(Normalized(d)) == 1.0
    ensures forall e :: e in Normalized(d) ==> e.1 > 0.0
  {
    var total := SumValues(d);
    SumPositive(d);
    assert Normalized(d) == Divided(d, total);
    SumDivided(d, total);
    DividedPositive(d, total);
    assert total / total == 1.0;
  }

  lemma {:induction false} SumOnes<K>(d: Dict<K, real>)
    requires forall e :: e in d ==> e.1 == 1.0
    ensures SumValues(d) == |d| as real
  {
    if d != [] {
      assert d[0] in d;
      assert forall e :: e in d[1..] ==> e in d;
      SumOnes(d[1..]);
    }
  }

  /** `reset` starts every distinct candidate at the same probability, one over their number. */
  lemma UniformPrior(candidates: seq<Word>)
    ensures Keys(Normalized(Uniform(candidates))) == Dedup(candidates)
    ensures forall e :: e in Normalized(Uniform(candidates)) ==> e.1 == 1.0 / |Dedup(candidates)| as real
  {
    var u := Uniform(candidates);
    FromKeysProperties(candidates, _ => 1.0);
    DedupProperties(candidates);
    NormalizedKeys(u);
    if candidates != [] {
      assert candidates[0] in Dedup(candidates);
      SumOnes(u);
    }
  }

  /** Every candidate has an entry in the posterior, carrying its weight. */
  lemma PosteriorEntry(candidates: seq<Word>, prior: Dict<Word, real>, guess: Word, feedback: seq<Tile>, w: Word)
    requires w in candidates
    ensures (w, Weight(prior, guess, feedback, w)) in Posterior(candidates, prior, guess, feedback)
  {
    var post := Posterior(candidates, prior, guess, feedback);
    FromKeysProperties(candidates, v => Weight(prior, guess, feedback, v));
    DedupProperties(candidates);
    assert w in Keys(post);
    var i :| 0 <= i < |post| && Keys(post)[i] == w;
    assert post[i] in post;
  }

  /** An entry above the threshold whose word was never guessed keeps its word among the keys. */
  lemma KeptEntry(d: Dict<Word, real>, previousGuesses: seq<Word>, e: (Word, real))
    requires e in d && e.1 > Threshold && e.0 !in previousGuesses
    ensures e.0 in Keys(Kept(d, previousGuesses))
  {
    FilterMembership(d, (e: (Word, real)) => e.1 > Threshold && e.0 !in previousGuesses, e);
    var kept := Kept(d, previousGuesses);
    var j :| 0 <= j < |kept| && kept[j] == e;
    assert Keys(kept)[j] == e.0;
  }

  /** Weighed against its own feedback, a word keeps its prior weight: the likelihood is 1. */
  lemma SelfWeight(prior: Dict<Word, real>, guess: Word, secret: Word)
    ensures Weight(prior, guess, Feedback(guess, secret), secret) == Get(prior, secret, 0.0)
  {
    MismatchesZeroIff(Feedback(guess, secret), Feedback(guess, secret));
    LikelihoodDecays(0, 0);
  }

  /**
   * The secret survives an update with its own feedback, provided it was a candidate, was never
   * guessed, and its weight was above the threshold.
   */
  lemma SecretKept(candidates: seq<Word>, prior: Dict<Word, real>, guess: Word, secret: Word, previousGuesses: seq<Word>)
    requires secret in candidates && secret !in previousGuesses && Get(prior, secret, 0.0) > Threshold
    ensures secret in Keys(Normalized(Kept(Posterior(candidates, prior, guess, Feedback(guess, secret)), previousGuesses)))
  {
    var feedback := Feedback(guess, secret);
    var post := Posterior(candidates, prior, guess, feedback);
    PosteriorEntry(candidates, prior, guess, feedback, secret);
    SelfWeight(prior, guess, secret);
    KeptEntry(post, previousGuesses, (secret, Weight(prior, guess, feedback, secret)));
    NormalizedKeys(Kept(post, previousGuesses));
  }

  /** After an update that keeps any candidate, the weights are a probability distribution over distinct words. */
  lemma UpdateDistribution(candidates: seq<Word>, prior: Dict<Word, real>, guess: Word, feedback: seq<Tile>, previousGuesses: seq<Word>)
    requires Kept(Posterior(candidates, prior, guess, feedback), previousGuesses) != []
    ensures SumValues(Normalized(Kept(Posterior(candidates, prior, guess, feedback), previousGuesses))) == 1.0
    ensures NoDuplicates(Keys(Normalized(Kept(Posterior(candidates, prior, guess, feedback), previousGuesses))))
  {
    var post := Posterior(candidates, prior, guess, feedback);
    var keep := (e: (Word, real)) => e.1 > Threshold && e.0 !in previousGuesses;
    var kept := Filter(post, keep);
    forall e | e in kept ensures e.1 > 0.0 {
      FilterMembership(post, keep, e);
    }
    NormalizedDistribution(kept);
    FromKeysProperties(candidates, w => Weight(prior, guess, feedback, w));
    DedupProperties(candidates);
    FilterDistinctKeys(post, keep);
    NormalizedKeys(kept);
  }

  /** A posterior entry carries a candidate and that candidate's weight. */
  lemma PosteriorEntries(candidates: seq<Word>, prior: Dict<Word, real>, guess: Word, feedback: seq<Tile>)
    ensures NoDuplicates(Keys(Posterior(candidates, prior, guess, feedback)))
    ensures forall e :: e in Posterior(candidates, prior, guess, feedback) ==>
              e.0 in candidates && e.1 == Weight(prior, guess, feedback, e.0)
  {
    var post := Posterior(candidates, prior, guess, feedback);
    FromKeysProperties(candidates, w => Weight(prior, guess, feedback, w));
    DedupProperties(candidates);
    forall e | e in post ensures e.0 in candidates {
      KeysMembership(post, e.0);
    }
  }

  /**
   * The words an update keeps are exactly the candidates never guessed whose weight is above the
   * threshold, listed in the order of the candidates' first occurrences: the pool never grows.
   */
  lemma KeptKeys(candidates: seq<Word>, prior: Dict<Word, real>, guess: Word, feedback: seq<Tile>, previousGuesses: seq<Word>)
    ensures forall w :: w in Keys(Normalized(Kept(Posterior(candidates, prior, guess, feedback), previousGuesses))) <==>
              w in candidates && w !in previousGuesses && Weight(prior, guess, feedback, w) > Threshold
    ensures IsSubsequence(Keys(Normalized(Kept(Posterior(candidates, prior, guess, feedback), previousGuesses))), Dedup(candidates))
  {
    var post := Posterior(candidates, prior, guess, feedback);
    var keep := (e: (Word, real)) => e.1 > Threshold && e.0 !in previousGuesses;
    var kept := Filter(post, keep);
    NormalizedKeys(kept);
    PosteriorEntries(candidates, prior, guess, feedback);
    forall w | w in Keys(kept)
      ensures w in candidates && w !in previousGuesses && Weight(prior, guess, feedback, w) > Threshold
    {
      var i :| 0 <= i < |kept| && Keys(kept)[i] == w;
      assert kept[i] in kept;
      FilterMembership(post, keep, kept[i]);
    }
    forall w | w in candidates && w !in previousGuesses && Weight(prior, guess, feedback, w) > Threshold
      ensures w in Keys(kept)
    {
      PosteriorEntry(candidates, prior, guess, feedback, w);
      KeptEntry(post, previousGuesses, (w, Weight(prior, guess, feedback, w)));
    }
    FromKeysKeys(candidates, w => Weight(prior, guess, feedback, w));
    FilterKeysSubsequence(post, keep);
  }

  /** One more candidate weighed: its entry is assigned after those of the words before it. */
  lemma PosteriorStep(words: seq<Word>, k: nat, prior: Dict<Word, real>, guess: Word, feedback: seq<Tile>)
    requires k < |words|
    ensures Posterior(words[..k + 1], prior, guess, feedback)
            == Put(Posterior(words[..k], prior, guess, feedback), words[k], Weight(prior, guess, feedback, words[k]))
  {
    assert words[..k + 1][..k] == words[..k];
  }

  /** The loop of `update` that weighs every candidate by the likelihood of the observed feedback. */
  method PosteriorOf(words: seq<Word>, prior: Dict<Word, real>, guess: Word, feedback: seq<Tile>)
    returns (newProbabilities: Dict<Word, real>)
    ensures newProbabilities == Posterior(words, prior, guess, feedback)
  {
    newProbabilities := [];
    for k := 0 to |words|
      invariant newProbabilities == Posterior(words[..k], prior, guess, feedback)
    {
      var word := words[k];
      var likelihood := LikelihoodOf(word, guess, feedback);
      PosteriorStep(words, k, prior, guess, feedback);
      assert Get(prior, word, 0.0) * likelihood == Weight(prior, guess, feedback, word);
      newProbabilities := Put(newProbabilities, word, Get(prior, word, 0.0) * likelihood);
    }
    assert words[..|words|] == words;
  }

  class BayesianAgent {
    const lists: Agents.WordLists
    const language: string
    var candidates: seq<Word>
    var previousGuesses: seq<Word>
    /** The ordered dict `probabilities`: candidate word to weight. */
    var probabilities: Dict<Word, real>

    /** The candidates are the words weighed, each weighed once. */
    ghost predicate Valid()
      reads this
    {
      (forall w :: w in candidates <==> w in Keys(probabilities)) && NoDuplicates(Keys(probabilities))
    }

    constructor (lists: Agents.WordLists, language: string)
      ensures this.lists == lists && this.language == language && Valid()
      ensures candidates == Agents.WordsFor(lists, language) && previousGuesses == []
      ensures probabilities == Normalized(Uniform(candidates))
    {
      this.lists := lists;
      this.language := language;
      new;
      Reset();
    }

    /** `reset`: the language's word list, every word weighed 1.0, then normalised. */
    method Reset()
      modifies this`candidates, this`previousGuesses, this`probabilities
      ensures candidates == Agents.WordsFor(lists, language) && previousGuesses == []
      ensures probabilities == Normalized(Uniform(candidates)) && Valid()
    {
      candidates := Agents.WordsFor(lists, language);
      previousGuesses := [];
      probabilities := Uniform(candidates);
      FromKeysProperties(candidates, _ => 1.0);
      DedupProperties(candidates);
      NormalizedKeys(probabilities);
      NormalizeProbabilities();
    }

    /** `normalize_probabilities`: each weight divided by the total, when the total is positive. */
    method NormalizeProbabilities()
      modifies this`probabilities
      ensures probabilities == Normalized(old(probabilities))
    {
      var total := SumValues(probabilities);
      if total > 0.0 {
        ghost var before := probabilities;
        for k := 0 to |probabilities|
          invariant |probabilities| == |before|
          invariant forall j :: 0 <= j < |before| ==>
                      probabilities[j] == if j < k then (before[j].0, before[j].1 / total) else before[j]
        {
          // `self.probabilities[word] /= total` for the k-th key
          probabilities := probabilities[k := (probabilities[k].0, probabilities[k].1 / total)];
        }
      }
    }

    /**
     * `get_guess`: a random word of largest weight, or a random candidate when every candidate ties;
     * `random.choice` of an empty list raises IndexError.
     */
    method GetGuess() returns (r: Result<Word>)
      requires Valid()
      modifies this`previousGuesses
      ensures r.Raised? <==> candidates == []
      ensures r.Raised? ==> r.error == IndexError && previousGuesses == old(previousGuesses)
      ensures r.Ok? ==> r.value in candidates && previousGuesses == old(previousGuesses) + [r.value]
      ensures r.Ok? && |Best(probabilities)| != |candidates| ==> r.value in Best(probabilities)
    {
      var bestCandidates := Best(probabilities);
      BestIff(probabilities);
      assert forall w :: w in bestCandidates ==> w in candidates by {
        forall w | w in bestCandidates ensures w in candidates {
          var e :| IsMaxEntry(probabilities, e) && e.0 == w;
          var i :| 0 <= i < |probabilities| && probabilities[i] == e;
          assert Keys(probabilities)[i] == w;
        }
      }
      assert candidates == [] <==> probabilities == [] by {
        if candidates != [] {
          assert candidates[0] in Keys(probabilities);
        }
        if probabilities != [] {
          assert Keys(probabilities)[0] in candidates;
        }
      }
      var pool := if |bestCandidates| == |candidates| then candidates else bestCandidates;
      if pool == [] {
        r := Raised(IndexError);
      } else {
        assert pool[0] in pool;
        var w :| w in pool;
        r := Ok(w);
        previousGuesses := previousGuesses + [w];
      }
    }

    /**
     * `update`: each candidate's weight times the likelihood of the observed feedback, the entries
     * at or below the threshold or already guessed dropped, the rest normalised; the candidates
     * become the surviving words.
     */
    method Update(guess: Word, feedback: seq<Tile>)
      requires Valid()
      modifies this`probabilities, this`candidates
      ensures probabilities == Normalized(Kept(Posterior(old(candidates), old(probabilities), guess, feedback), previousGuesses))
      ensures candidates == Keys(probabilities) && Valid()
    {
      var words, prior, guessed := candidates, probabilities, previousGuesses;
      var newProbabilities := PosteriorOf(words, prior, guess, feedback);
      FromKeysProperties(words, w => Weight(prior, guess, feedback, w));
      DedupProperties(words);
      FilterDistinctKeys(newProbabilities, (e: (Word, real)) => e.1 > Threshold && e.0 !in guessed);
      probabilities := Kept(newProbabilities, guessed);
      NormalizedKeys(probabilities);
      NormalizeProbabilities();
      candidates := Keys(probabilities);
    }
  }
}
