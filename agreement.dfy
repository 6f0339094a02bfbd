/**
 * The agents side by side: the three feedback implementations compute the same tiles, and the
 * agents' tests for "this word could be the secret" coincide where they are sound.
 */
module Agreement {
  import opened Common
  import opened FeedbackEngine
  import Csp
  import Entropy
  import Bayesian
  import Frequency

  /**
   * For five-letter words, `CSPAgent._get_feedback(guess, secret)`, `EntropyAgent.compute_feedback(guess, secret)`
   * and `BayesianAgent.compute_feedback(secret, guess)` return the same tiles.
   */
  method FeedbackAgrees(guess: Word, secret: Word) returns (csp: seq<Tile>, entropy: seq<Tile>, bayesian: seq<Tile>)
    ensures csp == entropy == bayesian
    ensures |csp| == WordLength && forall i :: 0 <= i < WordLength ==> IsMark(csp[i])
    ensures forall i :: 0 <= i < WordLength ==> (csp[i] == Green <==> guess[i] == secret[i])
  {
    csp := Csp.CspAgent.GetFeedback(guess, secret);
    assert guess[..WordLength] == guess;
    entropy := Entropy.ComputeFeedback(guess, secret);
    bayesian := Bayesian.ComputeFeedback(secret, guess);
    FeedbackShape(guess, secret);
  }

  /**
   * Against five observed tiles, the CSP agent's consistency test, the entropy agent's update test
   * and a Bayesian likelihood of 1 accept the same words.
   */
  lemma ConsistencyAgrees(candidate: Word, guess: Word, feedback: seq<Tile>)
    requires |feedback| == WordLength
    ensures Csp.IsConsistent(candidate, guess, feedback) <==> Entropy.Fits(guess, feedback, [])(candidate)
    ensures Csp.IsConsistent(candidate, guess, feedback) <==>
            Bayesian.Likelihood(Bayesian.Mismatches(Feedback(guess, candidate), feedback)) == 1.0
  {
    Bayesian.LikelihoodOneIff(candidate, guess, feedback);
  }

  /**
   * For a guess without repeated letters, every word the CSP agent keeps also passes the frequency
   * agent's simplified test, so that agent never loses the secret on such a guess.
   */
  lemma FrequencyAcceptsConsistent(candidate: Word, guess: Word, feedback: seq<Tile>)
    requires NoDuplicates(guess) && Csp.IsConsistent(candidate, guess, feedback)
    ensures Frequency.Matches(candidate, guess, feedback)
  {
    Frequency.SoundForDistinctLetters(candidate, guess);
  }
}
