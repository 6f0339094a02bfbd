/**
 * The constraint-satisfaction agent (agents/CSP_agent.py): a pool of candidates that each update
 * filters down to the words that would have produced the observed feedback, and a guess drawn
 * from that pool at random.
 */
module Csp {
  import opened Common
  import opened FeedbackEngine
  import Agents

  /** `_is_consistent`: `candidate` as the secret would have produced exactly `feedback` for `guess`. */
  predicate IsConsistent(candidate: Word, guess: Word, feedback: seq<Tile>)
    ensures IsConsistent(candidate, guess, feedback) ==>
              |feedback| == WordLength && forall i :: 0 <= i < WordLength ==> IsMark(feedback[i])
    ensures IsConsistent(candidate, guess, feedback) ==>
              forall i :: 0 <= i < WordLength ==> (feedback[i] == Green <==> candidate[i] == guess[i])
  {
    FeedbackShape(guess, candidate);
    Feedback(guess, candidate) == feedback
  }

  /** The pool `update` keeps: consistent words not guessed before, in pool order. */
  function Survivors(pool: seq<Word>, guess: Word, feedback: seq<Tile>, previous: seq<Option<Word>>): seq<Word>
  {
    Filter(pool, w => IsConsistent(w, guess, feedback) && Some(w) !in previous)
  }

  /** `update` keeps exactly the consistent, not yet guessed pool words, in order, and never grows the pool. */
  lemma SurvivorsExactly(pool: seq<Word>, guess: Word, feedback: seq<Tile>, previous: seq<Option<Word>>)
    ensures forall w :: w in Survivors(pool, guess, feedback, previous) <==>
              w in pool && IsConsistent(w, guess, feedback) && Some(w) !in previous
    ensures IsSubsequence(Survivors(pool, guess, feedback, previous), pool)
    ensures |Survivors(pool, guess, feedback, previous)| <= |pool|
  {
    var p := w => IsConsistent(w, guess, feedback) && Some(w) !in previous;
    forall w ensures w in Filter(pool, p) <==> w in pool && p(w) {
      FilterMembership(pool, p, w);
    }
    FilterIsSubsequence(pool, p);
  }

  /** Soundness: the true secret, if pooled and not yet guessed, survives the update with its own feedback. */
  lemma SecretSurvives(pool: seq<Word>, guess: Word, secret: Word, previous: seq<Option<Word>>)
    requires secret in pool && Some(secret) !in previous
    ensures secret in Survivors(pool, guess, Feedback(guess, secret), previous)
  {
    FilterMembership(pool, w => IsConsistent(w, guess, Feedback(guess, secret)) && Some(w) !in previous, secret);
  }

  class CspAgent {
    const lists: Agents.WordLists
    const language: string
    var candidates: seq<Word>
    /** Every value `get_guess` returned, None included. */
    var previousGuesses: seq<Option<Word>>

    constructor (lists: Agents.WordLists, language: string)
      ensures this.lists == lists && this.language == language
      ensures candidates == Agents.WordsFor(lists, language) && previousGuesses == []
    {
      this.lists := lists;
      this.language := language;
      new;
      Reset();
    }

    /** `reset`: the full word list of the agent's language, and no guesses yet. */
    method Reset()
      modifies this`candidates, this`previousGuesses
      ensures candidates == Agents.WordsFor(lists, language) && previousGuesses == []
    {
      candidates := Agents.WordsFor(lists, language);
      previousGuesses := [];
    }

    /** `get_guess`: a random pool word, or None for an empty pool; the result is recorded either way. */
    method GetGuess() returns (guess: Option<Word>)
      modifies this`previousGuesses
      ensures guess == None <==> candidates == []
      ensures guess.Some? ==> guess.value in candidates
      ensures previousGuesses == old(previousGuesses) + [guess]
    {
      if candidates != [] {
        assert candidates[0] in candidates;
        var w :| w in candidates;
        guess := Some(w);
      } else {
        guess := None;
      }
      previousGuesses := previousGuesses + [guess];
    }

    /** `update`: keep the pool words consistent with the feedback and not guessed before. */
    method Update(guess: Word, feedback: seq<Tile>)
      modifies this`candidates
      ensures candidates == Survivors(old(candidates), guess, feedback, previousGuesses)
    {
      candidates := Survivors(candidates, guess, feedback, previousGuesses);
    }

    /**
     * `_get_feedback`: the first five guess letters against the secret, greens first with the
     * matched secret letters nulled in a copy, then yellows each nulling the first copy of their letter.
     */
    static method GetFeedback(guess: string, secret: string) returns (feedback: seq<Tile>)
      requires WordLength <= |guess| && WordLength <= |secret|
      ensures feedback == Feedback(guess[..WordLength], secret)
      ensures |feedback| == WordLength && forall i :: 0 <= i < WordLength ==> IsMark(feedback[i])
    {
      ghost var g := guess[..WordLength];
      feedback := seq(WordLength, _ => Grey);
      var secretList: seq<Option<char>> := seq(|secret|, j requires 0 <= j < |secret| => Some(secret[j]));
      for i := 0 to WordLength
        invariant |feedback| == WordLength && |secretList| == |secret|
        invariant forall j :: 0 <= j < WordLength ==>
                    feedback[j] == if j < i && Matched(g, secret, j) then Green else Grey
        invariant forall j :: 0 <= j < |secret| ==>
                    secretList[j] == if j < i && Matched(g, secret, j) then None else Some(secret[j])
      {
        if guess[i] == secret[i] {
          feedback := feedback[i := Green];
          secretList := secretList[i := None];
        }
      }
      assert feedback == MarksAfter(g, secret, 0);
      assert secretList == CopyAfter(g, secret, 0);
      for i := 0 to WordLength
        invariant feedback == MarksAfter(g, secret, i)
        invariant secretList == CopyAfter(g, secret, i)
      {
        MarksAfterTiles(g, secret, i);
        if feedback[i] != Green {  // positions already green are skipped
          if Some(guess[i]) in secretList {
            feedback := feedback[i := Yellow];
            secretList := secretList[IndexOf(secretList, Some(guess[i])) := None];
          }
        }
      }
      MarksAfterComplete(g, secret);
    }
  }
}
