/**
 * The letter-frequency agent (agents/frequency_agent.py): letters are counted across the pool, each
 * word scores the counts of its distinct letters, a best-scoring word is guessed, and updates keep
 * the words that pass a per-position feedback test that simplifies repeated letters.
 */
module Frequency {
  import opened Common
  import opened FeedbackEngine
  import Agents

  /** Occurrences of `c` across all the words, repeats included. */
  function Occurrences(words: seq<Word>, c: char): nat
  {
    if words == [] then 0 else Occurrences(words[..|words| - 1], c) + Count(words[|words| - 1], c)
  }

  lemma {:induction false} OccPositive(s: string, k: nat, c: char)
    requires k <= |s|
    ensures Occ(s, k, c) > 0 <==> c in s[..k]
  {
    if k > 0 {
      OccPositive(s, k - 1, c);
      assert s[..k] == s[..k - 1] + [s[k - 1]];
    }
  }

  /** A letter occurs across the words exactly when some word holds it. */
  lemma {:induction false} OccurrencesPositive(words: seq<Word>, c: char)
    ensures Occurrences(words, c) > 0 <==> exists w :: w in words && c in w
  {
    if words != [] {
      var init, last := words[..|words| - 1], words[|words| - 1];
      OccurrencesPositive(init, c);
      OccPositive(last, |last|, c);
      assert last[..|last|] == last;
      assert words == init + [last];
      if exists w :: w in words && c in w {
        var w :| w in words && c in w;
        if w != last {
          assert w in init;
        }
      }
    }
  }

  /** The nested loops building `frequency`: every letter of every word, counted. */
  method LetterFrequency(words: seq<Word>) returns (frequency: map<char, nat>)
    ensures forall c :: GetOr(frequency, c, 0) == Occurrences(words, c)
    ensures forall c :: c in frequency <==> Occurrences(words, c) > 0
  {
    frequency := map[];
    for k := 0 to |words|
      invariant forall c :: GetOr(frequency, c, 0) == Occurrences(words[..k], c)
      invariant forall c :: c in frequency ==> frequency[c] > 0
    {
      var word := words[k];
      assert words[..k + 1][..k] == words[..k];
      for j := 0 to |word|
        invariant forall c :: GetOr(frequency, c, 0) == Occurrences(words[..k], c) + Occ(word, j, c)
        invariant forall c :: c in frequency ==> frequency[c] > 0
      {
        frequency := frequency[word[j] := GetOr(frequency, word[j], 0) + 1];
      }
    }
    assert words[..|words|] == words;
  }

  /** The sum of `f` over a list of letters. */
  function SumOver(cs: seq<char>, f: char -> nat): nat
  {
    if cs == [] then 0 else SumOver(cs[..|cs| - 1], f) + f(cs[|cs| - 1])
  }

  lemma {:induction false} SumOverAppend(a: seq<char>, b: seq<char>, f: char -> nat)
    ensures SumOver(a + b, f) == SumOver(a, f) + SumOver(b, f)
    decreases |b|
  {
    if b == [] {
      assert a + b == a;
    } else {
      var init, last := b[..|b| - 1], b[|b| - 1];
      SumOverAppend(a, init, f);
      assert (a + b)[..|a + b| - 1] == a + init;
      assert (a + b)[|a + b| - 1] == last;
    }
  }

  /** The list with position `k` taken out loses that letter's value from its sum. */
  lemma RemoveAtSum(b: seq<char>, k: nat, f: char -> nat)
    requires k < |b|
    ensures SumOver(b, f) == SumOver(b[..k] + b[k + 1..], f) + f(b[k])
  {
    var l, x, r := b[..k], b[k], b[k + 1..];
    assert b == l + ([x] + r);
    SumOverAppend(l, [x] + r, f);
    SumOverAppend([x], r, f);
    SumOverAppend(l, r, f);
    assert [x][..0] == [];
    assert SumOver([x], f) == f(x);
  }

  /** The list with position `k` of a list of distinct letters taken out holds the other letters, each once. */
  lemma RemoveAtLetters(b: seq<char>, k: nat)
    requires NoDuplicates(b) && k < |b|
    ensures NoDuplicates(b[..k] + b[k + 1..])
    ensures forall c :: c in b[..k] + b[k + 1..] <==> c in b && c != b[k]
  {
    var rest := b[..k] + b[k + 1..];
    assert |rest| == |b| - 1;
    assert forall j :: 0 <= j < |rest| ==> rest[j] == if j < k then b[j] else b[j + 1];
    forall c ensures c in rest <==> c in b && c != b[k] {
      if c in b && c != b[k] {
        var j :| 0 <= j < |b| && b[j] == c;
        if j < k { assert rest[j] == c; } else { assert rest[j - 1] == c; }
      }
    }
  }

  lemma FirstMember(b: seq<char>)
    ensures b == [] || b[0] in b
  {
  }

  /** Two lists of distinct letters holding the same letters have the same sum, whatever their order. */
  lemma {:induction false} SumOverSameLetters(a: seq<char>, b: seq<char>, f: char -> nat)
    requires NoDuplicates(a) && NoDuplicates(b) && forall c :: c in a <==> c in b
    ensures SumOver(a, f) == SumOver(b, f)
    decreases |a|
  {
    if a == [] {
      FirstMember(b);
    } else {
      var x := a[|a| - 1];
      assert x in b;
      var k := IndexOf(b, x);
      var j := |a| - 1;
      RemoveAtSum(a, j, f);
      RemoveAtLetters(a, j);
      RemoveAtSum(b, k, f);
      RemoveAtLetters(b, k);
      var init, rest := a[..j], b[..k] + b[k + 1..];
      assert a[..j] + a[j + 1..] == init;
      forall c ensures c in init <==> c in rest {
        assert c in a[..j] + a[j + 1..] <==> c in a && c != x;
        assert c in rest <==> c in b && c != b[k];
      }
      SumOverSameLetters(init, rest, f);
    }
  }

  /** `sum(frequency.get(letter, 0) for letter in set(word))`: each distinct letter counted once. */
  function Score(frequency: map<char, nat>, word: Word): nat
  {
    SumOver(Dedup(word), c => GetOr(frequency, c, 0))
  }

  /** Repeats do not count: words with the same letters score alike, however often each letter occurs. */
  lemma ScoreByLetterSet(frequency: map<char, nat>, w1: Word, w2: Word)
    requires forall c :: c in w1 <==> c in w2
    ensures Score(frequency, w1) == Score(frequency, w2)
  {
    DedupProperties(w1);
    DedupProperties(w2);
    SumOverSameLetters(Dedup(w1), Dedup(w2), c => GetOr(frequency, c, 0));
  }

  lemma {:induction false} SumOverAgree(cs: seq<char>, f: char -> nat, g: char -> nat)
    requires forall c :: c in cs ==> f(c) == g(c)
    ensures SumOver(cs, f) == SumOver(cs, g)
  {
    if cs != [] {
      assert cs[|cs| - 1] in cs;
      assert forall c :: c in cs[..|cs| - 1] ==> c in cs;
      SumOverAgree(cs[..|cs| - 1], f, g);
    }
  }

  /** A word's score against the pool's letter counts: the pool occurrences of each of its distinct letters, summed. */
  function WordScore(words: seq<Word>, word: Word): nat
  {
    SumOver(Dedup(word), c => Occurrences(words, c))
  }

  /** Scoring with counts that agree with the pool's occurrences is scoring against the pool. */
  lemma ScoreAgainstPool(frequency: map<char, nat>, words: seq<Word>, word: Word)
    requires forall c :: GetOr(frequency, c, 0) == Occurrences(words, c)
    ensures Score(frequency, word) == WordScore(words, word)
  {
    SumOverAgree(Dedup(word), c => GetOr(frequency, c, 0), c => Occurrences(words, c));
  }

  /** `best_score` after the scoring loop: the largest score, or the initial -1 for no words. */
  function MaxScore(frequency: map<char, nat>, words: seq<Word>): (m: int)
    ensures words == [] <==> m == -1
    ensures forall w :: w in words ==> Score(frequency, w) <= m
    ensures words != [] ==> exists w :: w in words && Score(frequency, w) == m
  {
    if words == [] then -1
    else
      var init := words[..|words| - 1];
      var m := MaxScore(frequency, init);
      var s := Score(frequency, words[|words| - 1]);
      assert words == init + [words[|words| - 1]];
      if s > m then s else m
  }

  /** The test that a word reaches the score `m`. */
  function HasScore(frequency: map<char, nat>, m: int): Word -> bool
  {
    (w: Word) => Score(frequency, w) == m
  }

  lemma FilterNone(words: seq<Word>, p: Word -> bool)
    requires forall w :: w in words ==> !p(w)
    ensures Filter(words, p) == []
  {
    if Filter(words, p) != [] {
      FilterMembership(words, p, Filter(words, p)[0]);
    }
  }

  /** One more word scored: the best score rises to the new word's score when that is larger. */
  lemma MaxScoreStep(words: seq<Word>, k: nat, frequency: map<char, nat>)
    requires k < |words|
    ensures MaxScore(frequency, words[..k + 1])
            == if Score(frequency, words[k]) > MaxScore(frequency, words[..k]) then Score(frequency, words[k]) else MaxScore(frequency, words[..k])
  {
    assert words[..k + 1][..k] == words[..k];
  }

  /** One more word scored: a strictly better score restarts the best list, an equal one joins it. */
  lemma BestStep(words: seq<Word>, k: nat, frequency: map<char, nat>, m: int, sc: nat)
    requires k < |words| && m == MaxScore(frequency, words[..k]) && sc == Score(frequency, words[k])
    ensures Filter(words[..k + 1], HasScore(frequency, if sc > m then sc else m))
            == if sc > m then [words[k]]
               else if sc == m then Filter(words[..k], HasScore(frequency, m)) + [words[k]]
               else Filter(words[..k], HasScore(frequency, m))
  {
    var m' := if sc > m then sc else m;
    assert words[..k + 1] == words[..k] + [words[k]];
    FilterAppend(words[..k], [words[k]], HasScore(frequency, m'));
    assert Filter([words[k]], HasScore(frequency, m')) == if sc == m' then [words[k]] else [];
    if sc > m {
      FilterNone(words[..k], HasScore(frequency, sc));
    }
  }

  /**
   * The scoring loop: a strictly better score restarts `best_candidates`, an equal one joins it;
   * the initial -1 lies below every score, so the first word is always taken.
   */
  method BestCandidates(words: seq<Word>, frequency: map<char, nat>) returns (bestCandidates: seq<Word>)
    ensures bestCandidates == Filter(words, HasScore(frequency, MaxScore(frequency, words)))
  {
    var bestScore: int := -1;
    bestCandidates := [];
    for k := 0 to |words|
      invariant bestScore == MaxScore(frequency, words[..k])
      invariant bestCandidates == Filter(words[..k], HasScore(frequency, bestScore))
    {
      var word := words[k];
      var score := Score(frequency, word);
      MaxScoreStep(words, k, frequency);
      BestStep(words, k, frequency, bestScore, score);
      if score > bestScore {
        bestScore := score;
        bestCandidates := [word];
      } else if score == bestScore {
        bestCandidates := bestCandidates + [word];
      }
    }
    assert words[..|words|] == words;
  }

  /** `best_candidates` is exactly the pool words of maximal score, in pool order, and never empty for a non-empty pool. */
  lemma BestCandidatesExactly(words: seq<Word>, frequency: map<char, nat>)
    ensures forall w :: w in Filter(words, HasScore(frequency, MaxScore(frequency, words))) <==>
              w in words && forall v :: v in words ==> Score(frequency, v) <= Score(frequency, w)
    ensures IsSubsequence(Filter(words, HasScore(frequency, MaxScore(frequency, words))), words)
    ensures words != [] ==> Filter(words, HasScore(frequency, MaxScore(frequency, words))) != []
  {
    var p := HasScore(frequency, MaxScore(frequency, words));
    forall w ensures w in Filter(words, p) <==> w in words && p(w) {
      FilterMembership(words, p, w);
    }
    FilterIsSubsequence(words, p);
    if words != [] {
      var w :| w in words && Score(frequency, w) == MaxScore(frequency, words);
      FilterMembership(words, p, w);
    }
  }

  /** The rule one feedback tile sets for the candidate word at position `i`; other values set none. */
  predicate TileRule(word: Word, letter: char, fb: Tile, i: nat)
    requires i < |word|
  {
    match fb
    case Green => word[i] == letter
    case Yellow => letter in word && word[i] != letter
    case Grey => letter !in word
    case Other(_) => true
  }

  /** `match_feedback` from position `i` on, over the pairs of `zip(guess, feedback)`, stopping at the first failure. */
  predicate MatchesFrom(word: Word, guess: Word, feedback: seq<Tile>, i: nat)
    decreases |guess| - i
  {
    i >= |guess| || i >= |feedback| ||
    (TileRule(word, guess[i], feedback[i], i) && MatchesFrom(word, guess, feedback, i + 1))
  }

  predicate Matches(word: Word, guess: Word, feedback: seq<Tile>)
  {
    MatchesFrom(word, guess, feedback, 0)
  }

  lemma {:induction false} MatchesFromIff(word: Word, guess: Word, feedback: seq<Tile>, i: nat)
    ensures MatchesFrom(word, guess, feedback, i) <==>
            forall j :: i <= j < Min(|guess|, |feedback|) ==> TileRule(word, guess[j], feedback[j], j)
    decreases |guess| - i
  {
    if i < |guess| && i < |feedback| {
      MatchesFromIff(word, guess, feedback, i + 1);
    }
  }

  /** `match_feedback` holds exactly when every position of the zip meets its tile's rule. */
  lemma MatchesIff(word: Word, guess: Word, feedback: seq<Tile>)
    ensures Matches(word, guess, feedback) <==>
            forall j :: 0 <= j < Min(|guess|, |feedback|) ==> TileRule(word, guess[j], feedback[j], j)
  {
    MatchesFromIff(word, guess, feedback, 0);
  }

  /** `match_feedback`: the loop over the zip that returns False at the first position breaking its rule. */
  method MatchFeedback(word: Word, guess: Word, feedback: seq<Tile>) returns (ok: bool)
    ensures ok == Matches(word, guess, feedback)
  {
    MatchesIff(word, guess, feedback);
    for i := 0 to Min(|guess|, |feedback|)
      invariant forall j :: 0 <= j < i ==> TileRule(word, guess[j], feedback[j], j)
    {
      var letter, fb := guess[i], feedback[i];
      if fb == Green {
        if word[i] != letter {
          return false;
        }
      } else if fb == Yellow {
        if letter !in word || word[i] == letter {
          return false;
        }
      } else if fb == Grey {
        if letter in word {
          return false;
        }
      }
    }
    return true;
  }

  lemma {:induction false} DistinctOcc(g: string, i: nat, k: nat)
    requires NoDuplicates(g) && i < |g| && k <= |g|
    ensures Occ(g, k, g[i]) == if i < k then 1 else 0
  {
    if k > 0 {
      DistinctOcc(g, i, k - 1);
    }
  }

  lemma {:induction false} NonGreenMonotone(g: string, s: string, i: nat, k: nat, c: char)
    requires i <= k <= |g|
    ensures NonGreenBefore(g, s, i, c) <= NonGreenBefore(g, s, k, c)
    decreases k - i
  {
    if i < k {
      NonGreenMonotone(g, s, i, k - 1, c);
    }
  }

  /** With no repeated guess letter, an unmatched letter's only guess occurrence claims no green, so grey means absent. */
  lemma DistinctGrey(g: Word, s: Word, i: nat)
    requires NoDuplicates(g) && i < |g| && TileAt(g, s, i) == Grey
    ensures g[i] !in s
  {
    var c := g[i];
    DistinctOcc(g, i, i);
    DistinctOcc(g, i, |g|);
    GuessSplit(g, s, i, c);
    GuessSplit(g, s, |g|, c);
    NonGreenMonotone(g, s, i + 1, |g|, c);
    UnmatchedAfterGreens(g, s, c);
    OccPositive(s, |s|, c);
    assert s[..|s|] == s;
  }

  /** A yellow letter is unmatched and has an unmatched occurrence in the secret. */
  lemma YellowPresent(g: Word, s: Word, i: nat)
    requires i < |g| && TileAt(g, s, i) == Yellow
    ensures g[i] in s && s[i] != g[i]
  {
    UnmatchedAfterGreens(g, s, g[i]);
    OccPositive(s, |s|, g[i]);
    assert s[..|s|] == s;
  }

  /** For a guess without repeated letters, the true secret always passes `match_feedback` against its exact feedback. */
  lemma SoundForDistinctLetters(secret: Word, guess: Word)
    requires NoDuplicates(guess)
    ensures Matches(secret, guess, Feedback(guess, secret))
  {
    var fb := Feedback(guess, secret);
    forall j | 0 <= j < Min(|guess|, |fb|) ensures TileRule(secret, guess[j], fb[j], j) {
      if fb[j] == Grey {
        DistinctGrey(guess, secret, j);
      } else if fb[j] == Yellow {
        YellowPresent(guess, secret, j);
      }
    }
    MatchesIff(secret, guess, fb);
  }

  /**
   * With a repeated guess letter the test is not sound: "eerie" against the secret "there" is marked
   * yellow, grey, yellow, grey, green, and the grey on the second e rejects "there", which holds an e.
   */
  lemma EerieAgainstThere()
    ensures Feedback("eerie", "there") == [Yellow, Grey, Yellow, Grey, Green]
    ensures !Matches("there", "eerie", Feedback("eerie", "there"))
  {
    var g, s := "eerie", "there";
    assert UnmatchedIn(g, s, 5, 'e') == 1;
    assert UnmatchedIn(g, s, 5, 'r') == 1;
    assert UnmatchedIn(g, s, 5, 'i') == 0;
    assert NonGreenBefore(g, s, 1, 'e') == 1;
    assert TileAt(g, s, 0) == Yellow;
    assert TileAt(g, s, 1) == Grey;
    assert TileAt(g, s, 2) == Yellow;
    assert TileAt(g, s, 3) == Grey;
    MatchesIff("there", "eerie", Feedback("eerie", "there"));
    assert !TileRule("there", 'e', Grey, 1);
  }

  /** The test `update` applies to each pool word. */
  function Keeps(guess: Word, feedback: seq<Tile>, previousGuesses: seq<Word>): Word -> bool
  {
    (w: Word) => Matches(w, guess, feedback) && w !in previousGuesses
  }

  /** `update` keeps exactly the matching, not yet guessed pool words, in order, and never grows the pool. */
  lemma UpdateKeeps(pool: seq<Word>, guess: Word, feedback: seq<Tile>, previousGuesses: seq<Word>)
    ensures forall w :: w in Filter(pool, Keeps(guess, feedback, previousGuesses)) <==>
              w in pool && Matches(w, guess, feedback) && w !in previousGuesses
    ensures IsSubsequence(Filter(pool, Keeps(guess, feedback, previousGuesses)), pool)
    ensures |Filter(pool, Keeps(guess, feedback, previousGuesses))| <= |pool|
  {
    forall w ensures w in Filter(pool, Keeps(guess, feedback, previousGuesses)) <==> w in pool && Keeps(guess, feedback, previousGuesses)(w) {
      FilterMembership(pool, Keeps(guess, feedback, previousGuesses), w);
    }
    FilterIsSubsequence(pool, Keeps(guess, feedback, previousGuesses));
  }

  /** Updating with the exact feedback of "eerie" for the secret "there" drops the secret from the pool. */
  lemma SecretDropped(pool: seq<Word>, previousGuesses: seq<Word>)
    ensures "there" !in Filter(pool, Keeps("eerie", Feedback("eerie", "there"), previousGuesses))
  {
    var guess: Word, secret: Word := "eerie", "there";
    EerieAgainstThere();
    FilterMembership(pool, Keeps(guess, Feedback(guess, secret), previousGuesses), secret);
  }

  class FrequencyAgent {
    const lists: Agents.WordLists
    const language: string
    var candidates: seq<Word>
    var previousGuesses: seq<Word>

    constructor (lists: Agents.WordLists, language: string)
      ensures this.lists == lists && this.language == language
      ensures candidates == Agents.WordsFor(lists, language) && previousGuesses == []
    {
      this.lists := lists;
      this.language := language;
      new;
      Reset();
    }

    /** `reset`: the word list of the agent's language, and no guesses yet. */
    method Reset()
      modifies this`candidates, this`previousGuesses
      ensures candidates == Agents.WordsFor(lists, language) && previousGuesses == []
    {
      candidates := Agents.WordsFor(lists, language);
      previousGuesses := [];
    }

    /**
     * `get_guess`: an empty pool is refilled with the Arabic list, whatever the language; then a random
     * word of best letter-frequency score is guessed and recorded; `random.choice([])` raises IndexError.
     */
    method GetGuess() returns (r: Result<Word>)
      modifies this`candidates, this`previousGuesses
      ensures candidates == if old(candidates) == [] then lists.arabic else old(candidates)
      ensures r.Raised? <==> candidates == []
      ensures r.Raised? ==> r.error == IndexError && previousGuesses == old(previousGuesses)
      ensures r.Ok? ==> r.value in candidates && previousGuesses == old(previousGuesses) + [r.value]
      ensures r.Ok? ==> forall w :: w in candidates ==> WordScore(candidates, w) <= WordScore(candidates, r.value)
    {
      if candidates == [] {
        candidates := lists.arabic;
      }
      var frequency := LetterFrequency(candidates);
      var bestCandidates := BestCandidates(candidates, frequency);
      BestCandidatesExactly(candidates, frequency);
      if bestCandidates == [] {
        return Raised(IndexError);
      }
      assert bestCandidates[0] in bestCandidates;
      var bestWord :| bestWord in bestCandidates;
      forall w | w in candidates ensures WordScore(candidates, w) <= WordScore(candidates, bestWord) {
        ScoreAgainstPool(frequency, candidates, w);
        ScoreAgainstPool(frequency, candidates, bestWord);
      }
      previousGuesses := previousGuesses + [bestWord];
      r := Ok(bestWord);
    }

    /** `update`: the pool words that pass `match_feedback` and were not guessed before, in order. */
    method Update(guess: Word, feedback: seq<Tile>)
      modifies this`candidates
      ensures candidates == Filter(old(candidates), Keeps(guess, feedback, previousGuesses))
    {
      candidates := Filter(candidates, Keeps(guess, feedback, previousGuesses));
    }
  }
}
