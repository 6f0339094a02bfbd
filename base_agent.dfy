/** The word lists every agent starts from (agents/base_agent.py). */
module Agents {
  import opened FeedbackEngine

  /** The two corpora loaded at start-up: English and Arabic five-letter words, in file order. */
  datatype WordLists = WordLists(english: seq<Word>, arabic: seq<Word>)

  /** `BaseAgent.candidates`: the English list for language "en", the Arabic list for any other, "ar" or not. */
  function WordsFor(lists: WordLists, language: string): (words: seq<Word>)
    ensures language == "en" ==> words == lists.english
    ensures language != "en" ==> words == lists.arabic
  {
    if language == "en" then lists.english else lists.arabic
  }
}
