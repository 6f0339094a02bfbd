/**
 * The dictionary gate (utils/word_processing/validation.py): only words made of Latin letters are
 * looked up in the English dictionary; every other word is rejected outright.
 */
module Validation {

  /** `'a' <= char <= 'z'` or `'A' <= char <= 'Z'`. */
  predicate IsLatinLetter(ch: char)
  {
    ('a' <= ch <= 'z') || ('A' <= ch <= 'Z')
  }

  /**
   * `__is_english_alphabet`: the scan that stops at the first character outside both letter ranges.
   * A word that passes is pure ASCII.
   */
  predicate IsEnglishAlphabet(word: string)
    ensures IsEnglishAlphabet(word) ==> forall ch :: ch in word ==> ch as int < 128
  {
    if word == [] then true
    else
      assert forall ch :: ch in word ==> ch == word[0] || ch in word[1..];
      IsLatinLetter(word[0]) && IsEnglishAlphabet(word[1..])
  }

  /** A word passes the scan exactly when every character is a Latin letter; the empty word passes. */
  lemma {:induction false} EnglishAlphabetIff(word: string)
    ensures IsEnglishAlphabet(word) <==> forall i :: 0 <= i < |word| ==> IsLatinLetter(word[i])
  {
    if word != [] {
      EnglishAlphabetIff(word[1..]);
      assert forall i :: 1 <= i < |word| ==> word[i] == word[1..][i - 1];
    }
  }

  /** A concatenation passes exactly when both parts pass. */
  lemma EnglishAlphabetAppend(a: string, b: string)
    ensures IsEnglishAlphabet(a + b) <==> IsEnglishAlphabet(a) && IsEnglishAlphabet(b)
  {
    EnglishAlphabetIff(a);
    EnglishAlphabetIff(b);
    EnglishAlphabetIff(a + b);
    if forall i :: 0 <= i < |a + b| ==> IsLatinLetter((a + b)[i]) {
      forall i | 0 <= i < |b| ensures IsLatinLetter(b[i]) {
        assert (a + b)[|a| + i] == b[i];
      }
      forall i | 0 <= i < |a| ensures IsLatinLetter(a[i]) {
        assert (a + b)[i] == a[i];
      }
    }
  }

  /**
   * `is_valid_word`: the dictionary's verdict for Latin-letter words, False for any other word;
   * `isEnglishWord` stands for the network lookup `is_valid_english_word`.
   */
  function IsValidWord(word: string, isEnglishWord: string -> bool): (valid: bool)
    ensures valid ==> isEnglishWord(word) && forall i :: 0 <= i < |word| ==> IsLatinLetter(word[i])
  {
    EnglishAlphabetIff(word);
    if IsEnglishAlphabet(word) then isEnglishWord(word) else false
  }

  /**
   * A valid word is a Latin-letter word the dictionary accepts; a word with any other character,
   * every Arabic word among them, is rejected whatever the dictionary says.
   */
  lemma IsValidWordIff(word: string, isEnglishWord: string -> bool)
    ensures IsValidWord(word, isEnglishWord) <==>
            (forall i :: 0 <= i < |word| ==> IsLatinLetter(word[i])) && isEnglishWord(word)
    ensures (exists i :: 0 <= i < |word| && !IsLatinLetter(word[i])) ==> !IsValidWord(word, isEnglishWord)
  {
    EnglishAlphabetIff(word);
  }
}
