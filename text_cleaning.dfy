/**
 * Arabic word cleaning (utils/word_processing/arabic_text_cleaning.py): stripping ASCII characters
 * and the Arabic diacritics (tashkeel) and the tatweel extender from a word.
 */
module TextCleaning {
  import opened Common

  /** `ch.isascii()`: a code point below 128. */
  predicate IsAscii(ch: char)
  {
    ch as int < 128
  }

  function NotAscii(ch: char): bool
  {
    !IsAscii(ch)
  }

  /** `remove_ascii`: the non-ASCII characters of the word, in order. */
  function RemoveAscii(word: string): (cleaned: string)
    ensures forall ch :: ch in cleaned ==> !IsAscii(ch)
    ensures |cleaned| <= |word|
  {
    FilterKeeps(word, NotAscii);
    Filter(word, NotAscii)
  }

  /** The marks `remove_tashkeel` deletes: fatha, damma, kasra, sukun, shadda, the three tanween and tatweel. */
  const TashkeelMarks: seq<char> :=
    ['\U{064E}', '\U{064F}', '\U{0650}', '\U{0652}', '\U{0651}', '\U{064B}', '\U{064C}', '\U{064D}', '\U{0640}']

  /** The test "not one of `cs`". */
  function NotIn(cs: seq<char>): char -> bool
  {
    ch => ch !in cs
  }

  /** The word without any tashkeel mark, all other characters kept in order. */
  function WithoutMarks(word: string): string
  {
    Filter(word, NotIn(TashkeelMarks))
  }

  /** Deleting every `c` from a word already stripped of `cs` strips it of `cs + [c]`. */
  lemma {:induction false} StripStep(word: string, cs: seq<char>, c: char)
    ensures Filter(Filter(word, NotIn(cs)), NotIn([c])) == Filter(word, NotIn(cs + [c]))
  {
    if word != [] {
      StripStep(word[1..], cs, c);
      assert word == [word[0]] + word[1..];
      var head := if NotIn(cs)(word[0]) then [word[0]] else [];
      FilterAppend(head, Filter(word[1..], NotIn(cs)), NotIn([c]));
    }
  }

  /** `remove_tashkeel`: `word.replace(mark, "")` for each mark in turn. */
  method RemoveTashkeel(word: string) returns (result: string)
    ensures result == WithoutMarks(word)
  {
    result := word;
    assert Filter(word, NotIn([])) == word by {
      FilterKeepsEverything(word, NotIn([]));
    }
    for k := 0 to |TashkeelMarks|
      invariant result == Filter(word, NotIn(TashkeelMarks[..k]))
    {
      StripStep(word, TashkeelMarks[..k], TashkeelMarks[k]);
      assert TashkeelMarks[..k] + [TashkeelMarks[k]] == TashkeelMarks[..k + 1];
      result := Filter(result, NotIn([TashkeelMarks[k]]));
    }
    assert TashkeelMarks[..|TashkeelMarks|] == TashkeelMarks;
  }

  lemma {:induction false} FilterKeepsEverything(s: string, p: char -> bool)
    requires forall ch :: p(ch)
    ensures Filter(s, p) == s
  {
    if s != [] {
      FilterKeepsEverything(s[1..], p);
    }
  }

  /** `remove_tashkeel_and_ascii`: diacritics first, then ASCII. */
  method RemoveTashkeelAndAscii(word: string) returns (result: string)
    ensures result == RemoveAscii(WithoutMarks(word))
  {
    var stripped := RemoveTashkeel(word);
    result := RemoveAscii(stripped);
  }

  lemma {:induction false} FilterIdempotent(s: string, p: char -> bool)
    ensures Filter(Filter(s, p), p) == Filter(s, p)
  {
    if s != [] {
      FilterIdempotent(s[1..], p);
      var head := if p(s[0]) then [s[0]] else [];
      FilterAppend(head, Filter(s[1..], p), p);
    }
  }

  lemma {:induction false} FilterCommute(s: string, p: char -> bool, q: char -> bool)
    ensures Filter(Filter(s, p), q) == Filter(Filter(s, q), p)
  {
    if s != [] {
      FilterCommute(s[1..], p, q);
      var hp := if p(s[0]) then [s[0]] else [];
      var hq := if q(s[0]) then [s[0]] else [];
      FilterAppend(hp, Filter(s[1..], p), q);
      FilterAppend(hq, Filter(s[1..], q), p);
    }
  }

  /** A filtered word keeps exactly the characters passing the test, in order, and is no longer. */
  lemma FilterKeeps(s: string, p: char -> bool)
    ensures forall ch :: ch in Filter(s, p) <==> ch in s && p(ch)
    ensures IsSubsequence(Filter(s, p), s) && |Filter(s, p)| <= |s|
  {
    forall ch ensures ch in Filter(s, p) <==> ch in s && p(ch) {
      FilterMembership(s, p, ch);
    }
    FilterIsSubsequence(s, p);
  }

  /** `remove_ascii` leaves no ASCII character, keeps every other one in order, never lengthens and is idempotent. */
  lemma RemoveAsciiProperties(word: string)
    ensures forall ch :: ch in RemoveAscii(word) <==> ch in word && !IsAscii(ch)
    ensures IsSubsequence(RemoveAscii(word), word) && |RemoveAscii(word)| <= |word|
    ensures RemoveAscii(RemoveAscii(word)) == RemoveAscii(word)
  {
    FilterKeeps(word, NotAscii);
    FilterIdempotent(word, NotAscii);
  }

  /** `remove_tashkeel` leaves no mark, keeps every other character in order, never lengthens and is idempotent. */
  lemma WithoutMarksProperties(word: string)
    ensures forall ch :: ch in WithoutMarks(word) <==> ch in word && ch !in TashkeelMarks
    ensures IsSubsequence(WithoutMarks(word), word) && |WithoutMarks(word)| <= |word|
    ensures WithoutMarks(WithoutMarks(word)) == WithoutMarks(word)
  {
    FilterKeeps(word, NotIn(TashkeelMarks));
    FilterIdempotent(word, NotIn(TashkeelMarks));
  }

  /** The combined cleaning leaves neither kind of character, and the two steps may be taken in either order. */
  lemma CleaningCommutes(word: string)
    ensures RemoveAscii(WithoutMarks(word)) == WithoutMarks(RemoveAscii(word))
    ensures forall ch :: ch in RemoveAscii(WithoutMarks(word)) <==> ch in word && !IsAscii(ch) && ch !in TashkeelMarks
  {
    FilterCommute(word, NotIn(TashkeelMarks), NotAscii);
    FilterKeeps(word, NotIn(TashkeelMarks));
    FilterKeeps(WithoutMarks(word), NotAscii);
  }
}
