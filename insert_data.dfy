/**
 * Merging new Arabic words into the word list (data/arabic/insert_data.py, lines 13-17): each new
 * five-letter word not yet listed is appended, then the list is sorted in place.
 */
module InsertData {
  import opened Common

  /** Python's `a <= b` on strings: code point by code point, a proper prefix first. */
  predicate LexLessEq(a: string, b: string)
  {
    a == [] || (b != [] && (a[0] < b[0] || (a[0] == b[0] && LexLessEq(a[1..], b[1..]))))
  }

  /** Any two strings are ordered one way or the other. */
  lemma {:induction false} LexTotal(a: string, b: string)
    ensures LexLessEq(a, b) || LexLessEq(b, a)
  {
    if a != [] && b != [] && a[0] == b[0] {
      LexTotal(a[1..], b[1..]);
    }
  }

  lemma {:induction false} LexTransitive(a: string, b: string, c: string)
    requires LexLessEq(a, b) && LexLessEq(b, c)
    ensures LexLessEq(a, c)
  {
    if a != [] && b != [] && c != [] && a[0] == b[0] && b[0] == c[0] {
      LexTransitive(a[1..], b[1..], c[1..]);
    }
  }

  /** Each neighbour pair in order. */
  predicate AdjacentSorted(s: seq<string>)
  {
    forall k :: 0 < k < |s| ==> LexLessEq(s[k - 1], s[k])
  }

  predicate Sorted(s: seq<string>)
  {
    forall p, q :: 0 <= p < q < |s| ==> LexLessEq(s[p], s[q])
  }

  /** Ordered neighbours make an ordered list. */
  lemma {:induction false} AdjacentSortedIsSorted(s: seq<string>)
    requires AdjacentSorted(s)
    ensures Sorted(s)
  {
    if |s| > 1 {
      var init := s[..|s| - 1];
      AdjacentSortedIsSorted(init);
      forall p | 0 <= p < |s| - 1 ensures LexLessEq(s[p], s[|s| - 1]) {
        if p < |s| - 2 {
          assert LexLessEq(init[p], init[|s| - 2]);
          LexTransitive(s[p], s[|s| - 2], s[|s| - 1]);
        }
      }
    }
  }

  /** The list after the loop: each new word of length five not already present appended in turn. */
  function Merged(current: seq<string>, added: seq<string>): seq<string>
  {
    if added == [] then current
    else
      var m := Merged(current, added[..|added| - 1]);
      var word := added[|added| - 1];
      if |word| == 5 && word !in m then m + [word] else m
  }

  /** The merge keeps the current list as a prefix. */
  lemma {:induction false} MergedPrefix(current: seq<string>, added: seq<string>)
    ensures |Merged(current, added)| >= |current| && Merged(current, added)[..|current|] == current
  {
    if added != [] {
      var m := Merged(current, added[..|added| - 1]);
      MergedPrefix(current, added[..|added| - 1]);
      assert (m + [added[|added| - 1]])[..|current|] == m[..|current|];
    }
  }

  /** The merge adds every new five-letter word and nothing else. */
  lemma {:induction false} MergedMembers(current: seq<string>, added: seq<string>)
    ensures forall w :: w in Merged(current, added) <==> w in current || (w in added && |w| == 5)
  {
    if added != [] {
      var init, word := added[..|added| - 1], added[|added| - 1];
      MergedMembers(current, init);
      assert added == init + [word];
    }
  }

  /** The words the merge appends are distinct and were not listed before. */
  lemma {:induction false} MergedFresh(current: seq<string>, added: seq<string>)
    ensures |Merged(current, added)| >= |current|
    ensures NoDuplicates(Merged(current, added)[|current|..])
    ensures forall w :: w in Merged(current, added)[|current|..] ==> w !in current
  {
    if added != [] {
      var init, word := added[..|added| - 1], added[|added| - 1];
      var m := Merged(current, init);
      MergedFresh(current, init);
      MergedPrefix(current, init);
      if |word| == 5 && word !in m {
        var tail := m[|current|..];
        assert (m + [word])[|current|..] == tail + [word];
        assert forall w :: w in tail ==> w in m;
        assert forall w :: w in current ==> w in m by {
          forall w | w in current ensures w in m {
            var i :| 0 <= i < |current| && current[i] == w;
            assert m[..|current|][i] == w;
          }
        }
      }
    }
  }

  /** The loop over `new` appending each five-letter word not yet in `current`; `added` is `new`. */
  method Merge(current0: seq<string>, added: seq<string>) returns (current: seq<string>)
    ensures current == Merged(current0, added)
  {
    current := current0;
    for k := 0 to |added|
      invariant current == Merged(current0, added[..k])
    {
      var word := added[k];
      assert added[..k + 1][..k] == added[..k];
      if |word| == 5 && word !in current {
        current := current + [word];
      }
    }
    assert added[..|added|] == added;
  }

  /** `current.sort()`: insertion sort in place, by Python's string order. */
  method SortWords(a: array<string>)
    modifies a
    ensures AdjacentSorted(a[..])
    ensures multiset(a[..]) == multiset(old(a[..]))
  {
    for i := 0 to a.Length
      invariant forall k :: 0 < k < i ==> LexLessEq(a[k - 1], a[k])
      invariant multiset(a[..]) == multiset(old(a[..]))
    {
      InsertLast(a, i);
    }
  }

  /** Moves `a[i]` down past every larger word, so that `a[..i + 1]` is in order. */
  method InsertLast(a: array<string>, i: nat)
    requires i < a.Length && forall k :: 0 < k < i ==> LexLessEq(a[k - 1], a[k])
    modifies a
    ensures forall k :: 0 < k <= i ==> LexLessEq(a[k - 1], a[k])
    ensures forall k :: i < k < a.Length ==> a[k] == old(a[k])
    ensures multiset(a[..]) == multiset(old(a[..]))
  {
    var j := i;
    while j > 0 && !LexLessEq(a[j - 1], a[j])
      invariant 0 <= j <= i
      invariant forall k :: 0 < k <= i && k != j ==> LexLessEq(a[k - 1], a[k])
      invariant j < i ==> LexLessEq(a[j], a[j + 1])
      invariant 0 < j < i ==> LexLessEq(a[j - 1], a[j + 1])
      invariant forall k :: i < k < a.Length ==> a[k] == old(a[k])
      invariant multiset(a[..]) == multiset(old(a[..]))
    {
      LexTotal(a[j - 1], a[j]);
      Swap(a, j);
      j := j - 1;
    }
  }

  /** Exchanges `a[j - 1]` and `a[j]`. */
  method Swap(a: array<string>, j: nat)
    requires 0 < j < a.Length
    modifies a
    ensures a[j - 1] == old(a[j]) && a[j] == old(a[j - 1])
    ensures forall k :: 0 <= k < a.Length && k != j - 1 && k != j ==> a[k] == old(a[k])
    ensures multiset(a[..]) == multiset(old(a[..]))
  {
    a[j - 1], a[j] := a[j], a[j - 1];
  }

  /** Lines 13-17: the merged list, sorted. */
  method InsertWords(current0: seq<string>, added: seq<string>) returns (current: seq<string>)
    ensures Sorted(current)
    ensures multiset(current) == multiset(Merged(current0, added))
  {
    var merged := Merge(current0, added);
    var a := new string[|merged|](i requires 0 <= i < |merged| => merged[i]);
    assert a[..] == merged;
    SortWords(a);
    current := a[..];
    AdjacentSortedIsSorted(current);
  }

  /** The sorted result holds every word already listed, every new five-letter word, and nothing else. */
  lemma InsertWordsContents(current0: seq<string>, added: seq<string>, result: seq<string>)
    requires multiset(result) == multiset(Merged(current0, added))
    ensures forall w :: w in current0 ==> w in result
    ensures forall w :: w in added && |w| == 5 ==> w in result
    ensures forall w :: w in result ==> w in current0 || (w in added && |w| == 5)
  {
    MergedMembers(current0, added);
    var m := Merged(current0, added);
    forall w ensures w in result <==> w in m {
      assert w in result <==> w in multiset(result);
      assert w in m <==> w in multiset(m);
    }
  }
}
