/**
 * The Wordle tile feedback that every agent computes, as one declarative reference definition.
 *
 * A guess position is green when the secret holds the same letter there ("matched"). Every other
 * occurrence of a letter in the guess competes for the secret's unmatched occurrences of that
 * letter, left to right: the k-th unmatched occurrence in the guess (counting from 0) is yellow when
 * the secret has more than k unmatched occurrences of it, and grey otherwise. Secret positions past
 * the end of the guess are never matched, so they only ever feed yellows.
 */
module FeedbackEngine {
  import opened Common

  /** A tile mark. `Other` stands for any other value a caller passes as observed feedback. */
  datatype Tile = Green | Yellow | Grey | Other(text: string)

  /** The three marks the engine itself produces. */
  predicate IsMark(t: Tile) { t.Green? || t.Yellow? || t.Grey? }

  const WordLength: nat := 5

  /** A word of the game: five characters. The corpora are taken to hold only such words. */
  type Word = w: string | |w| == WordLength witness "aaaaa"

  /** Position `j` of the guess is exactly right. */
  predicate Matched(g: string, s: string, j: int)
  {
    0 <= j < |g| && j < |s| && g[j] == s[j]
  }

  /** Occurrences of `c` in `s[..k]`. */
  function Occ(s: string, k: nat, c: char): nat
    requires k <= |s|
  {
    if k == 0 then 0 else Occ(s, k - 1, c) + (if s[k - 1] == c then 1 else 0)
  }

  /** Occurrences of `c` in `s`. */
  function Count(s: string, c: char): nat { Occ(s, |s|, c) }

  /** Matched positions below `k` holding `c`. */
  function GreensIn(g: string, s: string, k: nat, c: char): nat
  {
    if k == 0 then 0 else GreensIn(g, s, k - 1, c) + (if Matched(g, s, k - 1) && g[k - 1] == c then 1 else 0)
  }

  /** Unmatched occurrences of `c` in `g[..k]`. */
  function NonGreenBefore(g: string, s: string, k: nat, c: char): nat
    requires k <= |g|
  {
    if k == 0 then 0 else NonGreenBefore(g, s, k - 1, c) + (if g[k - 1] == c && !Matched(g, s, k - 1) then 1 else 0)
  }

  /** Unmatched occurrences of `c` in `s[..k]`. */
  function UnmatchedIn(g: string, s: string, k: nat, c: char): nat
    requires k <= |s|
  {
    if k == 0 then 0 else UnmatchedIn(g, s, k - 1, c) + (if s[k - 1] == c && !Matched(g, s, k - 1) then 1 else 0)
  }

  /** Occurrences of `c` in the secret that no green claims. */
  function Unmatched(g: string, s: string, c: char): nat { UnmatchedIn(g, s, |s|, c) }

  /** Unmatched occurrences of `c` in the secret still unclaimed once guess positions below `i` are marked. */
  function Remaining(g: string, s: string, i: nat, c: char): nat
    requires i <= |g|
  {
    var used := NonGreenBefore(g, s, i, c);
    if used < Unmatched(g, s, c) then Unmatched(g, s, c) - used else 0
  }

  function TileAt(g: string, s: string, i: nat): Tile
    requires i < |g|
  {
    if Matched(g, s, i) then Green
    else if NonGreenBefore(g, s, i, g[i]) < Unmatched(g, s, g[i]) then Yellow
    else Grey
  }

  /** The feedback for guess `g` against secret `s`, one tile per guess letter. */
  function Feedback(g: string, s: string): seq<Tile>
  {
    seq(|g|, i requires 0 <= i < |g| => TileAt(g, s, i))
  }

  /** Tiles `t` placed on letter `c` among the first `k` positions. */
  function TileCount(g: string, fb: seq<Tile>, k: nat, c: char, t: Tile): nat
    requires k <= |g| && k <= |fb|
  {
    if k == 0 then 0 else TileCount(g, fb, k - 1, c, t) + (if g[k - 1] == c && fb[k - 1] == t then 1 else 0)
  }

  /** The feedback has one of the three marks per guess letter, green exactly where the letters agree. */
  lemma FeedbackShape(g: string, s: string)
    ensures |Feedback(g, s)| == |g|
    ensures forall i :: 0 <= i < |g| ==> IsMark(Feedback(g, s)[i])
    ensures forall i :: 0 <= i < |g| ==> (Feedback(g, s)[i] == Green <==> i < |s| && g[i] == s[i])
  {
  }

  lemma {:induction false} GreensMonotone(g: string, s: string, i: nat, k: nat, c: char)
    requires i <= k
    ensures GreensIn(g, s, i, c) <= GreensIn(g, s, k, c)
    decreases k - i
  {
    if i < k {
      GreensMonotone(g, s, i, k - 1, c);
    }
  }

  /** No position at or past the end of either word is matched, so greens stop growing there. */
  lemma {:induction false} GreensStable(g: string, s: string, k: nat, c: char)
    requires k >= Min(|g|, |s|)
    ensures GreensIn(g, s, k, c) == GreensIn(g, s, Min(|g|, |s|), c)
    decreases k
  {
    if k > Min(|g|, |s|) {
      GreensStable(g, s, k - 1, c);
    }
  }

  /** Every occurrence of `c` in the secret is either claimed by a green or unmatched. */
  lemma {:induction false} SecretSplit(g: string, s: string, k: nat, c: char)
    requires k <= |s|
    ensures Occ(s, k, c) == GreensIn(g, s, k, c) + UnmatchedIn(g, s, k, c)
  {
    if k > 0 {
      SecretSplit(g, s, k - 1, c);
    }
  }

  /** Every occurrence of `c` in the guess is either green or unmatched. */
  lemma {:induction false} GuessSplit(g: string, s: string, k: nat, c: char)
    requires k <= |g|
    ensures Occ(g, k, c) == GreensIn(g, s, k, c) + NonGreenBefore(g, s, k, c)
  {
    if k > 0 {
      GuessSplit(g, s, k - 1, c);
    }
  }

  /** Once the greens are taken out of the secret's letter counts, the unmatched counts remain. */
  lemma UnmatchedAfterGreens(g: string, s: string, c: char)
    requires |g| <= |s|
    ensures Count(s, c) == GreensIn(g, s, |g|, c) + Unmatched(g, s, c)
  {
    SecretSplit(g, s, |s|, c);
    GreensStable(g, s, |s|, c);
  }

  lemma {:induction false} GreenTiles(g: string, s: string, k: nat, c: char)
    requires k <= |g|
    ensures TileCount(g, Feedback(g, s), k, c, Green) == GreensIn(g, s, k, c)
  {
    if k > 0 {
      GreenTiles(g, s, k - 1, c);
    }
  }

  /** The unmatched occurrences of a letter in the guess take the unmatched ones of the secret, first come first served. */
  lemma {:induction false} YellowTiles(g: string, s: string, k: nat, c: char)
    requires k <= |g|
    ensures TileCount(g, Feedback(g, s), k, c, Yellow) == Min(NonGreenBefore(g, s, k, c), Unmatched(g, s, c))
  {
    if k > 0 {
      YellowTiles(g, s, k - 1, c);
    }
  }

  /**
   * Repeated letters are accounted for: the green and yellow tiles on any letter number exactly
   * the smaller of its counts in the guess and in the secret.
   */
  lemma LetterAccounting(g: string, s: string, c: char)
    ensures TileCount(g, Feedback(g, s), |g|, c, Green) + TileCount(g, Feedback(g, s), |g|, c, Yellow)
            == Min(Count(g, c), Count(s, c))
  {
    GreenTiles(g, s, |g|, c);
    YellowTiles(g, s, |g|, c);
    GuessSplit(g, s, |g|, c);
    SecretSplit(g, s, |s|, c);
    GreensStable(g, s, |s|, c);
    GreensStable(g, s, |g|, c);
  }

  function AllGreen(n: nat): seq<Tile> { seq(n, _ => Green) }

  /** For words of equal length, the feedback is all green exactly when the guess is the secret. */
  lemma AllGreenIffSolved(g: string, s: string)
    requires |g| == |s|
    ensures Feedback(g, s) == AllGreen(|g|) <==> g == s
  {
    if Feedback(g, s) == AllGreen(|g|) {
      forall i | 0 <= i < |g| ensures g[i] == s[i] {
        assert Feedback(g, s)[i] == Green;
      }
    }
  }

  /**
   * The copy of the secret that the list-based implementations keep, once every matched position is
   * nulled, holds each letter exactly as often as the secret has it unmatched.
   */
  lemma {:induction false} NulledCopyCount(g: string, s: string, copy: seq<Option<char>>, k: nat, c: char)
    requires |copy| == |s| && k <= |s|
    requires forall j :: 0 <= j < |s| ==> copy[j] == (if Matched(g, s, j) then None else Some(s[j]))
    ensures multiset(copy[..k])[Some(c)] == UnmatchedIn(g, s, k, c)
  {
    if k > 0 {
      NulledCopyCount(g, s, copy, k - 1, c);
      assert copy[..k] == copy[..k - 1] + [copy[k - 1]];
    }
  }

  /** Example: "trace" against "crane" marks the r, a and e green, the c yellow and the t grey. */
  lemma TraceAgainstCrane()
    ensures Feedback("trace", "crane") == [Grey, Green, Green, Yellow, Green]
  {
    var g, s := "trace", "crane";
    assert UnmatchedIn(g, s, 5, 't') == 0;
    assert UnmatchedIn(g, s, 5, 'c') == 1;
    assert TileAt(g, s, 0) == Grey;
    assert TileAt(g, s, 3) == Yellow;
  }

  /** Marking guess position `i` uses up one unclaimed occurrence of its letter when it is unmatched and one is left. */
  lemma RemainingNext(g: string, s: string, i: nat, c: char)
    requires i < |g|
    ensures Remaining(g, s, i + 1, c)
            == if c == g[i] && !Matched(g, s, i) && Remaining(g, s, i, c) > 0 then Remaining(g, s, i, c) - 1
               else Remaining(g, s, i, c)
  {
  }

  /** An unmatched position is yellow exactly when an occurrence of its letter is still unclaimed. */
  lemma TileByRemaining(g: string, s: string, i: nat)
    requires i < |g|
    ensures TileAt(g, s, i) == if Matched(g, s, i) then Green else if Remaining(g, s, i, g[i]) > 0 then Yellow else Grey
  {
  }

  /** The list with its first entry holding `x` nulled, as `copy[copy.index(x)] = None` does when `x in copy`. */
  function NullFirst<T(==)>(copy: seq<Option<T>>, x: T): (r: seq<Option<T>>)
    ensures |r| == |copy|
  {
    if Some(x) in copy then copy[IndexOf(copy, Some(x)) := None] else copy
  }

  /** Nulling the first `x` removes exactly one `x`, when there is one, and leaves every other value's count. */
  lemma NullFirstCount<T>(copy: seq<Option<T>>, x: T, y: T)
    ensures Some(x) in copy <==> multiset(copy)[Some(x)] > 0
    ensures multiset(NullFirst(copy, x))[Some(y)]
            == multiset(copy)[Some(y)] - (if y == x && Some(x) in copy then 1 else 0)
  {
  }

  /** The copy of the secret that the list-based implementations make, with every matched position nulled. */
  function GreenNulled(g: string, s: string): (copy: seq<Option<char>>)
    ensures |copy| == |s|
  {
    seq(|s|, j requires 0 <= j < |s| => if Matched(g, s, j) then None else Some(s[j]))
  }

  /**
   * That copy once guess positions below `i` have been marked: each unmatched guess letter found in
   * the copy nulls the first entry holding it.
   */
  function CopyAfter(g: string, s: string, i: nat): (copy: seq<Option<char>>)
    requires i <= |g|
    ensures |copy| == |s|
  {
    if i == 0 then GreenNulled(g, s)
    else
      var prev := CopyAfter(g, s, i - 1);
      if Matched(g, s, i - 1) then prev else NullFirst(prev, g[i - 1])
  }

  /** The copy holds each letter exactly as often as it is still unclaimed. */
  lemma {:induction false} CopyAfterCount(g: string, s: string, i: nat, c: char)
    requires i <= |g|
    ensures multiset(CopyAfter(g, s, i))[Some(c)] == Remaining(g, s, i, c)
  {
    if i == 0 {
      GreenNulledCount(g, s, c);
    } else {
      var prev := CopyAfter(g, s, i - 1);
      CopyAfterCount(g, s, i - 1, c);
      CopyAfterCount(g, s, i - 1, g[i - 1]);
      RemainingNext(g, s, i - 1, c);
      NullFirstCount(prev, g[i - 1], c);
    }
  }

  lemma GreenNulledCount(g: string, s: string, c: char)
    ensures multiset(GreenNulled(g, s))[Some(c)] == Remaining(g, s, 0, c)
  {
    var copy := GreenNulled(g, s);
    NulledCopyCount(g, s, copy, |s|, c);
    assert copy[..|s|] == copy;
  }

  /** Position `i` is yellow exactly when it is unmatched and its letter is still in the copy. */
  lemma CopyAfterTile(g: string, s: string, i: nat)
    requires i < |g|
    ensures TileAt(g, s, i) == if Matched(g, s, i) then Green else if Some(g[i]) in CopyAfter(g, s, i) then Yellow else Grey
  {
    CopyAfterCount(g, s, i, g[i]);
    TileByRemaining(g, s, i);
  }

  /** The tiles after the first pass: green where matched, grey elsewhere. */
  function GreenMarks(g: string, s: string): (marks: seq<Tile>)
    ensures |marks| == |g|
  {
    seq(|g|, j requires 0 <= j < |g| => if Matched(g, s, j) then Green else Grey)
  }

  /** The tiles once the second pass has marked guess positions below `i`, alongside `CopyAfter`. */
  function MarksAfter(g: string, s: string, i: nat): (marks: seq<Tile>)
    requires i <= |g|
    ensures |marks| == |g|
  {
    if i == 0 then GreenMarks(g, s)
    else
      var prev := MarksAfter(g, s, i - 1);
      if !Matched(g, s, i - 1) && Some(g[i - 1]) in CopyAfter(g, s, i - 1) then prev[i - 1 := Yellow] else prev
  }

  /** After `i` steps the positions below `i` carry their final tile and the rest still show the first pass. */
  lemma {:induction false} MarksAfterAt(g: string, s: string, i: nat, j: nat)
    requires i <= |g| && j < |g|
    ensures MarksAfter(g, s, i)[j] == if j < i then TileAt(g, s, j) else if Matched(g, s, j) then Green else Grey
  {
    if i > 0 {
      MarksAfterAt(g, s, i - 1, j);
      if j == i - 1 {
        CopyAfterTile(g, s, j);
      }
    }
  }

  lemma MarksAfterTiles(g: string, s: string, i: nat)
    requires i <= |g|
    ensures forall j :: 0 <= j < |g| ==>
              MarksAfter(g, s, i)[j] == if j < i then TileAt(g, s, j) else if Matched(g, s, j) then Green else Grey
  {
    forall j | 0 <= j < |g| {
      MarksAfterAt(g, s, i, j);
    }
  }

  /** The two passes together compute the feedback. */
  lemma MarksAfterComplete(g: string, s: string)
    ensures MarksAfter(g, s, |g|) == Feedback(g, s)
  {
    MarksAfterTiles(g, s, |g|);
  }

  /** The unmatched guess letter at `i` is in the copy exactly when an occurrence of it is still unclaimed. */
  lemma CopyAfterHas(g: string, s: string, i: nat)
    requires i < |g|
    ensures Some(g[i]) in CopyAfter(g, s, i) <==> Remaining(g, s, i, g[i]) > 0
  {
    CopyAfterCount(g, s, i, g[i]);
    NullFirstCount(CopyAfter(g, s, i), g[i], g[i]);
  }

  /** A green on letter `g[i]` leaves at least one occurrence of it in the secret not yet claimed by earlier greens. */
  lemma GreenBelowCount(g: string, s: string, i: nat)
    requires |g| <= |s| && i < |g| && Matched(g, s, i)
    ensures GreensIn(g, s, i, g[i]) < Count(s, g[i])
  {
    UnmatchedAfterGreens(g, s, g[i]);
    GreensMonotone(g, s, i + 1, |g|, g[i]);
  }

  /** Those marks during the first pass: green at the matched positions below `i`, None elsewhere. */
  function GreensMarked(g: string, s: string, i: nat): (marks: seq<Option<Tile>>)
    requires i <= |g|
    ensures |marks| == |g|
  {
    if i == 0 then seq(|g|, _ => None)
    else
      var prev := GreensMarked(g, s, i - 1);
      if Matched(g, s, i - 1) then prev[i - 1 := Some(Green)] else prev
  }

  lemma {:induction false} GreensMarkedAt(g: string, s: string, i: nat, j: nat)
    requires i <= |g| && j < |g|
    ensures GreensMarked(g, s, i)[j] == if j < i && Matched(g, s, j) then Some(Green) else None
  {
    if i > 0 {
      GreensMarkedAt(g, s, i - 1, j);
    }
  }

  /** The first pass ends where the second starts. */
  lemma GreensMarkedComplete(g: string, s: string)
    ensures GreensMarked(g, s, |g|) == PendingMarks(g, s, 0)
  {
    forall j | 0 <= j < |g| ensures GreensMarked(g, s, |g|)[j] == PendingMarks(g, s, 0)[j] {
      GreensMarkedAt(g, s, |g|, j);
    }
  }

  /**
   * The marks of the implementations that start every position at None: after the first pass green
   * where matched and None elsewhere; each step of the second pass then fills one unmatched position.
   */
  function PendingMarks(g: string, s: string, i: nat): (marks: seq<Option<Tile>>)
    requires i <= |g|
    ensures |marks| == |g|
  {
    if i == 0 then seq(|g|, j requires 0 <= j < |g| => if Matched(g, s, j) then Some(Green) else None)
    else
      var prev := PendingMarks(g, s, i - 1);
      if Matched(g, s, i - 1) then prev
      else prev[i - 1 := Some(if Some(g[i - 1]) in CopyAfter(g, s, i - 1) then Yellow else Grey)]
  }

  lemma {:induction false} PendingMarksAt(g: string, s: string, i: nat, j: nat)
    requires i <= |g| && j < |g|
    ensures PendingMarks(g, s, i)[j] == if j < i then Some(TileAt(g, s, j)) else if Matched(g, s, j) then Some(Green) else None
  {
    if i > 0 {
      PendingMarksAt(g, s, i - 1, j);
      if j == i - 1 {
        CopyAfterTile(g, s, j);
      }
    }
  }

  /** Once every position is filled, the marks are the feedback. */
  lemma PendingMarksComplete(g: string, s: string)
    ensures forall j :: 0 <= j < |g| ==> PendingMarks(g, s, |g|)[j] == Some(Feedback(g, s)[j])
  {
    forall j | 0 <= j < |g| {
      PendingMarksAt(g, s, |g|, j);
    }
  }
}
