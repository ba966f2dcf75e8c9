/**
 * The grading engine: the marks a guess word earns against a solution word.
 *
 * `Score` is the reference definition (frequency-counted marking: a guess
 * letter that is not at its place is Yellow when it is among the first k
 * unmatched copies of that letter in the guess, k being the number of
 * unmatched copies in the solution). `SolutionCompare` is the two-pass
 * algorithm over a five-slot mark buffer, proved to compute `Score`.
 */
module Grading {

  /** The three marks a letter can earn. */
  datatype Mark = Grey | Yellow | Green

  /** Every word in both banks has exactly five letters. */
  type Word = w: string | |w| == 5 witness "aaaaa"

  /** One mark per letter position of the guess. */
  type Grade = m: seq<Mark> | |m| == 5 witness [Grey, Grey, Grey, Grey, Grey]

  /** An index into a word bank. */
  type WordId = nat

  /** An ordered word list; a word's position is its WordId. */
  type Bank = seq<Word>

  const AllGreen: Grade := [Green, Green, Green, Green, Green]

  /** Every id in `ids` indexes `bank`. */
  predicate InBank(ids: seq<WordId>, bank: Bank) {
    forall k :: 0 <= k < |ids| ==> ids[k] < |bank|
  }

  /** Number of positions k < n where `w` holds the letter `c` and `o` holds another letter. */
  function Unmatched(w: string, o: string, c: char, n: nat): (u: nat)
    requires n <= |w| && |w| == |o|
    ensures u <= n
  {
    if n == 0 then 0
    else Unmatched(w, o, c, n - 1) + (if w[n - 1] == c && w[n - 1] != o[n - 1] then 1 else 0)
  }

  /**
   * The mark of guess position j when only the unmatched letters among the
   * first n solution positions may be claimed.
   */
  function MarkWithin(guess: Word, solution: Word, j: nat, n: nat): Mark
    requires j < 5 && n <= 5
  {
    if guess[j] == solution[j] then Green
    else if Unmatched(guess, solution, guess[j], j) < Unmatched(solution, guess, guess[j], n) then Yellow
    else Grey
  }

  /** The reference grade of `guess` against `solution`. */
  function Score(guess: Word, solution: Word): (r: Grade)
    ensures forall j :: 0 <= j < 5 ==> (r[j] == Green <==> guess[j] == solution[j])
    ensures forall j :: 0 <= j < 5 && r[j] == Yellow ==> guess[j] != solution[j]
  {
    seq(5, j requires 0 <= j < 5 => MarkWithin(guess, solution, j, 5))
  }

  /** Two grades are equal when they agree position by position. */
  function GradeEq(a: Grade, b: Grade): (r: bool)
    ensures r <==> a == b
  {
    forall i :: 0 <= i < 5 ==> a[i] == b[i]
  }

  /** The mark buffer `m` holds the marks once solution positions [0, i) have been processed. */
  ghost predicate Progress(m: seq<Mark>, guess: Word, solution: Word, i: nat)
    requires i <= 5
  {
    |m| == 5 && forall j :: 0 <= j < 5 ==> m[j] == MarkWithin(guess, solution, j, i)
  }

  /**
   * Grades guess word `gbank[guess]` against solution word `sbank[solution]`:
   * first every position whose letters agree turns Green, then every
   * solution position that is not Green turns the first still-Grey guess
   * position holding its letter Yellow.
   */
  method SolutionCompare(guess: WordId, solution: WordId, gbank: Bank, sbank: Bank) returns (grade: Grade)
    requires guess < |gbank| && solution < |sbank|
    ensures grade == Score(gbank[guess], sbank[solution])
  {
    var r := new Mark[5](_ => Grey);
    var g := gbank[guess];
    var s := sbank[solution];
    for i := 0 to 5
      invariant forall k :: 0 <= k < 5 ==> r[k] == (if k < i && s[k] == g[k] then Green else Grey)
    {
      if s[i] == g[i] {
        r[i] := Green;
      }
    }
    assert Progress(r[..], g, s, 0);
    for i := 0 to 5
      invariant Progress(r[..], g, s, i)
    {
      var c := s[i];
      if r[i] == Green {
        SkipStep(g, s, r[..], i);
        continue;
      }
      ghost var before := r[..];
      var j := ClaimFirstGrey(r, g, c);
      if j < 5 {
        ClaimStep(g, s, before, i, j);
      } else {
        NoClaimStep(g, s, before, i);
      }
    }
    grade := r[..];
  }

  /**
   * Turns the first Grey position of `r` whose guess letter is `c` Yellow and
   * returns it, or returns 5 and changes nothing when there is none.
   */
  method ClaimFirstGrey(r: array<Mark>, g: Word, c: char) returns (j: nat)
    requires r.Length == 5
    modifies r
    ensures j <= 5
    ensures forall k :: 0 <= k < j ==> !(old(r[k]) == Grey && g[k] == c)
    ensures j < 5 ==> old(r[j]) == Grey && g[j] == c && r[..] == old(r[..])[j := Yellow]
    ensures j == 5 ==> r[..] == old(r[..])
  {
    j := 0;
    while j < 5
      invariant 0 <= j <= 5
      invariant r[..] == old(r[..])
      invariant forall k :: 0 <= k < j ==> !(r[k] == Grey && g[k] == c)
    {
      if r[j] == Grey && c == g[j] {
        r[j] := Yellow;
        return;
      }
      j := j + 1;
    }
  }

  lemma {:induction false} UnmatchedMonotone(w: string, o: string, c: char, a: nat, b: nat)
    requires a <= b <= |w| && |w| == |o|
    ensures Unmatched(w, o, c, a) <= Unmatched(w, o, c, b)
    decreases b
  {
    if a < b {
      UnmatchedMonotone(w, o, c, a, b - 1);
    }
  }

  /** A positive count has a last counted position, just below which the count is one less. */
  lemma {:induction false} LastUnmatched(w: string, o: string, c: char, n: nat) returns (k: nat)
    requires n <= |w| && |w| == |o| && Unmatched(w, o, c, n) > 0
    ensures k < n && w[k] == c && w[k] != o[k] && Unmatched(w, o, c, k) + 1 == Unmatched(w, o, c, n)
  {
    if w[n - 1] == c && w[n - 1] != o[n - 1] {
      k := n - 1;
    } else {
      k := LastUnmatched(w, o, c, n - 1);
    }
  }

  /** A Green solution position claims nothing. */
  lemma SkipStep(g: Word, s: Word, m: seq<Mark>, i: nat)
    requires i < 5 && Progress(m, g, s, i) && m[i] == Green
    ensures Progress(m, g, s, i + 1)
  {
    assert g[i] == s[i];
    forall j | 0 <= j < 5 ensures m[j] == MarkWithin(g, s, j, i + 1) {
      assert Unmatched(s, g, g[j], i + 1) == Unmatched(s, g, g[j], i);
    }
  }

  /** A non-Green solution position claims the first Grey guess position holding its letter. */
  lemma ClaimStep(g: Word, s: Word, m: seq<Mark>, i: nat, j: nat)
    requires i < 5 && j < 5 && Progress(m, g, s, i)
    requires m[i] != Green && m[j] == Grey && g[j] == s[i]
    requires forall k :: 0 <= k < j ==> !(m[k] == Grey && g[k] == s[i])
    ensures Progress(m[j := Yellow], g, s, i + 1)
  {
    var c := s[i];
    var u := Unmatched(s, g, c, i);
    assert m[i] == MarkWithin(g, s, i, i);
    assert Unmatched(s, g, c, i + 1) == u + 1;
    assert m[j] == MarkWithin(g, s, j, i);
    assert Unmatched(g, s, c, j) == u by {
      if Unmatched(g, s, c, j) > 0 {
        var k := LastUnmatched(g, s, c, j);
        assert m[k] == MarkWithin(g, s, k, i);
      }
    }
    var m' := m[j := Yellow];
    forall k | 0 <= k < 5 ensures m'[k] == MarkWithin(g, s, k, i + 1) {
      assert m[k] == MarkWithin(g, s, k, i);
      if g[k] != c {
        assert Unmatched(s, g, g[k], i + 1) == Unmatched(s, g, g[k], i);
      } else if k != j && m[k] == Grey {
        assert j < k;
        UnmatchedMonotone(g, s, c, j + 1, k);
      }
    }
  }

  /** A non-Green solution position with no Grey guess position for its letter claims nothing. */
  lemma NoClaimStep(g: Word, s: Word, m: seq<Mark>, i: nat)
    requires i < 5 && Progress(m, g, s, i) && m[i] != Green
    requires forall k :: 0 <= k < 5 ==> !(m[k] == Grey && g[k] == s[i])
    ensures Progress(m, g, s, i + 1)
  {
    var c := s[i];
    assert m[i] == MarkWithin(g, s, i, i);
    assert Unmatched(s, g, c, i + 1) == Unmatched(s, g, c, i) + 1;
    forall k | 0 <= k < 5 ensures m[k] == MarkWithin(g, s, k, i + 1) {
      assert m[k] == MarkWithin(g, s, k, i);
      if g[k] != c {
        assert Unmatched(s, g, g[k], i + 1) == Unmatched(s, g, g[k], i);
      }
    }
  }

  // ---------------------------------------------------------------------------
  // Properties of the grade

  /** A word graded against itself is all Green. */
  lemma ScoreSelf(w: Word)
    ensures Score(w, w) == AllGreen
  {
  }

  /** A grade is all Green exactly when the two words are the same word. */
  lemma AllGreenIffSameWord(a: Word, b: Word)
    ensures Score(a, b) == AllGreen <==> a == b
  {
    if Score(a, b) == AllGreen {
      forall j | 0 <= j < 5 ensures a[j] == b[j] {
        assert Score(a, b)[j] == Green;
      }
    }
  }

  function Min(a: nat, b: nat): nat {
    if a <= b then a else b
  }

  /** Number of positions k < n of the grade `r` that are Yellow on a guess letter `c`. */
  function YellowsOf(r: Grade, guess: Word, c: char, n: nat): nat
    requires n <= 5
  {
    if n == 0 then 0
    else YellowsOf(r, guess, c, n - 1) + (if r[n - 1] == Yellow && guess[n - 1] == c then 1 else 0)
  }

  /** Number of Yellow positions k < n of the grade `r`. */
  function Yellows(r: Grade, n: nat): nat
    requires n <= 5
  {
    if n == 0 then 0 else Yellows(r, n - 1) + (if r[n - 1] == Yellow then 1 else 0)
  }

  /** Number of positions k < n where the two words differ, that is, the non-Green positions. */
  function Mismatches(a: Word, b: Word, n: nat): nat
    requires n <= 5
  {
    if n == 0 then 0 else Mismatches(a, b, n - 1) + (if a[n - 1] != b[n - 1] then 1 else 0)
  }

  lemma {:induction false} YellowsOfPrefix(g: Word, s: Word, c: char, n: nat)
    requires n <= 5
    ensures YellowsOf(Score(g, s), g, c, n) == Min(Unmatched(g, s, c, n), Unmatched(s, g, c, 5))
  {
    if n > 0 {
      YellowsOfPrefix(g, s, c, n - 1);
    }
  }

  /**
   * For each letter, the Yellows on that letter are as many as the unmatched
   * copies in the guess, capped by the unmatched copies in the solution: each
   * non-Green solution position claims at most one guess position.
   */
  lemma YellowsPerLetter(g: Word, s: Word, c: char)
    ensures YellowsOf(Score(g, s), g, c, 5) == Min(Unmatched(g, s, c, 5), Unmatched(s, g, c, 5))
    ensures YellowsOf(Score(g, s), g, c, 5) <= Unmatched(s, g, c, 5)
  {
    YellowsOfPrefix(g, s, c, 5);
  }

  lemma {:induction false} YellowsPrefixBound(g: Word, s: Word, n: nat)
    requires n <= 5
    ensures Yellows(Score(g, s), n) <= Mismatches(g, s, n)
  {
    if n > 0 {
      YellowsPrefixBound(g, s, n - 1);
    }
  }

  /** There are never more Yellow positions than non-Green positions. */
  lemma YellowsAtMostMismatches(g: Word, s: Word)
    ensures Yellows(Score(g, s), 5) <= Mismatches(g, s, 5)
  {
    YellowsPrefixBound(g, s, 5);
  }

  /** A Yellow guess letter is out of place and matches a non-Green solution position. */
  lemma YellowHasSource(g: Word, s: Word, j: nat)
    requires j < 5 && Score(g, s)[j] == Yellow
    ensures g[j] != s[j]
    ensures exists i :: 0 <= i < 5 && s[i] == g[j] && s[i] != g[i]
  {
    assert MarkWithin(g, s, j, 5) == Yellow;
    var i := LastUnmatched(s, g, g[j], 5);
  }

  /** Guess "mario" against solution "slane": only the 'a' is present elsewhere. */
  lemma CompareMarioSlane()
    ensures Score("mario", "slane") == [Grey, Yellow, Grey, Grey, Grey]
  {
    var g: Word, s: Word := "mario", "slane";
    assert Unmatched(s, g, 'a', 5) == 1;
    assert Unmatched(s, g, 'm', 5) == 0 && Unmatched(s, g, 'r', 5) == 0;
    assert Unmatched(s, g, 'i', 5) == 0 && Unmatched(s, g, 'o', 5) == 0;
  }

  /** Guess "earef" against solution "maree": the first 'e' takes the one unmatched 'e'. */
  lemma CompareEarefMaree()
    ensures Score("earef", "maree") == [Yellow, Green, Green, Green, Grey]
  {
    var g: Word, s: Word := "earef", "maree";
    assert Unmatched(s, g, 'e', 5) == 1;
    assert Unmatched(g, s, 'e', 0) == 0;
    assert Unmatched(s, g, 'f', 5) == 0;
  }

  /** Guess "speed" against solution "erase": both 'e's are present elsewhere, as the solution has two. */
  lemma CompareSpeedErase()
    ensures Score("speed", "erase") == [Yellow, Grey, Yellow, Yellow, Grey]
  {
    var g: Word, s: Word := "speed", "erase";
    assert Unmatched(s, g, 'e', 5) == 2;
    assert Unmatched(s, g, 's', 5) == 1;
    assert Unmatched(s, g, 'p', 5) == 0;
    assert Unmatched(s, g, 'd', 5) == 0;
    assert Unmatched(g, s, 'e', 3) == 1;
  }
}
