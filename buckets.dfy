/**
 * The bucket partitioner: the candidates that a guess cannot tell apart
 * from a given solution, because they earn the same grade.
 */
module Buckets {
  import opened Grading

  /** The entries of `xs` whose flag in `keep` is set, in their order in `xs`. */
  function Pick<T>(xs: seq<T>, keep: seq<bool>): seq<T>
    requires |keep| == |xs|
  {
    if xs == [] then []
    else Pick(xs[..|xs| - 1], keep[..|keep| - 1]) + (if keep[|keep| - 1] then [xs[|xs| - 1]] else [])
  }

  /** `a` is obtained from `b` by dropping some entries and keeping the order of the rest. */
  ghost predicate IsSubsequence<T>(a: seq<T>, b: seq<T>) {
    exists keep: seq<bool> :: |keep| == |b| && a == Pick(b, keep)
  }

  /**
   * The words of `left`, in their order, that earn against guess
   * `gbank[guess]` the same grade as solution `solution` does.
   */
  function BucketOf(guess: WordId, solution: WordId, left: seq<WordId>, gbank: Bank, sbank: Bank): (r: seq<WordId>)
    requires guess < |gbank| && solution < |sbank| && InBank(left, sbank)
    ensures |r| <= |left| && InBank(r, sbank)
    decreases |left|
  {
    if left == [] then []
    else
      var prev := BucketOf(guess, solution, left[..|left| - 1], gbank, sbank);
      var w := left[|left| - 1];
      if Score(gbank[guess], sbank[w]) == Score(gbank[guess], sbank[solution]) then prev + [w] else prev
  }

  /**
   * A word is in the bucket exactly when it is a candidate earning the same
   * grade as the solution; in particular a candidate solution is in its own bucket.
   */
  lemma {:induction false} BucketMember(guess: WordId, solution: WordId, left: seq<WordId>, gbank: Bank, sbank: Bank, w: WordId)
    requires guess < |gbank| && solution < |sbank| && InBank(left, sbank)
    ensures w in BucketOf(guess, solution, left, gbank, sbank)
      <==> w in left && w < |sbank| && Score(gbank[guess], sbank[w]) == Score(gbank[guess], sbank[solution])
    ensures solution in left ==> solution in BucketOf(guess, solution, left, gbank, sbank)
    decreases |left|
  {
    if left != [] {
      var front := left[..|left| - 1];
      assert InBank(front, sbank);
      BucketMember(guess, solution, front, gbank, sbank, w);
      BucketMember(guess, solution, front, gbank, sbank, solution);
      assert left == front + [left[|left| - 1]];
    }
  }

  /** Which entries of `left` share the grade of `solution`. */
  function SameGradeMask(guess: WordId, solution: WordId, left: seq<WordId>, gbank: Bank, sbank: Bank): (keep: seq<bool>)
    requires guess < |gbank| && solution < |sbank| && InBank(left, sbank)
    ensures |keep| == |left|
  {
    seq(|left|, k requires 0 <= k < |left| => Score(gbank[guess], sbank[left[k]]) == Score(gbank[guess], sbank[solution]))
  }

  /** A bucket keeps exactly the same-grade entries of `left`, in order. */
  lemma {:induction false} BucketIsPick(guess: WordId, solution: WordId, left: seq<WordId>, gbank: Bank, sbank: Bank)
    requires guess < |gbank| && solution < |sbank| && InBank(left, sbank)
    ensures BucketOf(guess, solution, left, gbank, sbank) == Pick(left, SameGradeMask(guess, solution, left, gbank, sbank))
    decreases |left|
  {
    if left != [] {
      var front := left[..|left| - 1];
      assert InBank(front, sbank);
      assert SameGradeMask(guess, solution, left, gbank, sbank)[..|left| - 1]
          == SameGradeMask(guess, solution, front, gbank, sbank);
      BucketIsPick(guess, solution, front, gbank, sbank);
    }
  }

  /** A bucket is a subsequence of the candidates it was drawn from. */
  lemma BucketIsSubsequence(guess: WordId, solution: WordId, left: seq<WordId>, gbank: Bank, sbank: Bank)
    requires guess < |gbank| && solution < |sbank| && InBank(left, sbank)
    ensures IsSubsequence(BucketOf(guess, solution, left, gbank, sbank), left)
  {
    BucketIsPick(guess, solution, left, gbank, sbank);
  }

  /** Two solutions with the same grade draw the same bucket. */
  lemma {:induction false} SameGradeSameBucket(guess: WordId, x: WordId, y: WordId, left: seq<WordId>, gbank: Bank, sbank: Bank)
    requires guess < |gbank| && x < |sbank| && y < |sbank| && InBank(left, sbank)
    requires Score(gbank[guess], sbank[x]) == Score(gbank[guess], sbank[y])
    ensures BucketOf(guess, x, left, gbank, sbank) == BucketOf(guess, y, left, gbank, sbank)
    decreases |left|
  {
    if left != [] {
      var front := left[..|left| - 1];
      assert InBank(front, sbank);
      SameGradeSameBucket(guess, x, y, front, gbank, sbank);
    }
  }

  /**
   * The buckets of one guess partition the candidates: every candidate lies
   * in its own bucket, and two buckets are either equal or disjoint.
   */
  lemma BucketsPartition(guess: WordId, x: WordId, y: WordId, left: seq<WordId>, gbank: Bank, sbank: Bank)
    requires guess < |gbank| && x < |sbank| && y < |sbank| && InBank(left, sbank)
    ensures x in left ==> x in BucketOf(guess, x, left, gbank, sbank)
    ensures var b1, b2 := BucketOf(guess, x, left, gbank, sbank), BucketOf(guess, y, left, gbank, sbank);
      b1 == b2 || forall w :: w in b1 ==> w !in b2
  {
    BucketMember(guess, x, left, gbank, sbank, x);
    if Score(gbank[guess], sbank[x]) == Score(gbank[guess], sbank[y]) {
      SameGradeSameBucket(guess, x, y, left, gbank, sbank);
    } else {
      var b1, b2 := BucketOf(guess, x, left, gbank, sbank), BucketOf(guess, y, left, gbank, sbank);
      forall w | w in b1 ensures w !in b2 {
        BucketMember(guess, x, left, gbank, sbank, w);
        BucketMember(guess, y, left, gbank, sbank, w);
      }
    }
  }

  /**
   * Collects the words of `left` whose grade against `guess` equals the
   * grade of `solution`.
   */
  method Bucket(guess: WordId, solution: WordId, left: seq<WordId>, gbank: Bank, sbank: Bank) returns (bkt: seq<WordId>)
    requires guess < |gbank| && solution < |sbank| && InBank(left, sbank)
    ensures bkt == BucketOf(guess, solution, left, gbank, sbank)
  {
    var guessMark := SolutionCompare(guess, solution, gbank, sbank);
    bkt := [];
    for k := 0 to |left|
      invariant InBank(left[..k], sbank)
      invariant bkt == BucketOf(guess, solution, left[..k], gbank, sbank)
    {
      var word := left[k];
      var wmark := SolutionCompare(guess, word, gbank, sbank);
      if GradeEq(wmark, guessMark) {
        bkt := bkt + [word];
      }
      assert left[..k + 1][..k] == left[..k];
    }
    assert left[..|left|] == left;
  }

  /**
   * As `Bucket`, and also sets `used[w]` for every word `w` placed in the bucket.
   */
  method BucketAndUpdate(guess: WordId, solution: WordId, left: seq<WordId>, used: array<bool>, gbank: Bank, sbank: Bank)
    returns (bkt: seq<WordId>)
    requires guess < |gbank| && solution < |sbank| && InBank(left, sbank)
    requires forall k :: 0 <= k < |left| ==> left[k] < used.Length
    modifies used
    ensures bkt == BucketOf(guess, solution, left, gbank, sbank)
    ensures forall w :: 0 <= w < used.Length ==> used[w] == (old(used[w]) || w in bkt)
  {
    var guessMark := SolutionCompare(guess, solution, gbank, sbank);
    bkt := [];
    for k := 0 to |left|
      invariant InBank(left[..k], sbank)
      invariant bkt == BucketOf(guess, solution, left[..k], gbank, sbank)
      invariant forall w :: 0 <= w < used.Length ==> used[w] == (old(used[w]) || w in bkt)
    {
      var word := left[k];
      var wmark := SolutionCompare(guess, word, gbank, sbank);
      if GradeEq(wmark, guessMark) {
        bkt := bkt + [word];
        used[word] := true;
      }
      assert left[..k + 1][..k] == left[..k];
    }
    assert left[..|left|] == left;
  }
}
