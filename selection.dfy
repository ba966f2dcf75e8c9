/**
 * The guess selector of `sm_word`: a per-guess accumulator folded over the
 * candidates, then the first index holding the smallest non-zero value.
 *
 * For each candidate `sol`, one bucket is drawn per candidate `left[k]`
 * (graded with the solution bank on both sides); each guess then takes the
 * length of the first of those buckets whose first word earns, against the
 * guess, the grade `sol` earns, and keeps the larger of that and its
 * accumulated value.
 */
module Selection {
  import opened Wrappers
  import opened Grading
  import opened Buckets

  function Max(a: nat, b: nat): (m: nat)
    ensures m >= a && m >= b && (m == a || m == b)
  {
    if a >= b then a else b
  }

  /** The accumulator the fold starts from: one zero per guess. */
  function Zeros(n: nat): (z: seq<nat>)
    ensures |z| == n && forall i :: 0 <= i < n ==> z[i] == 0
  {
    seq(n, _ => 0)
  }

  /** Element-wise maximum, the merge of two partial accumulators. */
  function Merge(a: seq<nat>, b: seq<nat>): (r: seq<nat>)
    requires |a| == |b|
    ensures |r| == |a|
  {
    seq(|a|, i requires 0 <= i < |a| => Max(a[i], b[i]))
  }

  /** Every bucket is non-empty and its words index the solution bank. */
  predicate Claimable(bkts: seq<seq<WordId>>, sbank: Bank) {
    forall k :: 0 <= k < |bkts| ==> |bkts[k]| > 0 && InBank(bkts[k], sbank)
  }

  /**
   * The length of the first bucket at or after `from` whose first word earns
   * `target` against `gw`, or 0 when there is none.
   */
  function FirstMatchLen(gw: Word, target: Grade, bkts: seq<seq<WordId>>, sbank: Bank, from: nat): (len: nat)
    requires from <= |bkts| && Claimable(bkts, sbank)
    ensures len == 0 <==> forall k :: from <= k < |bkts| ==> Score(gw, sbank[bkts[k][0]]) != target
    ensures len > 0 ==> exists k :: from <= k < |bkts| && len == |bkts[k]| && Score(gw, sbank[bkts[k][0]]) == target
    decreases |bkts| - from
  {
    if from == |bkts| then 0
    else if Score(gw, sbank[bkts[from][0]]) == target then |bkts[from]|
    else FirstMatchLen(gw, target, bkts, sbank, from + 1)
  }

  /**
   * The index of the first bucket at or after `from` whose first word earns
   * `target` against `gw`, or `|bkts|` when there is none.
   */
  function FirstMatchIndex(gw: Word, target: Grade, bkts: seq<seq<WordId>>, sbank: Bank, from: nat): (k: nat)
    requires from <= |bkts| && Claimable(bkts, sbank)
    ensures from <= k <= |bkts|
    ensures k < |bkts| ==> Score(gw, sbank[bkts[k][0]]) == target
    ensures forall k' :: from <= k' < k ==> Score(gw, sbank[bkts[k'][0]]) != target
    decreases |bkts| - from
  {
    if from == |bkts| then from
    else if Score(gw, sbank[bkts[from][0]]) == target then from
    else
      var k := FirstMatchIndex(gw, target, bkts, sbank, from + 1);
      assert forall k' :: from < k' < k ==> Score(gw, sbank[bkts[k'][0]]) != target;
      k
  }

  /** `FirstMatchLen` is the length of the first matching bucket, as the `break` takes it. */
  lemma {:induction false} FirstMatchLenAt(gw: Word, target: Grade, bkts: seq<seq<WordId>>, sbank: Bank, from: nat)
    requires from <= |bkts| && Claimable(bkts, sbank)
    ensures var k := FirstMatchIndex(gw, target, bkts, sbank, from);
      FirstMatchLen(gw, target, bkts, sbank, from) == if k < |bkts| then |bkts[k]| else 0
    decreases |bkts| - from
  {
    if from < |bkts| && Score(gw, sbank[bkts[from][0]]) != target {
      FirstMatchLenAt(gw, target, bkts, sbank, from + 1);
    }
  }

  /** One step of the scan: a matching bucket ends it, any other passes it on. */
  lemma FirstMatchLenUnfold(gw: Word, target: Grade, bkts: seq<seq<WordId>>, sbank: Bank, from: nat)
    requires from < |bkts| && Claimable(bkts, sbank)
    ensures FirstMatchLen(gw, target, bkts, sbank, from)
      == if Score(gw, sbank[bkts[from][0]]) == target then |bkts[from]| else FirstMatchLen(gw, target, bkts, sbank, from + 1)
  {
  }

  /** The buckets drawn for candidate `sol`: one per candidate `left[k]`, used as the guess. */
  function SolutionBuckets(sol: WordId, left: seq<WordId>, sbank: Bank): (bkts: seq<seq<WordId>>)
    requires sol < |sbank| && InBank(left, sbank)
    ensures |bkts| == |left|
  {
    seq(|left|, k requires 0 <= k < |left| => BucketOf(left[k], sol, left, sbank, sbank))
  }

  /** Each of `sol`'s buckets holds `sol` itself, so none is empty. */
  lemma SolutionBucketsClaimable(sol: WordId, left: seq<WordId>, sbank: Bank)
    requires sol in left && InBank(left, sbank)
    ensures Claimable(SolutionBuckets(sol, left, sbank), sbank)
  {
    var bkts := SolutionBuckets(sol, left, sbank);
    forall k | 0 <= k < |bkts| ensures |bkts[k]| > 0 && InBank(bkts[k], sbank) {
      BucketMember(left[k], sol, left, sbank, sbank, sol);
    }
  }

  /** What candidate `sol` contributes to each guess's accumulator. */
  function Contribution(sol: WordId, left: seq<WordId>, gbank: Bank, sbank: Bank): (c: seq<nat>)
    requires sol in left && InBank(left, sbank)
    ensures |c| == |gbank|
  {
    var bkts := SolutionBuckets(sol, left, sbank);
    SolutionBucketsClaimable(sol, left, sbank);
    seq(|gbank|, g requires 0 <= g < |gbank| => FirstMatchLen(gbank[g], Score(gbank[g], sbank[sol]), bkts, sbank, 0))
  }

  /** The sequential fold of the candidates `sols` into an accumulator. */
  function Fold(sols: seq<WordId>, left: seq<WordId>, gbank: Bank, sbank: Bank): (acc: seq<nat>)
    requires forall k :: 0 <= k < |sols| ==> sols[k] in left
    requires InBank(left, sbank)
    ensures |acc| == |gbank|
    decreases |sols|
  {
    if sols == [] then Zeros(|gbank|)
    else Merge(Fold(sols[..|sols| - 1], left, gbank, sbank), Contribution(sols[|sols| - 1], left, gbank, sbank))
  }

  /** The accumulator `sm_word` ranks the guesses by. */
  function Accumulator(left: seq<WordId>, gbank: Bank, sbank: Bank): (acc: seq<nat>)
    requires InBank(left, sbank)
    ensures |acc| == |gbank|
  {
    Fold(left, left, gbank, sbank)
  }

  /** The smallest non-zero value of `s`, or None when every value is zero. */
  function MinNonZero(s: seq<nat>): (r: Option<nat>)
    ensures r.None? <==> forall i :: 0 <= i < |s| ==> s[i] == 0
    ensures r.Some? ==> r.value != 0 && r.value in s
    ensures r.Some? ==> forall i :: 0 <= i < |s| && s[i] != 0 ==> r.value <= s[i]
  {
    if s == [] then None
    else
      var rest := MinNonZero(s[1..]);
      if s[0] == 0 then rest
      else if rest.None? || s[0] <= rest.value then Some(s[0])
      else rest
  }

  /** The first index of `s` holding `v`, or None when `v` does not occur. */
  function FirstPosition(s: seq<nat>, v: nat): (r: Option<nat>)
    ensures r.None? <==> v !in s
    ensures r.Some? ==> r.value < |s| && s[r.value] == v && forall i :: 0 <= i < r.value ==> s[i] != v
  {
    if s == [] then None
    else if s[0] == v then Some(0)
    else
      match FirstPosition(s[1..], v)
      case None => None
      case Some(p) => Some(p + 1)
  }

  /**
   * The guess `sm_word` returns: the first index holding the smallest non-zero
   * accumulated value.
   */
  function SelectGuess(left: seq<WordId>, gbank: Bank, sbank: Bank): (best: WordId)
    requires |left| > 0 && |gbank| > 0 && InBank(left, sbank)
    ensures best < |gbank|
    ensures var acc := Accumulator(left, gbank, sbank);
      && acc[best] != 0
      && (forall i :: 0 <= i < |gbank| && acc[i] != 0 ==> acc[best] <= acc[i])
      && (forall i :: 0 <= i < best ==> acc[i] != acc[best])
  {
    var acc := Accumulator(left, gbank, sbank);
    AccumulatorPositive(left, gbank, sbank);
    assert acc[0] != 0;
    var m := MinNonZero(acc);
    FirstPosition(acc, m.value).value
  }

  // ---------------------------------------------------------------------------
  // The merge is a commutative monoid, so every split of the fold agrees

  lemma MergeCommutes(a: seq<nat>, b: seq<nat>)
    requires |a| == |b|
    ensures Merge(a, b) == Merge(b, a)
  {
  }

  lemma MergeAssociates(a: seq<nat>, b: seq<nat>, c: seq<nat>)
    requires |a| == |b| == |c|
    ensures Merge(Merge(a, b), c) == Merge(a, Merge(b, c))
  {
  }

  lemma MergeZeros(a: seq<nat>)
    ensures Merge(a, Zeros(|a|)) == a && Merge(Zeros(|a|), a) == a
  {
  }

  /**
   * Folding a concatenation equals merging the folds of its two parts, so
   * folding chunks independently and reducing them with `Merge` gives the
   * sequential fold.
   */
  lemma {:induction false} FoldSplit(a: seq<WordId>, b: seq<WordId>, left: seq<WordId>, gbank: Bank, sbank: Bank)
    requires forall k :: 0 <= k < |a| ==> a[k] in left
    requires forall k :: 0 <= k < |b| ==> b[k] in left
    requires InBank(left, sbank)
    ensures Fold(a + b, left, gbank, sbank) == Merge(Fold(a, left, gbank, sbank), Fold(b, left, gbank, sbank))
    decreases |b|
  {
    if b == [] {
      assert a + b == a;
      MergeZeros(Fold(a, left, gbank, sbank));
    } else {
      var front := b[..|b| - 1];
      assert (a + b)[..|a + b| - 1] == a + front;
      FoldSplit(a, front, left, gbank, sbank);
      MergeAssociates(Fold(a, left, gbank, sbank), Fold(front, left, gbank, sbank),
                      Contribution(b[|b| - 1], left, gbank, sbank));
    }
  }

  // ---------------------------------------------------------------------------
  // Every accumulated value is positive

  /**
   * For every guess, some bucket of `sol` matches: `sol`'s own bucket holds
   * only copies of `sol`'s word, which earn the grade `sol` earns.
   */
  lemma ContributionPositive(sol: WordId, left: seq<WordId>, gbank: Bank, sbank: Bank, g: nat)
    requires sol in left && InBank(left, sbank) && g < |gbank|
    ensures Contribution(sol, left, gbank, sbank)[g] >= 1
  {
    var bkts := SolutionBuckets(sol, left, sbank);
    SolutionBucketsClaimable(sol, left, sbank);
    var k :| 0 <= k < |left| && left[k] == sol;
    var w := bkts[k][0];
    assert w in bkts[k];
    BucketMember(sol, sol, left, sbank, sbank, w);
    assert Score(sbank[sol], sbank[w]) == Score(sbank[sol], sbank[sol]);
    ScoreSelf(sbank[sol]);
    AllGreenIffSameWord(sbank[sol], sbank[w]);
    assert Score(gbank[g], sbank[w]) == Score(gbank[g], sbank[sol]);
  }

  lemma {:induction false} FoldPositive(sols: seq<WordId>, left: seq<WordId>, gbank: Bank, sbank: Bank)
    requires forall k :: 0 <= k < |sols| ==> sols[k] in left
    requires InBank(left, sbank) && |sols| > 0
    ensures forall g :: 0 <= g < |gbank| ==> Fold(sols, left, gbank, sbank)[g] >= 1
  {
    forall g | 0 <= g < |gbank| ensures Fold(sols, left, gbank, sbank)[g] >= 1 {
      ContributionPositive(sols[|sols| - 1], left, gbank, sbank, g);
    }
  }

  /**
   * For non-empty candidates every accumulated value is at least 1, so the
   * smallest non-zero value always exists.
   */
  lemma AccumulatorPositive(left: seq<WordId>, gbank: Bank, sbank: Bank)
    requires |left| > 0 && InBank(left, sbank)
    ensures forall g :: 0 <= g < |gbank| ==> Accumulator(left, gbank, sbank)[g] >= 1
  {
    FoldPositive(left, left, gbank, sbank);
  }

  // ---------------------------------------------------------------------------
  // The loops of `sm_word`

  /** Every candidate among the first i is a candidate of `left`. */
  ghost predicate PrefixOf(left: seq<WordId>, i: nat) {
    i <= |left| && forall k :: 0 <= k < i ==> left[..i][k] in left
  }

  /** Draws one bucket of `sol` per candidate, in the order of `left`. */
  method DrawBuckets(sol: WordId, left: seq<WordId>, sbank: Bank) returns (bkts: seq<seq<WordId>>)
    requires sol < |sbank| && InBank(left, sbank)
    ensures bkts == SolutionBuckets(sol, left, sbank)
  {
    ghost var all := SolutionBuckets(sol, left, sbank);
    bkts := [];
    for k := 0 to |left|
      invariant bkts == all[..k]
    {
      var b := Bucket(left[k], sol, left, sbank, sbank);
      assert b == all[k];
      bkts := bkts + [b];
      assert all[..k + 1] == all[..k] + [all[k]];
    }
    assert all[..|left|] == all;
  }

  /**
   * Raises the accumulated value of guess `g` to the length of the first
   * bucket whose first word earns `guessMark`, the grade of `sol`.
   */
  method RaiseGuess(acc: seq<nat>, g: nat, guessMark: Grade, bkts: seq<seq<WordId>>, gbank: Bank, sbank: Bank)
    returns (next: seq<nat>)
    requires g < |acc| == |gbank| && Claimable(bkts, sbank)
    ensures next == acc[g := Max(acc[g], FirstMatchLen(gbank[g], guessMark, bkts, sbank, 0))]
  {
    next := acc;
    var m := 0;
    while m < |bkts|
      invariant 0 <= m <= |bkts|
      invariant next == acc
      invariant FirstMatchLen(gbank[g], guessMark, bkts, sbank, m) == FirstMatchLen(gbank[g], guessMark, bkts, sbank, 0)
    {
      var bmark := SolutionCompare(g, bkts[m][0], gbank, sbank);
      FirstMatchLenUnfold(gbank[g], guessMark, bkts, sbank, m);
      if GradeEq(guessMark, bmark) {
        next := next[g := Max(next[g], |bkts[m]|)];
        return;
      }
      m := m + 1;
    }
  }

  /**
   * One step of the fold: draws `sol`'s buckets, then raises each guess's
   * accumulated value to the length of its first matching bucket.
   */
  method FoldStep(acc: seq<nat>, sol: WordId, left: seq<WordId>, gbank: Bank, sbank: Bank) returns (next: seq<nat>)
    requires |acc| == |gbank| && sol in left && InBank(left, sbank)
    ensures next == Merge(acc, Contribution(sol, left, gbank, sbank))
  {
    var bkts := DrawBuckets(sol, left, sbank);
    SolutionBucketsClaimable(sol, left, sbank);
    ghost var contribution := Contribution(sol, left, gbank, sbank);
    next := acc;
    for g := 0 to |gbank|
      invariant |next| == |gbank|
      invariant forall x :: 0 <= x < g ==> next[x] == Max(acc[x], contribution[x])
      invariant forall x :: g <= x < |gbank| ==> next[x] == acc[x]
    {
      var guessMark := SolutionCompare(g, sol, gbank, sbank);
      assert contribution[g] == FirstMatchLen(gbank[g], guessMark, bkts, sbank, 0);
      next := RaiseGuess(next, g, guessMark, bkts, gbank, sbank);
    }
  }

  /**
   * Returns the guess whose accumulated value is the smallest non-zero one,
   * the first such guess on ties.
   */
  method SmWord(left: seq<WordId>, gbank: Bank, sbank: Bank) returns (best: WordId)
    requires |left| > 0 && |gbank| > 0 && InBank(left, sbank)
    ensures best == SelectGuess(left, gbank, sbank)
    ensures best < |gbank|
  {
    var acc := Zeros(|gbank|);
    for i := 0 to |left|
      invariant PrefixOf(left, i) && acc == Fold(left[..i], left, gbank, sbank)
    {
      acc := FoldStep(acc, left[i], left, gbank, sbank);
      ghost var done := left[..i + 1];
      assert done[..i] == left[..i] && done[i] == left[i];
      assert PrefixOf(left, i + 1);
    }
    assert left[..|left|] == left;
    assert acc == Accumulator(left, gbank, sbank);
    AccumulatorPositive(left, gbank, sbank);
    assert acc[0] != 0;
    var smallest := MinNonZero(acc);
    var position := FirstPosition(acc, smallest.value);
    best := position.value;
  }
}
