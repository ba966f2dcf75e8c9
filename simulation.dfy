/**
 * The batch loops around the game: one simulated game per hidden solution,
 * counting turns, and the scan for the largest bucket the opener leaves.
 */
module Simulation {
  import opened Wrappers
  import opened Grading
  import opened Buckets
  import opened Game

  /** Every id of a bank of n words, in order. */
  function AllIds(n: nat): (ids: seq<WordId>)
    ensures |ids| == n && forall k :: 0 <= k < n ==> ids[k] == k
  {
    seq(n, k => k)
  }

  /**
   * The candidates of a game with hidden solution `solution` after `turn`
   * updates: the whole solution bank at first, then each turn the bucket of
   * that turn's guess around the solution.
   */
  function Candidates(solution: WordId, gbank: Bank, sbank: Bank, turn: nat): (r: seq<WordId>)
    requires |gbank| > StartGuessWord && solution < |sbank|
    ensures solution in r && InBank(r, sbank)
  {
    if turn == 0 then
      assert AllIds(|sbank|)[solution] == solution;
      AllIds(|sbank|)
    else
      var prev := Candidates(solution, gbank, sbank, turn - 1);
      var guess := NextGuess(turn == 1, prev, gbank, sbank);
      BucketMember(guess, solution, prev, gbank, sbank, solution);
      BucketOf(guess, solution, prev, gbank, sbank)
  }

  /** A game reaching a single candidate has isolated its hidden solution. */
  lemma SingleCandidateIsSolution(solution: WordId, gbank: Bank, sbank: Bank, turn: nat)
    requires |gbank| > StartGuessWord && solution < |sbank|
    requires |Candidates(solution, gbank, sbank, turn)| == 1
    ensures Candidates(solution, gbank, sbank, turn) == [solution]
  {
    var c := Candidates(solution, gbank, sbank, turn);
    assert solution in c;
    assert c == [c[0]];
  }

  /** One turn of the game takes the candidates of turn t to those of turn t + 1. */
  lemma CandidatesStep(solution: WordId, gbank: Bank, sbank: Bank, turn: nat)
    requires |gbank| > StartGuessWord && solution < |sbank|
    ensures var prev := Candidates(solution, gbank, sbank, turn);
      Candidates(solution, gbank, sbank, turn + 1)
      == BucketOf(NextGuess(turn == 0, prev, gbank, sbank), solution, prev, gbank, sbank)
  {
  }

  /** How many candidates remain after each number of updates. */
  ghost function CandidateCounts(solution: WordId, gbank: Bank, sbank: Bank): (count: nat -> nat)
    requires |gbank| > StartGuessWord && solution < |sbank|
    ensures forall turn: nat :: count(turn) == |Candidates(solution, gbank, sbank, turn)|
  {
    turn => |Candidates(solution, gbank, sbank, turn)|
  }

  /** The first turn in [from, from + fuel] at which `count` is one, if there is one. */
  function FirstSingle(count: nat -> nat, from: nat, fuel: nat): (r: Option<nat>)
    ensures r.Some? ==> from <= r.value <= from + fuel && count(r.value) == 1
    decreases fuel
  {
    if count(from) == 1 then Some(from)
    else if fuel == 0 then None
    else FirstSingle(count, from + 1, fuel - 1)
  }

  /**
   * `FirstSingle` finds the earliest such turn of its window: every turn of
   * the window before the one it reports (every turn of the window, when it
   * reports None) has a count other than one.
   */
  lemma {:induction false} FirstSingleIsFirst(count: nat -> nat, from: nat, fuel: nat, k: nat)
    requires from <= k <= from + fuel
    ensures var r := FirstSingle(count, from, fuel);
      (r.Some? ==> k < r.value ==> count(k) != 1) && (r.None? ==> count(k) != 1)
    decreases fuel
  {
    if count(from) != 1 && k > from {
      FirstSingleIsFirst(count, from + 1, fuel - 1, k);
    }
  }

  /**
   * Plays the game for `solution` from the full solution bank, the first
   * turn with the opener, until one candidate remains. Returns the number of
   * `Update` calls made, which is the first turn leaving a single candidate,
   * or None when `fuel` further turns after the first did not get there.
   */
  method SimGameWithSolution(solution: WordId, gbank: Bank, sbank: Bank, fuel: nat) returns (turns: Option<nat>)
    requires |gbank| > StartGuessWord && solution < |sbank|
    ensures turns == FirstSingle(CandidateCounts(solution, gbank, sbank), 1, fuel)
    ensures turns.Some? ==> 1 <= turns.value <= fuel + 1
    ensures turns.Some? ==> Candidates(solution, gbank, sbank, turns.value) == [solution]
  {
    var all := AllIds(|sbank|);
    assert all == Candidates(solution, gbank, sbank, 0);
    var game := new FixedWordle.WithState(solution, all, sbank, gbank, true);
    var curTurn := 1;
    var curGameBkt := game.Update();
    CandidatesStep(solution, gbank, sbank, 0);
    var remaining := fuel;
    ghost var count := CandidateCounts(solution, gbank, sbank);
    while curGameBkt != None && remaining > 0
      invariant game.Valid() && !game.hardCodedFirstTurn
      invariant game.solution == solution && game.gbank == gbank && game.sbank == sbank
      invariant 1 <= curTurn == fuel - remaining + 1
      invariant game.left == Candidates(solution, gbank, sbank, curTurn)
      invariant curGameBkt == if |game.left| == 1 then None else Some(game.left)
      invariant FirstSingle(count, 1, fuel) == FirstSingle(count, curTurn, remaining)
      decreases remaining
    {
      var bkt := curGameBkt.value;
      assert solution in bkt;
      assert count(curTurn) != 1;
      curGameBkt := game.Update();
      CandidatesStep(solution, gbank, sbank, curTurn);
      curTurn := curTurn + 1;
      remaining := remaining - 1;
    }
    assert count(curTurn) == |game.left|;
    if curGameBkt == None {
      SingleCandidateIsSolution(solution, gbank, sbank, curTurn);
      turns := Some(curTurn);
    } else {
      turns := None;
    }
  }

  /** The bucket the opener leaves when solution `i` is hidden. */
  function OpenerBucket(i: WordId, gbank: Bank, sbank: Bank): (r: seq<WordId>)
    requires |gbank| > StartGuessWord && i < |sbank|
  {
    BucketOf(StartGuessWord, i, AllIds(|sbank|), gbank, sbank)
  }

  /** The buckets the opener leaves for hidden solutions 0 .. n-1, in order. */
  ghost function OpenerBuckets(gbank: Bank, sbank: Bank, n: nat): (bs: seq<seq<WordId>>)
    requires |gbank| > StartGuessWord && n <= |sbank|
    ensures |bs| == n
  {
    if n == 0 then [] else OpenerBuckets(gbank, sbank, n - 1) + [OpenerBucket(n - 1, gbank, sbank)]
  }

  /** Entry i of the opener buckets is the bucket for hidden solution i. */
  lemma {:induction false} OpenerBucketsAt(gbank: Bank, sbank: Bank, n: nat, i: nat)
    requires |gbank| > StartGuessWord && i < n <= |sbank|
    ensures OpenerBuckets(gbank, sbank, n)[i] == OpenerBucket(i, gbank, sbank)
  {
    if i < n - 1 {
      OpenerBucketsAt(gbank, sbank, n - 1, i);
    }
  }

  /** The length of each bucket. */
  function Lengths(bs: seq<seq<WordId>>): (s: seq<nat>)
    ensures |s| == |bs| && forall i :: 0 <= i < |bs| ==> s[i] == |bs[i]|
  {
    seq(|bs|, i requires 0 <= i < |bs| => |bs[i]|)
  }

  /** The index of the first largest entry of `s[..n]`. */
  function FirstArgMax(s: seq<nat>, n: nat): (i: nat)
    requires 0 < n <= |s|
    ensures i < n
  {
    if n == 1 then 0
    else
      var best := FirstArgMax(s, n - 1);
      if s[n - 1] > s[best] then n - 1 else best
  }

  /**
   * `FirstArgMax` is the first maximum: no entry of `s[..n]` exceeds the one
   * it picks, and every entry before it is strictly smaller.
   */
  lemma {:induction false} FirstArgMaxIsFirstMax(s: seq<nat>, n: nat, j: nat)
    requires 0 < n <= |s| && j < n
    ensures s[j] <= s[FirstArgMax(s, n)]
    ensures j < FirstArgMax(s, n) ==> s[j] < s[FirstArgMax(s, n)]
  {
    if n > 1 && j < n - 1 {
      FirstArgMaxIsFirstMax(s, n - 1, j);
    }
  }

  /**
   * The scan over `bs[..n]` that keeps a bucket only when it is strictly
   * longer than the one kept so far.
   */
  function Longest(bs: seq<seq<WordId>>, n: nat): seq<WordId>
    requires n <= |bs|
  {
    if n == 0 then []
    else
      var kept := Longest(bs, n - 1);
      if |bs[n - 1]| > |kept| then bs[n - 1] else kept
  }

  /** The scan keeps the first longest of `bs[..n]`. */
  lemma {:induction false} LongestIsFirstMax(bs: seq<seq<WordId>>, n: nat)
    requires 0 < n <= |bs|
    ensures Longest(bs, n) == bs[FirstArgMax(Lengths(bs), n)]
  {
    if n > 1 {
      LongestIsFirstMax(bs, n - 1);
    }
  }

  /** Computes the bucket the opener leaves when solution `i` is hidden. */
  method DrawOpenerBucket(i: WordId, gbank: Bank, sbank: Bank) returns (bkt: seq<WordId>)
    requires |gbank| > StartGuessWord && i < |sbank|
    ensures bkt == OpenerBuckets(gbank, sbank, |sbank|)[i]
  {
    bkt := Bucket(StartGuessWord, i, AllIds(|sbank|), gbank, sbank);
    OpenerBucketsAt(gbank, sbank, |sbank|, i);
  }

  /**
   * Scans every hidden solution and keeps the first largest bucket the
   * opener leaves, with its length.
   */
  method MaxOpenerBucket(gbank: Bank, sbank: Bank) returns (mxlen: nat, mx: seq<WordId>)
    requires |gbank| > StartGuessWord
    ensures mxlen == |mx|
    ensures |sbank| == 0 ==> mx == []
    ensures |sbank| > 0 ==>
      mx == OpenerBucket(FirstArgMax(Lengths(OpenerBuckets(gbank, sbank, |sbank|)), |sbank|), gbank, sbank)
  {
    mxlen := 0;
    mx := [];
    ghost var bkts := OpenerBuckets(gbank, sbank, |sbank|);
    for i := 0 to |sbank|
      invariant mxlen == |mx| && mx == Longest(bkts, i)
    {
      var bkt := DrawOpenerBucket(i, gbank, sbank);
      if |bkt| > mxlen {
        mxlen := |bkt|;
        mx := bkt;
      }
    }
    if |sbank| > 0 {
      LongestIsFirstMax(bkts, |sbank|);
      OpenerBucketsAt(gbank, sbank, |sbank|, FirstArgMax(Lengths(bkts), |sbank|));
    }
  }
}
