/**
 * The game simulator: a standard game with one hidden solution held fixed.
 * The first turn plays a hard-coded opener; later turns play the guess of
 * the selector; each turn keeps only the candidates the guess cannot tell
 * apart from the hidden solution.
 */
module Game {
  import opened Wrappers
  import opened Grading
  import opened Buckets
  import opened Selection

  /** The precomputed opening guess, an index into the guess bank. */
  const StartGuessWord: WordId := 132

  /** The guess of one turn: the opener on a hard-coded first turn, the selector's choice otherwise. */
  function NextGuess(firstTurn: bool, left: seq<WordId>, gbank: Bank, sbank: Bank): (w: WordId)
    requires |gbank| > StartGuessWord && InBank(left, sbank) && (firstTurn || |left| > 0)
    ensures w < |gbank|
  {
    if firstTurn then StartGuessWord else SelectGuess(left, gbank, sbank)
  }

  class FixedWordle {
    /** The candidates not yet ruled out. */
    var left: seq<WordId>
    /** The hidden solution, an index into the solution bank. */
    const solution: WordId
    const sbank: Bank
    const gbank: Bank
    /** Whether the next guess is still the hard-coded opener. */
    var hardCodedFirstTurn: bool

    ghost predicate Valid()
      reads this
    {
      |gbank| > StartGuessWord && solution < |sbank| && InBank(left, sbank)
    }

    constructor WithState(solution: WordId, left: seq<WordId>, sbank: Bank, gbank: Bank, hardCodedFirstTurn: bool)
      requires |gbank| > StartGuessWord && solution < |sbank| && InBank(left, sbank)
      ensures Valid()
      ensures this.solution == solution && this.left == left
      ensures this.sbank == sbank && this.gbank == gbank
      ensures this.hardCodedFirstTurn == hardCodedFirstTurn
    {
      this.left := left;
      this.solution := solution;
      this.sbank := sbank;
      this.gbank := gbank;
      this.hardCodedFirstTurn := hardCodedFirstTurn;
    }

    /** Plays the opener once, then the selector's guess for the current candidates. */
    method Guess() returns (w: WordId)
      requires Valid() && (hardCodedFirstTurn || |left| > 0)
      modifies this`hardCodedFirstTurn
      ensures Valid()
      ensures w == NextGuess(old(hardCodedFirstTurn), left, gbank, sbank)
      ensures old(hardCodedFirstTurn) ==> w == StartGuessWord
      ensures !hardCodedFirstTurn
    {
      if hardCodedFirstTurn {
        hardCodedFirstTurn := false;
        w := StartGuessWord;
      } else {
        w := SmWord(left, gbank, sbank);
      }
    }

    /** The solution the guess is graded against: always the fixed one. */
    method Solution(guess: WordId) returns (s: WordId)
      ensures s == solution
    {
      s := solution;
    }

    /**
     * Plays one turn: keeps the candidates sharing the hidden solution's
     * grade, and reports them, or None once a single one remains.
     */
    method Update() returns (r: Option<seq<WordId>>)
      requires Valid() && (hardCodedFirstTurn || |left| > 0)
      modifies this
      ensures Valid() && !hardCodedFirstTurn
      ensures left == BucketOf(NextGuess(old(hardCodedFirstTurn), old(left), gbank, sbank), solution, old(left), gbank, sbank)
      ensures IsSubsequence(left, old(left))
      ensures solution in old(left) ==> solution in left
      ensures r == if |left| == 1 then None else Some(left)
    {
      var w := Guess();
      var s := Solution(w);
      BucketIsSubsequence(w, s, left, gbank, sbank);
      BucketMember(w, s, left, gbank, sbank, s);
      left := Bucket(w, s, left, gbank, sbank);
      if |left| == 1 {
        r := None;
      } else {
        r := Some(left);
      }
    }
  }
}
