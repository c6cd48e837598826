/** The outcome rule of one rock-paper-scissors round, as a pure function of the
    two submitted choice strings, together with an independent reference
    definition over the three canonical moves and the lemmas relating them. */
module Rules {

  /** Who takes the round: nobody, the first-seated player or the second. */
  datatype Verdict = Draw | FirstWins | SecondWins

  /** The canonical moves. */
  datatype Move = Rock | Paper | Scissors

  /** The string a client sends for a canonical move. */
  function Name(m: Move): string
  {
    match m
    case Rock => "Rock"
    case Paper => "Paper"
    case Scissors => "Scissors"
  }

  /** True when the string is one of the three canonical moves. */
  predicate IsMove(s: string)
  {
    s == "Rock" || s == "Paper" || s == "Scissors"
  }

  /** The outcome comparison of the room, over raw strings: equal strings draw,
      the three listed winning pairs give the round to the first player, and
      every other unequal pair, malformed strings included, to the second. */
  function Outcome(c1: string, c2: string): (v: Verdict)
    ensures v == Draw <==> c1 == c2
    ensures v == FirstWins ==> IsMove(c1) && IsMove(c2)
    ensures c1 != c2 && !(IsMove(c1) && IsMove(c2)) ==> v == SecondWins
  {
    if c1 == c2 then Draw
    else if (c1 == "Rock" && c2 == "Scissors")
         || (c1 == "Scissors" && c2 == "Paper")
         || (c1 == "Paper" && c2 == "Rock")
    then FirstWins
    else SecondWins
  }

  /** Position of a move on the cycle Rock -> Paper -> Scissors -> Rock, where
      each move is beaten by its successor. */
  function Rank(m: Move): int
  {
    match m
    case Rock => 0
    case Paper => 1
    case Scissors => 2
  }

  /** Reference rule: a move beats the move one step before it on the cycle. */
  function Cyclic(m1: Move, m2: Move): (v: Verdict)
  {
    var d := (Rank(m1) - Rank(m2)) % 3;
    if d == 0 then Draw else if d == 1 then FirstWins else SecondWins
  }

  /** Distinct moves have distinct names, and every canonical string names a move. */
  lemma NameIsBijective(m1: Move, m2: Move, s: string)
    ensures Name(m1) == Name(m2) <==> m1 == m2
    ensures IsMove(Name(m1))
    ensures IsMove(s) ==> exists m :: Name(m) == s
  {
    if IsMove(s) {
      if s == "Rock" { assert Name(Rock) == s; }
      else if s == "Paper" { assert Name(Paper) == s; }
      else { assert Name(Scissors) == s; }
    }
  }

  /** On canonical moves the string comparison is exactly the cyclic rule. */
  lemma OutcomeIsCyclic(m1: Move, m2: Move)
    ensures Outcome(Name(m1), Name(m2)) == Cyclic(m1, m2)
  {
    match m1
    case Rock =>
    case Paper =>
    case Scissors =>
  }

  /** Swapping two distinct canonical moves swaps the winner. */
  lemma OutcomeSwapsWinner(m1: Move, m2: Move)
    requires m1 != m2
    ensures Outcome(Name(m1), Name(m2)) == FirstWins <==> Outcome(Name(m2), Name(m1)) == SecondWins
    ensures Outcome(Name(m1), Name(m2)) != Draw
  {
    OutcomeIsCyclic(m1, m2);
    OutcomeIsCyclic(m2, m1);
  }

  /** Every canonical move beats exactly one move and loses to exactly one. */
  lemma EachMoveBeatsExactlyOne(m: Move)
    ensures exists w :: Outcome(Name(m), Name(w)) == FirstWins
    ensures forall w1, w2 :: Outcome(Name(m), Name(w1)) == FirstWins && Outcome(Name(m), Name(w2)) == FirstWins ==> w1 == w2
    ensures exists l :: Outcome(Name(m), Name(l)) == SecondWins
    ensures forall l1, l2 :: Outcome(Name(m), Name(l1)) == SecondWins && Outcome(Name(m), Name(l2)) == SecondWins ==> l1 == l2
  {
    match m
    case Rock =>
      assert Outcome(Name(m), Name(Scissors)) == FirstWins;
      assert Outcome(Name(m), Name(Paper)) == SecondWins;
    case Paper =>
      assert Outcome(Name(m), Name(Rock)) == FirstWins;
      assert Outcome(Name(m), Name(Scissors)) == SecondWins;
    case Scissors =>
      assert Outcome(Name(m), Name(Paper)) == FirstWins;
      assert Outcome(Name(m), Name(Rock)) == SecondWins;
  }

  /** An unrecognised string against a canonical move always hands the round
      to the second seat: a malformed choice loses when the first player sends
      it and wins when the second player sends it. */
  lemma MalformedChoiceFavoursSecondSeat(bad: string, m: Move)
    requires !IsMove(bad)
    ensures Outcome(bad, Name(m)) == SecondWins
    ensures Outcome(Name(m), bad) == SecondWins
  {
    NameIsBijective(m, m, bad);
  }
}
