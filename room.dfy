/** One game room as a value: its players in join order, the choices pending in
    the current round and the win count of every player, together with the
    room's three operations as step functions that return the new room and the
    messages the room broadcasts on its topic. */
module RoomModel {
  import opened Rules

  /** One message sent through the broadcaster: a topic and a payload. */
  datatype Event = Event(topic: string, message: string)

  datatype Room = Room(
    name: string,
    players: seq<string>,
    choices: map<string, string>,
    wins: map<string, int>)

  /** Result of a join attempt: whether the player got a seat, the new room and
      what was broadcast. */
  datatype JoinStep = JoinStep(accepted: bool, room: Room, sent: seq<Event>)

  /** Result of an operation that reports nothing back to its caller. */
  datatype Step = Step(room: Room, sent: seq<Event>)

  /** The topic every message of the room named `name` goes to. */
  function Topic(name: string): string
  {
    "/topic/" + name
  }

  function JoinedMessage(player: string): string
  {
    "Player " + player + " joined."
  }

  const ReadyMessage: string := "Game ready to start!"

  function MovedMessage(player: string): string
  {
    "Player " + player + " made a move."
  }

  function WinsMessage(player: string): string
  {
    player + " wins!"
  }

  const DrawMessage: string := "Draw!"

  /** The room invariant: at most two seats; only seated players have pending
      choices; every seated player, and nobody else, has a win count, which is
      never negative; between operations at most one choice is pending (a
      second one triggers resolution at once); and no win is scored before
      both seats are taken. */
  predicate Inv(r: Room)
  {
    && |r.players| <= 2
    && (forall p :: p in r.choices ==> p in r.players)
    && (forall p :: p in r.wins ==> p in r.players)
    && (forall p :: p in r.players ==> p in r.wins)
    && (forall p :: p in r.wins ==> r.wins[p] >= 0)
    && |r.choices| <= 1
    && (|r.players| < 2 ==> forall p :: p in r.wins ==> r.wins[p] == 0)
  }

  /** A freshly created room: nobody seated, nothing pending, no scores. */
  function EmptyRoom(name: string): (r: Room)
    ensures Inv(r) && r.name == name
    ensures r.players == [] && |r.choices| == 0 && |r.wins| == 0
  {
    Room(name, [], map[], map[])
  }

  /** Sum of all win counts. */
  ghost function Total(w: map<string, int>): int
    decreases |w|
  {
    if w == map[] then 0
    else
      var k :| k in w;
      w[k] + Total(w - {k})
  }

  /** The total can be split at any key, whichever key the definition picks. */
  lemma {:induction false} TotalSplit(w: map<string, int>, k: string)
    requires k in w
    ensures Total(w) == w[k] + Total(w - {k})
    decreases |w|
  {
    var j :| j in w && Total(w) == w[j] + Total(w - {j});
    if j != k {
      var wj := w - {j};
      var wk := w - {k};
      assert k in wj && j in wk;
      TotalSplit(wj, k);
      TotalSplit(wk, j);
      assert wj - {k} == wk - {j};
    }
  }

  /** Scoring one win for one player raises the total by exactly one. */
  lemma {:induction false} TotalBump(w: map<string, int>, k: string)
    requires k in w
    ensures Total(w[k := w[k] + 1]) == Total(w) + 1
  {
    var w' := w[k := w[k] + 1];
    TotalSplit(w, k);
    TotalSplit(w', k);
    assert w' - {k} == w - {k};
  }

  /** Seat a player if the room has a free seat, giving them a zero win count,
      and announce the join, and that the game is ready when this join filled
      the second seat. */
  function AddPlayer(r: Room, player: string): (s: JoinStep)
    ensures s.accepted <==> |r.players| < 2
    ensures !s.accepted ==> s.room == r && s.sent == []
    ensures s.accepted ==>
      && s.room.players == r.players + [player]
      && s.room.wins == r.wins[player := 0]
      && s.room.choices == r.choices
      && s.room.name == r.name
    ensures s.accepted ==>
      && 1 <= |s.sent| <= 2
      && s.sent[0] == Event(Topic(r.name), JoinedMessage(player))
      && (|s.sent| == 2 <==> |s.room.players| == 2)
      && (|s.sent| == 2 ==> s.sent[1] == Event(Topic(r.name), ReadyMessage))
    ensures Inv(r) ==> Inv(s.room)
  {
    if |r.players| < 2 then
      var seated := r.(players := r.players + [player], wins := r.wins[player := 0]);
      var joined := [Event(Topic(r.name), JoinedMessage(player))];
      if |seated.players| == 2 then
        JoinStep(true, seated, joined + [Event(Topic(r.name), ReadyMessage)])
      else
        JoinStep(true, seated, joined)
    else
      JoinStep(false, r, [])
  }

  /** With at most two seats and pending choices only from seated players, two
      pending choices mean two distinct seated players who have both chosen. */
  lemma TwoPendingMeansBothChose(players: seq<string>, pending: map<string, string>)
    requires |players| <= 2
    requires forall p :: p in pending ==> p in players
    requires |pending| == 2
    ensures |players| == 2 && players[0] != players[1]
    ensures players[0] in pending && players[1] in pending
  {
    if |players| == 0 {
      assert false;
    }
    if |players| == 1 || players[0] == players[1] {
      AtMostOneKey(pending, players[0]);
      assert false;
    }
    if players[0] !in pending {
      AtMostOneKey(pending, players[1]);
      assert false;
    }
    if players[1] !in pending {
      AtMostOneKey(pending, players[0]);
      assert false;
    }
  }

  /** A map whose keys can only be `a` has at most one entry. */
  lemma AtMostOneKey(m: map<string, string>, a: string)
    requires forall p :: p in m ==> p == a
    ensures |m| <= 1
  {
    if a in m {
      assert m.Keys == {a};
    } else {
      assert m.Keys == {};
    }
  }

  /** Resolve a round whose two choices are both in: score it by the outcome
      rule, announce the result and clear the pending choices. */
  function DetermineWinner(r: Room): (s: Step)
    requires |r.players| >= 2
    requires r.players[0] in r.choices && r.players[1] in r.choices
    requires r.players[0] in r.wins && r.players[1] in r.wins
    ensures s.room.choices == map[]
    ensures s.room.name == r.name && s.room.players == r.players
    ensures s.room.wins.Keys == r.wins.Keys
    ensures || s.room.wins == r.wins
            || s.room.wins == r.wins[r.players[0] := r.wins[r.players[0]] + 1]
            || s.room.wins == r.wins[r.players[1] := r.wins[r.players[1]] + 1]
    ensures |s.sent| == 1 && s.sent[0].topic == Topic(r.name)
  {
    var p1 := r.players[0];
    var p2 := r.players[1];
    var topic := Topic(r.name);
    match Outcome(r.choices[p1], r.choices[p2])
    case Draw =>
      Step(r.(choices := map[]), [Event(topic, DrawMessage)])
    case FirstWins =>
      Step(r.(wins := r.wins[p1 := r.wins[p1] + 1], choices := map[]), [Event(topic, WinsMessage(p1))])
    case SecondWins =>
      Step(r.(wins := r.wins[p2 := r.wins[p2] + 1], choices := map[]), [Event(topic, WinsMessage(p2))])
  }

  /** Record a seated player's choice (replacing any earlier one this round),
      announce the move, and resolve the round once both seats have chosen.
      A choice from someone who is not seated is ignored. */
  function MakeChoice(r: Room, player: string, choice: string): (s: Step)
    requires Inv(r)
    ensures Inv(s.room)
    ensures s.room.name == r.name && s.room.players == r.players
    ensures s.room.wins.Keys == r.wins.Keys
    ensures player !in r.players ==> s.room == r && s.sent == []
    ensures player in r.players ==>
      && 1 <= |s.sent| <= 2
      && s.sent[0] == Event(Topic(r.name), MovedMessage(player))
  {
    if player !in r.players then
      Step(r, [])
    else
      var pending := r.choices[player := choice];
      var moved := Event(Topic(r.name), MovedMessage(player));
      if |pending| == 2 then
        TwoPendingMeansBothChose(r.players, pending);
        var d := DetermineWinner(r.(choices := pending));
        Step(d.room, [moved] + d.sent)
      else
        Step(r.(choices := pending), [moved])
  }

  /** A choice that does not complete the round is stored under the player's
      name, replacing an earlier one rather than adding a second entry, and
      changes no score. */
  lemma ChoiceIsRecorded(r: Room, player: string, choice: string)
    requires Inv(r) && player in r.players
    requires |r.choices[player := choice]| < 2
    ensures MakeChoice(r, player, choice).room == r.(choices := r.choices[player := choice])
    ensures MakeChoice(r, player, choice).sent == [Event(Topic(r.name), MovedMessage(player))]
    ensures player in r.choices ==> |MakeChoice(r, player, choice).room.choices| == |r.choices|
  {
  }

  /** The outcome rule applied to a completed round between two distinct
      players: a draw leaves every score as it was, otherwise exactly the
      winner's count goes up by one and the winner is announced, so the total
      of all wins grows by at most one. */
  lemma {:induction false} RoundScoring(r: Room)
    requires |r.players| >= 2 && r.players[0] != r.players[1]
    requires r.players[0] in r.choices && r.players[1] in r.choices
    requires r.players[0] in r.wins && r.players[1] in r.wins
    ensures var p1 := r.players[0];
      var v := Outcome(r.choices[p1], r.choices[r.players[1]]);
      var s := DetermineWinner(r);
      && (v == Draw <==> s.room.wins == r.wins)
      && (v == FirstWins <==> s.room.wins == r.wins[p1 := r.wins[p1] + 1])
      && (v == Draw ==> s.sent == [Event(Topic(r.name), DrawMessage)])
      && (v == FirstWins ==> s.sent == [Event(Topic(r.name), WinsMessage(p1))])
    ensures var p2 := r.players[1];
      var v := Outcome(r.choices[r.players[0]], r.choices[p2]);
      var s := DetermineWinner(r);
      && (v == SecondWins <==> s.room.wins == r.wins[p2 := r.wins[p2] + 1])
      && (v == SecondWins ==> s.sent == [Event(Topic(r.name), WinsMessage(p2))])
    ensures Total(r.wins) <= Total(DetermineWinner(r).room.wins) <= Total(r.wins) + 1
  {
    var p1 := r.players[0];
    var p2 := r.players[1];
    var w := DetermineWinner(r).room.wins;
    var up1 := r.wins[p1 := r.wins[p1] + 1];
    var up2 := r.wins[p2 := r.wins[p2] + 1];
    assert up1[p1] != r.wins[p1] && up2[p2] != r.wins[p2];
    assert up1[p2] == r.wins[p2] && up2[p1] == r.wins[p1];
    TotalBump(r.wins, p1);
    TotalBump(r.wins, p2);
  }

  /** The choice that completes a round resolves it on the spot: the move is
      announced, then the round is scored by `DetermineWinner` on the
      completed choices, whose announcement follows; the two players are
      distinct and both have chosen, and afterwards nothing is pending. */
  lemma CompletingChoiceResolves(r: Room, player: string, choice: string)
    requires Inv(r) && player in r.players
    requires |r.choices[player := choice]| == 2
    ensures |r.players| == 2 && r.players[0] != r.players[1]
    ensures var pending := r.choices[player := choice];
      && r.players[0] in pending && r.players[1] in pending
      && var d := DetermineWinner(r.(choices := pending));
      && MakeChoice(r, player, choice).room == d.room
      && MakeChoice(r, player, choice).sent == [Event(Topic(r.name), MovedMessage(player))] + d.sent
      && d.room.choices == map[]
  {
    TwoPendingMeansBothChose(r.players, r.choices[player := choice]);
  }

  /** Number of players seated when `ps` try to join one after another. */
  function Admitted(r: Room, ps: seq<string>): nat
    decreases |ps|
  {
    if ps == [] then 0
    else
      var j := AddPlayer(r, ps[0]);
      (if j.accepted then 1 else 0) + Admitted(j.room, ps[1..])
  }

  /** However many join attempts arrive, only the free seats are handed out:
      a room that starts with k seats taken admits min(attempts, 2 - k). */
  lemma {:induction false} AtMostTwoSeats(r: Room, ps: seq<string>)
    requires |r.players| <= 2
    ensures Admitted(r, ps) == if |ps| < 2 - |r.players| then |ps| else 2 - |r.players|
    decreases |ps|
  {
    if ps != [] {
      AtMostTwoSeats(AddPlayer(r, ps[0]).room, ps[1..]);
    }
  }

  /** A request a client can address to a room. */
  datatype Request = Join(player: string) | Choose(player: string, choice: string)

  function Apply(r: Room, q: Request): (s: Step)
    requires Inv(r)
    ensures Inv(s.room)
  {
    match q
    case Join(p) =>
      var j := AddPlayer(r, p);
      Step(j.room, j.sent)
    case Choose(p, c) => MakeChoice(r, p, c)
  }

  /** The room after serving the requests in order, and everything it sent. */
  function Run(r: Room, qs: seq<Request>): (s: Step)
    requires Inv(r)
    ensures Inv(s.room)
    decreases |qs|
  {
    if qs == [] then Step(r, [])
    else
      var a := Apply(r, qs[0]);
      var b := Run(a.room, qs[1..]);
      Step(b.room, a.sent + b.sent)
  }

  /** One request keeps the room's name, only ever appends a player, and
      never lowers a win count. */
  lemma ApplyOnlyGrows(r: Room, q: Request)
    requires Inv(r)
    ensures var s := Apply(r, q);
      && s.room.name == r.name
      && r.players <= s.room.players
      && forall p :: p in r.wins ==> p in s.room.wins && r.wins[p] <= s.room.wins[p]
  {
    match q
    case Join(p) =>
    case Choose(p, c) =>
      var pending := r.choices[p := c];
      if p in r.players && |pending| == 2 {
        CompletingChoiceResolves(r, p, c);
      }
  }

  /** Over any sequence of requests the room keeps its name, players are only
      ever appended (never removed or reordered), and no win count goes down. */
  lemma {:induction false} RunOnlyGrows(r: Room, qs: seq<Request>)
    requires Inv(r)
    ensures var s := Run(r, qs);
      && s.room.name == r.name
      && r.players <= s.room.players
      && forall p :: p in r.wins ==> p in s.room.wins && r.wins[p] <= s.room.wins[p]
    decreases |qs|
  {
    if qs != [] {
      ApplyOnlyGrows(r, qs[0]);
      RunOnlyGrows(Apply(r, qs[0]).room, qs[1..]);
    }
  }

  // A sample match, step by step: alice and bob join room "r1", alice
  // plays Rock, bob plays Scissors, alice takes the round.

  const AliceSeated: Room := Room("r1", ["alice"], map[], map["alice" := 0])
  const BothSeated: Room := Room("r1", ["alice", "bob"], map[], map["alice" := 0, "bob" := 0])
  const AliceChose: Room := BothSeated.(choices := map["alice" := "Rock"])
  const AliceWon: Room := Room("r1", ["alice", "bob"], map[], map["alice" := 1, "bob" := 0])

  lemma AliceTakesFirstSeat()
    ensures AddPlayer(EmptyRoom("r1"), "alice")
         == JoinStep(true, AliceSeated, [Event("/topic/r1", "Player alice joined.")])
  {
    assert Topic("r1") == "/topic/r1";
    assert JoinedMessage("alice") == "Player alice joined.";
  }

  lemma BobTakesSecondSeat()
    ensures AddPlayer(AliceSeated, "bob")
         == JoinStep(true, BothSeated, [Event("/topic/r1", "Player bob joined."),
                                        Event("/topic/r1", "Game ready to start!")])
  {
    assert Topic("r1") == "/topic/r1";
    assert JoinedMessage("bob") == "Player bob joined.";
  }

  lemma AliceChoosesRock()
    ensures Inv(BothSeated)
    ensures MakeChoice(BothSeated, "alice", "Rock")
         == Step(AliceChose, [Event("/topic/r1", "Player alice made a move.")])
  {
    assert Topic("r1") == "/topic/r1";
    assert MovedMessage("alice") == "Player alice made a move.";
  }

  const BothChose: Room := BothSeated.(choices := map["alice" := "Rock", "bob" := "Scissors"])

  lemma RockBeatsScissors()
    ensures DetermineWinner(BothChose) == Step(AliceWon, [Event("/topic/r1", "alice wins!")])
  {
    assert Outcome("Rock", "Scissors") == FirstWins;
    assert Topic("r1") == "/topic/r1";
    assert WinsMessage("alice") == "alice wins!";
    assert BothChose.wins["alice" := 1] == AliceWon.wins;
  }

  lemma BobChoosesScissors()
    ensures Inv(AliceChose)
    ensures MakeChoice(AliceChose, "bob", "Scissors")
         == Step(AliceWon, [Event(Topic("r1"), MovedMessage("bob")), Event("/topic/r1", "alice wins!")])
  {
    assert AliceChose.choices["bob" := "Scissors"].Keys == {"alice", "bob"};
    assert AliceChose.(choices := AliceChose.choices["bob" := "Scissors"]) == BothChose;
    CompletingChoiceResolves(AliceChose, "bob", "Scissors");
    RockBeatsScissors();
  }

  /** The whole match: after the two joins and the two moves alice has one
      win, bob none, nothing is pending, and the last broadcast names alice. */
  lemma AliceBeatsBob()
    ensures var j1 := AddPlayer(EmptyRoom("r1"), "alice");
      var j2 := AddPlayer(j1.room, "bob");
      var m1 := MakeChoice(j2.room, "alice", "Rock");
      var m2 := MakeChoice(m1.room, "bob", "Scissors");
      && |j2.sent| == 2
      && m1.room.choices == map["alice" := "Rock"]
      && m2.room.wins == map["alice" := 1, "bob" := 0]
      && m2.room.choices == map[]
      && m2.sent[|m2.sent| - 1] == Event("/topic/r1", "alice wins!")
  {
    AliceTakesFirstSeat();
    BobTakesSecondSeat();
    AliceChoosesRock();
    BobChoosesScissors();
  }

  /** A player who named themselves twice fills both seats alone; their
      choices only ever occupy one pending entry, so the room never resolves
      a round and never scores. */
  lemma DuplicateSeatNeverScores(p: string, q: string, choice: string, r: Room)
    requires Inv(r) && r.players == [p, p]
    ensures MakeChoice(r, q, choice).room.wins == r.wins
    ensures |MakeChoice(r, q, choice).room.choices| <= 1
  {
    if q in r.players {
      assert q == p;
      assert r.choices.Keys <= {p};
      assert r.choices[q := choice].Keys == {p};
    }
  }
}
