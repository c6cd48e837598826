# Rock-paper-scissors game server: verified model of the room core

The server keeps a registry of named game rooms. Clients create a room, join
it (two seats, first come first served) and submit moves. When both seated
players have moved, the room scores the round, announces the result on the
room's topic (`/topic/<name>`) and clears the pending moves. This project
models the two classes that hold this logic, `GameRoom` and `GameController`.
It proves that they do what the outcome rule and the seat rules say.

Layout:

- `rules.dfy` (module `Rules`) covers the outcome comparison of one round.
  It works on the raw choice strings exactly as the room compares them.
  An independent reference rule over the three canonical moves (a move beats
  the one before it on the cycle Rock, Paper, Scissors) is proved to agree
  with it.
- `room.dfy` (module `RoomModel`) treats one room as a value. It has:
  - the room invariant;
  - the three room operations as step functions, each returning the new room
    and the messages broadcast;
  - request traces (`Run`) over any sequence of joins and moves;
  - a complete match as a worked scenario.
- `registry.dfy` (module `RegistryModel`) treats the registry as a value, a map
  from room name to room. It holds the controller's operations and batches of
  creation requests.
- `server.dfy` (module `Server`) holds the objects that change in place:
  - `Broadcaster` is the messaging template, reduced to the log of what it was
    handed.
  - `GameRoom` has the room's fields and its three methods.
  - `GameController` owns the map from name to room object.

  Each method's postcondition ties its new state and what it broadcasts to
  the step function of `RoomModel` or `RegistryModel`. The class invariant
  (`Valid`) is the value-level invariant of the room or registry.

In two places the model follows the code where its behaviour may surprise:

- A player name that is already seated is accepted again. The room then fills
  both seats with one player and can never resolve a round
  (`RoomModel.DuplicateSeatNeverScores`).
- A choice string outside Rock, Paper and Scissors is not rejected. Against any
  different string it hands the round to the second seat
  (`Rules.MalformedChoiceFavoursSecondSeat`).

## Model

| member | source | states |
|---|---|---|
| Rules.Outcome | demo/src/main/java/com/example/demo/DemoApplication.java:151-161 | a draw exactly when the two strings are equal; the first seat wins only with two canonical moves; any other unequal pair, malformed strings included, goes to the second seat |
| Rules.NameIsBijective | demo/src/main/java/com/example/demo/DemoApplication.java:153-155 | the three canonical strings name three distinct moves, and every canonical string names one |
| Rules.OutcomeIsCyclic | demo/src/main/java/com/example/demo/DemoApplication.java:151-161 | on canonical moves the string comparison agrees with the cyclic rule (a move beats the one before it on the cycle) |
| Rules.OutcomeSwapsWinner | demo/src/main/java/com/example/demo/DemoApplication.java:151-161 | for two distinct moves, swapping the seats swaps the winner, and the round is never a draw |
| Rules.EachMoveBeatsExactlyOne | demo/src/main/java/com/example/demo/DemoApplication.java:153-155 | each canonical move beats exactly one move and loses to exactly one |
| Rules.MalformedChoiceFavoursSecondSeat | demo/src/main/java/com/example/demo/DemoApplication.java:158-161 | an unrecognised string against a canonical move gives the round to the second seat, whichever seat sent it |
| RoomModel.EmptyRoom | demo/src/main/java/com/example/demo/DemoApplication.java:105-115 | a new room has its name, no players, no pending choices and no scores, and satisfies the room invariant |
| RoomModel.AddPlayer | demo/src/main/java/com/example/demo/DemoApplication.java:117-129 | a join succeeds exactly when fewer than two seats are taken; success appends the player with a zero score and announces the join, plus "ready" exactly when the second seat is filled; failure changes and sends nothing; the room invariant is preserved |
| RoomModel.TwoPendingMeansBothChose | demo/src/main/java/com/example/demo/DemoApplication.java:139-148 | in a valid room, two pending choices mean two distinct seated players who have both chosen, so the lookups of the round resolution are defined |
| RoomModel.DetermineWinner | demo/src/main/java/com/example/demo/DemoApplication.java:144-165 | resolution clears the pending choices, keeps name and players, either keeps the scores or raises exactly one seat's score by one, and sends one message on the room's topic |
| RoomModel.MakeChoice | demo/src/main/java/com/example/demo/DemoApplication.java:131-142 | a move from a player who is not seated changes nothing and sends nothing; a seated player's move is announced first, at most one more message follows, and the room invariant is preserved |
| RoomModel.ChoiceIsRecorded | demo/src/main/java/com/example/demo/DemoApplication.java:137-138 | a move that does not complete the round is stored under the player's name, replacing an earlier one, and only the move is announced |
| RoomModel.RoundScoring | demo/src/main/java/com/example/demo/DemoApplication.java:151-163 | with distinct players, a draw keeps every score, a first-seat win raises only the first score, a second-seat win raises only the second, each is announced, and the total of all wins grows by at most one |
| RoomModel.CompletingChoiceResolves | demo/src/main/java/com/example/demo/DemoApplication.java:139-141 | the move that completes a round is announced and then resolved on the spot, leaving nothing pending |
| RoomModel.AtMostTwoSeats | demo/src/main/java/com/example/demo/DemoApplication.java:117-128 | of any sequence of join attempts on a room with k seats taken, exactly min(attempts, 2 - k) are admitted |
| RoomModel.Apply | demo/src/main/java/com/example/demo/DemoApplication.java:117-142 | serving one join or move request preserves the room invariant |
| RoomModel.Run | demo/src/main/java/com/example/demo/DemoApplication.java:117-165 | serving any sequence of requests preserves the room invariant |
| RoomModel.ApplyOnlyGrows | demo/src/main/java/com/example/demo/DemoApplication.java:117-165 | one request keeps the name, only appends to the players, and never lowers or removes a score |
| RoomModel.RunOnlyGrows | demo/src/main/java/com/example/demo/DemoApplication.java:117-165 | over any sequence of requests, the name is kept, the players only grow as a prefix, and no score goes down |
| RoomModel.AliceTakesFirstSeat | demo/src/main/java/com/example/demo/DemoApplication.java:117-122 | the first join of an empty room is accepted and announced as "Player alice joined." on "/topic/r1" |
| RoomModel.BobTakesSecondSeat | demo/src/main/java/com/example/demo/DemoApplication.java:117-126 | the second join is accepted and announced, followed by "Game ready to start!" |
| RoomModel.AliceChoosesRock | demo/src/main/java/com/example/demo/DemoApplication.java:131-138 | the first move is stored and announced, and the round stays open |
| RoomModel.RockBeatsScissors | demo/src/main/java/com/example/demo/DemoApplication.java:144-164 | Rock against Scissors raises the first seat's score and announces "alice wins!" |
| RoomModel.BobChoosesScissors | demo/src/main/java/com/example/demo/DemoApplication.java:131-165 | the completing move is announced, then resolved: alice has one win, bob none, nothing is pending |
| RoomModel.AliceBeatsBob | demo/src/main/java/com/example/demo/DemoApplication.java:117-165 | over the whole match of two joins and two moves, the final scores are alice 1 and bob 0, nothing is pending, and the last broadcast is "alice wins!" |
| RoomModel.DuplicateSeatNeverScores | demo/src/main/java/com/example/demo/DemoApplication.java:117-141 | when one name holds both seats, no move ever changes a score and at most one choice is ever pending |
| RegistryModel.CreateRoom | demo/src/main/java/com/example/demo/DemoApplication.java:52-60 | creation succeeds exactly when the name is free; it adds only that name, with an empty room, and never replaces an existing room |
| RegistryModel.CreateKeepsWellFormed | demo/src/main/java/com/example/demo/DemoApplication.java:55-56 | after a creation, every room is still filed under its own name and satisfies the room invariant |
| RegistryModel.JoinRoom | demo/src/main/java/com/example/demo/DemoApplication.java:62-70 | a join succeeds exactly when the room exists and has a free seat; a missing room is a no-op; otherwise the named room takes the room's join step and no other room changes |
| RegistryModel.JoinKeepsWellFormed | demo/src/main/java/com/example/demo/DemoApplication.java:64-66 | after a join, every room is still filed under its own name and satisfies the room invariant |
| RegistryModel.MakeChoice | demo/src/main/java/com/example/demo/DemoApplication.java:72-80 | a move for an unknown room changes and sends nothing; otherwise the named room takes the room's move step and no other room changes |
| RegistryModel.ChoiceKeepsWellFormed | demo/src/main/java/com/example/demo/DemoApplication.java:76-79 | after a move, every room is still filed under its own name and satisfies the room invariant |
| RegistryModel.CreateAll | demo/src/main/java/com/example/demo/DemoApplication.java:52-60 | a batch of creation requests gives one answer per request; afterwards exactly the requested names have been added and no existing room has been replaced |
| RegistryModel.FirstCreationWins | demo/src/main/java/com/example/demo/DemoApplication.java:55-59 | in any sequence of creation requests, a request succeeds exactly when its name was neither registered before nor requested earlier in the sequence |
| Server.Broadcaster.ConvertAndSend | demo/src/main/java/com/example/demo/DemoApplication.java:122-124 | handing a message to the template appends exactly that topic and payload to its log |
| Server.GameRoom.constructor | demo/src/main/java/com/example/demo/DemoApplication.java:112-115 | a new room object holds the empty room of its name and satisfies the room invariant |
| Server.GameRoom.AddPlayer | demo/src/main/java/com/example/demo/DemoApplication.java:117-129 | the method's answer, new fields and broadcasts are exactly those of the join step, and the invariant is kept |
| Server.GameRoom.MakeChoice | demo/src/main/java/com/example/demo/DemoApplication.java:131-142 | the new fields and broadcasts are exactly those of the move step; a non-seated player leaves the object untouched; the invariant is kept |
| Server.GameRoom.DetermineWinner | demo/src/main/java/com/example/demo/DemoApplication.java:144-165 | the new fields and broadcast are exactly those of the resolution step, and the pending choices are cleared |
| Server.GameController.constructor | demo/src/main/java/com/example/demo/DemoApplication.java:40-45 | a new controller has no rooms and satisfies its invariant |
| Server.GameController.ListRooms | demo/src/main/java/com/example/demo/DemoApplication.java:47-50 | the returned list holds each registered name exactly once and nothing else |
| Server.GameController.CreateRoom | demo/src/main/java/com/example/demo/DemoApplication.java:52-60 | the answer and the new registry are those of the registry's creation step; existing room objects are kept and a created one is fresh |
| Server.GameController.JoinRoom | demo/src/main/java/com/example/demo/DemoApplication.java:62-70 | the answer, the new state of every room and the broadcasts are those of the registry's join step; the set of room objects is unchanged |
| Server.GameController.MakeChoice | demo/src/main/java/com/example/demo/DemoApplication.java:72-80 | the new state of every room and the broadcasts are those of the registry's move step; the set of room objects is unchanged |

## Left out

- Application bootstrap, the web-socket endpoint configuration and the HTTP or STOMP routing annotations are framework wiring. They carry no game logic.
- The messaging template's delivery to subscribers is not modelled. A broadcast is an entry appended to `Broadcaster.log`, in order.
- Console output (`System.out.println`) has no effect on state and is left out.
- Concurrency is left out: `synchronized` methods, the concurrent maps and the race between the check and the insert in `createRoom`. Every operation is modelled as atomic and the operations as serialised.
- The room registry is a `static` field in the source, shared by every controller instance. The model has one controller that owns its map.
- `null` arguments and missing request parameters are not modelled. Names, players and choices are always strings.
- Win counts are Java `Integer`s that would wrap after 2^31 - 1 wins. The model uses unbounded integers.
- The response strings of `createRoom` and `joinRoom` are not modelled. Their success or failure is modelled as a boolean. `joinRoom` has one failure answer for "full" and "no such room", and the model keeps that.
- The `PlayerChoice` message body is modelled as the two strings it carries.
- The browser client (`script.js`) is not part of this model.
- Server.GameController.ListRooms: the order of the names is not stated, since the source returns the key order of a hash map.
