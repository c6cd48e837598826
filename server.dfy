/** The game server as objects that change in place: the broadcaster every
    room sends through, the rooms, and the controller that owns the map from
    room name to room. Each method is proved to do exactly what the
    corresponding function of RoomModel or RegistryModel says. */
module Server {
  import opened Rules
  import opened RoomModel
  import RegistryModel

  /** The messaging template, reduced to what the rooms can observe of it:
      every message handed to it, in the order it was handed over. */
  class Broadcaster {
    var log: seq<Event>

    constructor ()
      ensures log == []
    {
      log := [];
    }

    method ConvertAndSend(topic: string, message: string)
      modifies this
      ensures log == old(log) + [Event(topic, message)]
    {
      log := log + [Event(topic, message)];
    }
  }

  class GameRoom {
    const name: string
    const broker: Broadcaster
    var players: seq<string>
    var choices: map<string, string>
    var wins: map<string, int>

    /** The room's fields as a value. */
    function State(): Room
      reads this
    {
      Room(name, players, choices, wins)
    }

    ghost predicate Valid()
      reads this
    {
      Inv(State())
    }

    constructor (name: string, broker: Broadcaster)
      ensures this.name == name && this.broker == broker
      ensures State() == EmptyRoom(name)
      ensures Valid()
    {
      this.name := name;
      this.broker := broker;
      players := [];
      choices := map[];
      wins := map[];
    }

    /** Take a seat if one is free; announce the join, and that the game is
        ready when the second seat was just taken. */
    method AddPlayer(player: string) returns (ok: bool)
      requires Valid()
      modifies this, broker
      ensures Valid()
      ensures ok <==> |old(players)| < 2
      ensures !ok ==> players == old(players) && wins == old(wins) && broker.log == old(broker.log)
      ensures ok ==> players == old(players) + [player] && wins == old(wins)[player := 0]
      ensures choices == old(choices)
      ensures var s := RoomModel.AddPlayer(old(State()), player);
        ok == s.accepted && State() == s.room && broker.log == old(broker.log) + s.sent
    {
      ghost var s := RoomModel.AddPlayer(State(), player);
      if |players| < 2 {
        players := players + [player];
        wins := wins[player := 0];
        broker.ConvertAndSend(Topic(name), JoinedMessage(player));
        if |players| == 2 {
          broker.ConvertAndSend(Topic(name), ReadyMessage);
        }
        assert State() == s.room;
        return true;
      }
      return false;
    }

    /** Record a seated player's move, announce it, and resolve the round when
        both seats have moved; a move from anyone else is ignored. */
    method MakeChoice(player: string, choice: string)
      requires Valid()
      modifies this, broker
      ensures Valid()
      ensures player !in old(players) ==> unchanged(this) && broker.log == old(broker.log)
      ensures players == old(players) && wins.Keys == old(wins.Keys)
      ensures var s := RoomModel.MakeChoice(old(State()), player, choice);
        State() == s.room && broker.log == old(broker.log) + s.sent
    {
      if player !in players {
        return;
      }
      ghost var s := RoomModel.MakeChoice(State(), player, choice);
      choices := choices[player := choice];
      broker.ConvertAndSend(Topic(name), MovedMessage(player));
      if |choices| == 2 {
        TwoPendingMeansBothChose(players, choices);
        DetermineWinner();
      }
      assert State() == s.room;
    }

    /** Score the completed round by the outcome rule, announce the result and
        clear the pending choices. */
    method DetermineWinner()
      requires |players| >= 2
      requires players[0] in choices && players[1] in choices
      requires players[0] in wins && players[1] in wins
      modifies this, broker
      ensures choices == map[] && players == old(players)
      ensures var s := RoomModel.DetermineWinner(old(State()));
        State() == s.room && broker.log == old(broker.log) + s.sent
    {
      var p1 := players[0];
      var p2 := players[1];
      var c1 := choices[p1];
      var c2 := choices[p2];
      var result: string;
      match Outcome(c1, c2) {
        case Draw =>
          result := DrawMessage;
        case FirstWins =>
          result := WinsMessage(p1);
          wins := wins[p1 := wins[p1] + 1];
        case SecondWins =>
          result := WinsMessage(p2);
          wins := wins[p2 := wins[p2] + 1];
      }
      broker.ConvertAndSend(Topic(name), result);
      choices := map[];
    }
  }

  class GameController {
    var rooms: map<string, GameRoom>
    const broker: Broadcaster

    /** Every room is filed under its own name and sends through the
        controller's broadcaster (so distinct names hold distinct room
        objects), and the registry as a value is well formed: every room keeps
        the room invariant. */
    ghost predicate Valid()
      reads this, rooms.Values
    {
      && (forall n :: n in rooms ==> rooms[n].name == n && rooms[n].broker == broker)
      && RegistryModel.WellFormed(Snapshot())
    }

    /** The registry as a value: each room's state under its name. */
    ghost function Snapshot(): RegistryModel.Rooms
      reads this, rooms.Values
    {
      map n | n in rooms :: rooms[n].State()
    }

    constructor (broker: Broadcaster)
      ensures this.broker == broker && rooms == map[]
      ensures Valid()
    {
      this.broker := broker;
      rooms := map[];
    }

    /** A snapshot of the registered names: each exactly once. */
    method ListRooms() returns (names: seq<string>)
      ensures forall n :: n in names <==> n in rooms
      ensures forall i, j :: 0 <= i < j < |names| ==> names[i] != names[j]
    {
      names := [];
      var left := rooms.Keys;
      while left != {}
        invariant left <= rooms.Keys
        invariant forall n :: n in names <==> n in rooms && n !in left
        invariant forall i, j :: 0 <= i < j < |names| ==> names[i] != names[j]
        decreases left
      {
        var n :| n in left;
        names := names + [n];
        left := left - {n};
      }
    }

    /** Register a new empty room under `name` unless one exists already; an
        existing room object is never replaced. */
    method CreateRoom(name: string) returns (created: bool)
      requires Valid()
      modifies this
      ensures Valid()
      ensures created <==> name !in old(rooms)
      ensures forall n :: n in rooms <==> n in old(rooms) || n == name
      ensures forall n :: n in old(rooms) ==> n in rooms && rooms[n] == old(rooms)[n]
      ensures created ==> fresh(rooms[name])
      ensures var c := RegistryModel.CreateRoom(old(Snapshot()), name);
        created == c.created && Snapshot() == c.rooms
    {
      ghost var before := Snapshot();
      if name !in rooms {
        var room := new GameRoom(name, broker);
        rooms := rooms[name := room];
        SnapshotIs(before[name := EmptyRoom(name)]);
        RegistryModel.CreateKeepsWellFormed(before, name);
        return true;
      }
      return false;
    }

    /** The snapshot is determined by which names are registered and what
        state each registered room holds. */
    lemma SnapshotIs(m: RegistryModel.Rooms)
      requires forall n :: n in rooms <==> n in m
      requires forall n :: n in rooms ==> rooms[n].State() == m[n]
      ensures Snapshot() == m
    {
    }

    /** Seat `player` in the room called `name`; fails when there is no such
        room or it is full. */
    method JoinRoom(name: string, player: string) returns (joined: bool)
      requires Valid()
      modifies broker, if name in rooms then {rooms[name]} else {}
      ensures Valid()
      ensures rooms == old(rooms)
      ensures joined ==> name in rooms
      ensures var j := RegistryModel.JoinRoom(old(Snapshot()), name, player);
        joined == j.joined && Snapshot() == j.rooms && broker.log == old(broker.log) + j.sent
    {
      joined := false;
      ghost var before := Snapshot();
      ghost var j := RegistryModel.JoinRoom(before, name, player);
      if name in rooms {
        var room := rooms[name];
        assert before[name] == room.State();
        joined := room.AddPlayer(player);
        assert room.State() == j.rooms[name];
        forall n | n in rooms
          ensures rooms[n].State() == j.rooms[n]
        {
          if n != name {
            assert rooms[n].name != room.name;
          }
        }
      }
      SnapshotIs(j.rooms);
      RegistryModel.JoinKeepsWellFormed(before, name, player);
    }

    /** Forward a move to the room called `roomName`, if there is one. */
    method MakeChoice(roomName: string, player: string, choice: string)
      requires Valid()
      modifies broker, if roomName in rooms then {rooms[roomName]} else {}
      ensures Valid()
      ensures rooms == old(rooms)
      ensures var u := RegistryModel.MakeChoice(old(Snapshot()), roomName, player, choice);
        Snapshot() == u.rooms && broker.log == old(broker.log) + u.sent
    {
      ghost var before := Snapshot();
      ghost var u := RegistryModel.MakeChoice(before, roomName, player, choice);
      if roomName in rooms {
        var room := rooms[roomName];
        assert before[roomName] == room.State();
        room.MakeChoice(player, choice);
        assert room.State() == u.rooms[roomName];
        forall n | n in rooms
          ensures rooms[n].State() == u.rooms[n]
        {
          if n != roomName {
            assert rooms[n].name != room.name;
          }
        }
      }
      SnapshotIs(u.rooms);
      RegistryModel.ChoiceKeepsWellFormed(before, roomName, player, choice);
    }
  }
}
