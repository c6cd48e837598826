/** The room registry as a value: a map from room name to room, with the
    controller's operations as functions over it. */
module RegistryModel {
  import opened RoomModel

  type Rooms = map<string, Room>

  /** Every registered room is filed under its own name and keeps the room
      invariant. */
  predicate WellFormed(rooms: Rooms)
  {
    forall n :: n in rooms ==> rooms[n].name == n && Inv(rooms[n])
  }

  datatype Created = Created(created: bool, rooms: Rooms)

  datatype Joined = Joined(joined: bool, rooms: Rooms, sent: seq<Event>)

  datatype Update = Update(rooms: Rooms, sent: seq<Event>)

  /** Register a fresh empty room under `name` unless the name is taken; an
      existing room is never replaced. Creation broadcasts nothing. */
  function CreateRoom(rooms: Rooms, name: string): (c: Created)
    ensures c.created <==> name !in rooms
    ensures forall n :: n in c.rooms <==> n in rooms || n == name
    ensures forall n :: n in rooms ==> c.rooms[n] == rooms[n]
    ensures c.created ==> c.rooms[name] == EmptyRoom(name)
  {
    if name !in rooms then Created(true, rooms[name := EmptyRoom(name)])
    else Created(false, rooms)
  }

  /** Seat `player` in the room called `name`. The join fails when no such
      room exists or the room is full; only the named room can change. */
  function JoinRoom(rooms: Rooms, name: string, player: string): (j: Joined)
    ensures j.joined <==> name in rooms && |rooms[name].players| < 2
    ensures j.rooms.Keys == rooms.Keys
    ensures forall n :: n in rooms && n != name ==> j.rooms[n] == rooms[n]
    ensures name !in rooms ==> j.rooms == rooms && j.sent == []
    ensures name in rooms ==>
      var s := AddPlayer(rooms[name], player);
      j.rooms[name] == s.room && j.sent == s.sent
  {
    if name !in rooms then Joined(false, rooms, [])
    else
      var s := AddPlayer(rooms[name], player);
      Joined(s.accepted, rooms[name := s.room], s.sent)
  }

  /** Creating a room keeps every room filed under its name and valid. */
  lemma CreateKeepsWellFormed(rooms: Rooms, name: string)
    requires WellFormed(rooms)
    ensures WellFormed(CreateRoom(rooms, name).rooms)
  {
    var c := CreateRoom(rooms, name);
    forall n | n in c.rooms
      ensures c.rooms[n].name == n && Inv(c.rooms[n])
    {
      if n !in rooms {
        assert c.rooms[n] == EmptyRoom(name);
      }
    }
  }

  /** Joining a room keeps every room filed under its name and valid. */
  lemma JoinKeepsWellFormed(rooms: Rooms, name: string, player: string)
    requires WellFormed(rooms)
    ensures WellFormed(JoinRoom(rooms, name, player).rooms)
  {
    var j := JoinRoom(rooms, name, player);
    forall n | n in j.rooms
      ensures j.rooms[n].name == n && Inv(j.rooms[n])
    {
      if n == name {
        assert Inv(rooms[n]);
      }
    }
  }

  /** Forward a move to the room called `roomName`; a move addressed to an
      unknown room changes nothing and broadcasts nothing. */
  function MakeChoice(rooms: Rooms, roomName: string, player: string, choice: string): (u: Update)
    requires WellFormed(rooms)
    ensures u.rooms.Keys == rooms.Keys
    ensures forall n :: n in rooms && n != roomName ==> u.rooms[n] == rooms[n]
    ensures roomName !in rooms ==> u.rooms == rooms && u.sent == []
    ensures roomName in rooms ==>
      var s := RoomModel.MakeChoice(rooms[roomName], player, choice);
      u.rooms[roomName] == s.room && u.sent == s.sent
  {
    if roomName !in rooms then Update(rooms, [])
    else
      var s := RoomModel.MakeChoice(rooms[roomName], player, choice);
      Update(rooms[roomName := s.room], s.sent)
  }

  /** A move keeps every room filed under its name and valid. */
  lemma ChoiceKeepsWellFormed(rooms: Rooms, roomName: string, player: string, choice: string)
    requires WellFormed(rooms)
    ensures WellFormed(MakeChoice(rooms, roomName, player, choice).rooms)
  {
    var u := MakeChoice(rooms, roomName, player, choice);
    forall n | n in u.rooms
      ensures u.rooms[n].name == n && Inv(u.rooms[n])
    {
      if n == roomName {
        assert Inv(rooms[n]);
      }
    }
  }

  datatype Batch = Batch(rooms: Rooms, results: seq<bool>)

  /** Creation requests served one after another, with each one's answer:
      afterwards exactly the requested names have been added, and no room that
      was already registered has been replaced. */
  function CreateAll(rooms: Rooms, names: seq<string>): (b: Batch)
    ensures |b.results| == |names|
    ensures forall n :: n in b.rooms <==> n in rooms || n in names
    ensures forall n :: n in rooms ==> b.rooms[n] == rooms[n]
    decreases |names|
  {
    if names == [] then Batch(rooms, [])
    else
      var c := CreateRoom(rooms, names[0]);
      var rest := CreateAll(c.rooms, names[1..]);
      assert forall n :: n in names <==> n == names[0] || n in names[1..];
      Batch(rest.rooms, [c.created] + rest.results)
  }

  /** Among any sequence of creation requests, the ones that succeed are
      exactly the first request for each name that was not yet registered:
      every later request for that name finds it taken. */
  lemma {:induction false} FirstCreationWins(rooms: Rooms, names: seq<string>, i: nat)
    requires i < |names|
    ensures CreateAll(rooms, names).results[i] <==> names[i] !in rooms && names[i] !in names[..i]
    decreases i
  {
    var c := CreateRoom(rooms, names[0]);
    var rest := CreateAll(c.rooms, names[1..]);
    assert CreateAll(rooms, names).results == [c.created] + rest.results;
    if i > 0 {
      FirstCreationWins(c.rooms, names[1..], i - 1);
      assert names[i] in c.rooms <==> names[i] in rooms || names[i] == names[0];
      EarlierInTail(names, i);
    }
  }

  /** A later name occurs before position `i` exactly when it is the first name
      or occurs before the corresponding position of the tail. */
  lemma EarlierInTail(names: seq<string>, i: nat)
    requires 0 < i < |names|
    ensures names[1..][i - 1] == names[i]
    ensures names[i] in names[..i] <==> names[i] == names[0] || names[i] in names[1..][..i - 1]
  {
    assert names[..i] == [names[0]] + names[1..][..i - 1];
  }
}
