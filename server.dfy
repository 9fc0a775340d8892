/** The server's handling of one client (server/src/main.rs,
    `handle_client_1` and `handle_room`): the room selector the client sends
    first, the dispatch to the registry, and the claim that starts a room's
    game by telling each of its two clients its role. */
module Server {
  import opened Common
  import opened Rooms
  import Game

  /** The size of the buffer the selector is read into. */
  const SelectorBufferSize: int := 100

  /** The first read on a new connection: the bytes it returned (none when
      the client closed the connection) or an error. */
  datatype SelectorRead = Received(bytes: seq<Byte>) | ReadError

  predicate FitsBuffer(read: SelectorRead) {
    read.Received? ==> |read.bytes| <= SelectorBufferSize
  }

  /** The room the client asks for: the received text, trimmed, parsed as an
      `i32`; -1 (random matchmaking) when nothing arrived, the read failed or
      the text does not parse. */
  function Selector(read: SelectorRead): (room: int)
    requires FitsBuffer(read)
    ensures IsI32(room)
    ensures read.ReadError? || read.bytes == [] ==> room == -1
    ensures read.Received? && room != -1 ==> ParseI32(Trim(Text(read.bytes))) == Some(room)
  {
    match read
    case ReadError => -1
    case Received(bytes) =>
      if bytes == [] then -1
      else match ParseI32(Trim(Text(bytes)))
        case Some(num) => num
        case None => -1
  }

  /** Whatever selector text a client's `room_id.to_string()` produces for
      an `i32`, the server reads back the same number. */
  lemma ClientSelectorReachesServer(n: int)
    requires IsI32(n)
    ensures IsNarrow(DecimalText(n))
    ensures FitsBuffer(Received(Bytes(DecimalText(n))))
    ensures Selector(Received(Bytes(DecimalText(n)))) == n
  {
    var s := DecimalText(n);
    DecimalTextIsNarrow(n);
    I32TextIsShort(n);
    assert !IsWhitespace(s[0]) && !IsWhitespace(s[|s| - 1]);
    TrimUnpadded(s);
    ConvertRoundTrip(n);
  }

  /** Unlike the client's `convert_to_i32`, the server accepts a numeral
      padded with whitespace (a trailing newline, say). */
  lemma PaddedSelectorIsAccepted(pad1: string, s: string, pad2: string)
    requires forall i | 0 <= i < |pad1| :: IsWhitespace(pad1[i])
    requires forall i | 0 <= i < |pad2| :: IsWhitespace(pad2[i])
    requires ParseI32(s).Some?
    requires IsNarrow(pad1 + s + pad2) && |pad1 + s + pad2| <= SelectorBufferSize
    ensures Selector(Received(Bytes(pad1 + s + pad2))) == ParseI32(s).value
  {
    TrimThenParse(pad1, s, pad2);
  }

  /** Where `handle_client_1` puts a client whose selector is `room`: -1
      means random matchmaking; any other code joins an open room with that
      code, or a new room with that code when there is none. */
  function Placement(rs: seq<RoomView>, c: ConnId, room: int): (res: (seq<RoomView>, int))
  {
    if room == -1 then JoinRandom(rs, c)
    else
      var (rs', id) := JoinSpecific(rs, c, room);
      if id == -1 then JoinNew(rs', c, room) else (rs', id)
  }

  /** An explicit code is always the answer, the client is placed exactly
      once, and the registry grows by at most one room. */
  lemma ExplicitCodeIsKept(rs: seq<RoomView>, c: ConnId, room: int)
    requires room != -1
    ensures Placement(rs, c, room).1 == room
    ensures |rs| <= |Placement(rs, c, room).0| <= |rs| + 1
    ensures SeatsOneMore(rs, Placement(rs, c, room).0, c)
  {
    var (rs', id) := JoinSpecific(rs, c, room);
    if id == -1 {
      assert forall k | 0 <= k < |rs| :: !OpenWithCode(rs[k], room);
    }
  }

  /** A client whose selector cannot be read or parsed goes through random
      matchmaking. */
  lemma UnreadableSelectorIsRandom(rs: seq<RoomView>, c: ConnId, read: SelectorRead)
    requires FitsBuffer(read)
    requires read.ReadError? || read.bytes == [] || ParseI32(Trim(Text(read.bytes))) == None
    ensures Placement(rs, c, Selector(read)) == JoinRandom(rs, c)
  {
  }

  /** "-2", which a client sends to play against the computer, is an
      ordinary explicit code. */
  lemma ComputerSelectorIsExplicit(rs: seq<RoomView>, c: ConnId)
    ensures Selector(Received(Bytes("-2"))) == -2
    ensures Placement(rs, c, -2).1 == -2
  {
    assert DecimalText(-2) == "-2";
    ClientSelectorReachesServer(-2);
    ExplicitCodeIsKept(rs, c, -2);
  }

  /** The codes the registry answers are `i32`s, and the reply text the
      client receives converts back to the same code. */
  lemma PlacementReply(rs: seq<RoomView>, c: ConnId, room: int)
    requires CodesAreI32(rs) && IsI32(room)
    ensures IsI32(Placement(rs, c, room).1)
    ensures CodesAreI32(Placement(rs, c, room).0)
    ensures ConvertToI32(DecimalText(Placement(rs, c, room).1)) == Placement(rs, c, room).1
  {
    var res := Placement(rs, c, room);
    if room != -1 {
      ExplicitCodeIsKept(rs, c, room);
      var (rs', id) := JoinSpecific(rs, c, room);
      if id == -1 {
        assert CodesAreI32(rs');
      }
    }
    ConvertRoundTrip(res.1);
  }

  /** Appended codes come from the number of rooms, so they can repeat an
      explicit code: two clients who chose code 1 fill room 0, and the next
      random client is put alone in a new room that also has code 1. That
      client then sees `check_room(1)` hold although its own room is not
      full. */
  lemma CodesCanCollide()
    ensures var (rs1, a) := Placement([], 10, 1);
            var (rs2, b) := Placement(rs1, 11, 1);
            var (rs3, d) := Placement(rs2, 12, -1);
            a == 1 && b == 1 && d == 1 && |rs3| == 2 &&
            rs3[0].code == rs3[1].code == 1 && Occupants(rs3[1]) == multiset{12} &&
            !rs3[1].isFull && IsFullRoom(rs3, 1)
  {
    var (rs1, a) := Placement([], 10, 1);
    assert rs1 == [RoomView(Some(10), None, false, 1, false)];
    FirstWhereIs(rs1, OpenWith(1), 0);
    var (rs2, b) := Placement(rs1, 11, 1);
    assert rs2 == [RoomView(Some(10), Some(11), true, 1, false)];
    FirstWhereIs(rs2, HasFreeSlot, 1);
    var (rs3, d) := Placement(rs2, 12, -1);
    assert rs3 == rs2 + [RoomView(Some(12), None, false, 1, false)];
  }

  /** The registry part of `handle_client_1`: read the selector, place the
      client, and answer the room code as text. */
  method HandleClient(m: RoomsManager, c: ConnId, read: SelectorRead) returns (rmId: int, reply: seq<Byte>)
    requires m.Valid() && FitsBuffer(read)
    modifies m, m.rooms
    ensures m.Valid()
    ensures (m.Snapshot(), rmId) == Placement(old(m.Snapshot()), c, Selector(read))
    ensures IsI32(rmId) && Text(reply) == DecimalText(rmId)
  {
    ghost var before := m.Snapshot();
    var room := Selector(read);
    if room == -1 {
      rmId := m.AddToRoom(c);
    } else {
      rmId := m.AddToSpecRoom(c, room);
      if rmId == -1 {
        rmId := m.AddToNewRoom(c, room);
      }
    }
    PlacementReply(before, c, room);
    DecimalTextIsNarrow(rmId);
    reply := Bytes(DecimalText(rmId));
  }

  // ---------------------------------------------------------------------
  // Starting a room's game

  /** What a `handle_room` call does after its claim: nothing (the room was
      claimed already), both roles announced, or a panic on `unwrap` of an
      empty slot after the writes that came before it. Each write is a
      connection and the text sent on it. */
  datatype Start = Skipped | Announced(writes: seq<(ConnId, string)>) | Panicked(writes: seq<(ConnId, string)>)

  /** The role split: `first` (drawn at random from 1 and 2) goes to the
      first slot, the other role to the second. */
  function Announce(claim: ClaimResult, first: int): (s: Start)
    requires first == 1 || first == 2
    ensures s.Skipped? <==> claim.AlreadyTaken?
    ensures s.Announced? <==> claim.Claimed? && claim.slot1.Some? && claim.slot2.Some?
    ensures s.Announced? ==> |s.writes| == 2 && s.writes[0].0 == claim.slot1.value && s.writes[1].0 == claim.slot2.value
    ensures s.Panicked? && s.writes != [] ==> claim.Claimed? && claim.slot1.Some? && claim.slot2.None? && s.writes == [(claim.slot1.value, DecimalText(first))]
    ensures claim.Claimed? && claim.slot1.Some? && claim.slot2.None? ==> s == Panicked([(claim.slot1.value, DecimalText(first))])
    ensures claim.NoRoom? || (claim.Claimed? && claim.slot1.None?) ==> s == Panicked([])
  {
    match claim
    case AlreadyTaken => Skipped
    case NoRoom => Panicked([])
    case Claimed(slot1, slot2) =>
      if slot1.None? then Panicked([])
      else
        var temp := if first == 1 then 2 else 1;
        var writes := [(slot1.value, DecimalText(first))];
        if slot2.None? then Panicked(writes)
        else Announced(writes + [(slot2.value, DecimalText(temp))])
  }

  /** The two players are told different roles, "1" and "2", and the first
      slot gets the random draw. */
  lemma RolesDistinct(claim: ClaimResult, first: int)
    requires first == 1 || first == 2
    requires Announce(claim, first).Announced?
    ensures var w := Announce(claim, first).writes;
            w[0].1 != w[1].1 && {w[0].1, w[1].1} == {"1", "2"} && w[0].1 == DecimalText(first)
  {
    assert DecimalText(1) == "1" && DecimalText(2) == "2";
  }

  /** Neither role text contains "soarecele", the word by which the client's
      `GetTurn` arm recognises the mouse's role, so both clients of a room
      take the wall builder's role (player 2). */
  lemma RoleNoticesNeverNameTheMouse(claim: ClaimResult, first: int)
    requires first == 1 || first == 2
    requires Announce(claim, first).Announced?
    ensures var w := Announce(claim, first).writes;
            IsNarrow(w[0].1) && IsNarrow(w[1].1) &&
            !Game.Contains(Bytes(w[0].1), Game.MouseWord) && !Game.Contains(Bytes(w[1].1), Game.MouseWord)
  {
    RolesDistinct(claim, first);
  }

  /** Of the two threads of a room's clients, only the first to claim the
      room announces; the second returns without effect (or, when no room
      has the code at all, both panic without writing). */
  lemma OnlyOneAnnounces(rs: seq<RoomView>, code: int, first1: int, first2: int)
    requires first1 in {1, 2} && first2 in {1, 2}
    ensures var (after, claim) := Claim(rs, code);
            var second := Announce(Claim(after, code).1, first2);
            Claim(after, code).0 == after &&
            (second == Skipped || (second == Panicked([]) && claim == NoRoom))
  {
    ClaimOnce(rs, code);
    var (after, claim) := Claim(rs, code);
    if Claim(after, code).1 == NoRoom {
      assert forall k | 0 <= k < |rs| :: rs[k].code == after[k].code != code;
    }
  }

  /** `handle_room(room_id)` up to its final endless loop, with the random
      draw `first` as a parameter. */
  method HandleRoom(m: RoomsManager, roomId: int, first: int) returns (start: Start)
    requires m.Valid() && (first == 1 || first == 2)
    modifies m.rooms
    ensures m.Valid()
    ensures m.Snapshot() == Claim(old(m.Snapshot()), roomId).0
    ensures start == Announce(Claim(old(m.Snapshot()), roomId).1, first)
  {
    var claim := m.ClaimRoom(roomId);
    if claim.AlreadyTaken? {
      return Skipped;
    }
    var slot1, slot2 := None, None;
    if claim.Claimed? {
      slot1, slot2 := claim.slot1, claim.slot2;
    }
    if slot1.None? {
      return Panicked([]);
    }
    var writes := [(slot1.value, DecimalText(first))];
    var temp;
    if first == 1 {
      temp := 2;
    } else {
      temp := 1;
    }
    if slot2.None? {
      return Panicked(writes);
    }
    start := Announced(writes + [(slot2.value, DecimalText(temp))]);
  }
}
