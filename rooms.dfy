/** The server's room registry (server/src/main.rs, `Room` and
    `RoomsManager`). A room holds up to two client connections; the
    registry is a vector of rooms scanned in order. A connection is known by
    its peer address, so comparing `peer_addr`s becomes comparing ids. */
module Rooms {
  import opened Common

  /** A client connection, identified by its peer address. */
  type ConnId = int

  /** The fields of a `Room` at one moment. */
  datatype RoomView = RoomView(slot1: Option<ConnId>, slot2: Option<ConnId>, isFull: bool, code: int, isTaken: bool)

  /** The connections held in the two slots. */
  function Occupants(r: RoomView): multiset<ConnId> {
    (if r.slot1.Some? then multiset{r.slot1.value} else multiset{}) +
    (if r.slot2.Some? then multiset{r.slot2.value} else multiset{})
  }

  predicate HasFreeSlot(r: RoomView) {
    r.slot1.None? || r.slot2.None?
  }

  /** `is_full` says exactly that both slots are occupied. */
  predicate FullIffOccupied(r: RoomView) {
    r.isFull <==> r.slot1.Some? && r.slot2.Some?
  }

  /** `Room::new(code)`. */
  function NewRoom(code: int): (r: RoomView)
    ensures r.code == code && Occupants(r) == multiset{} && HasFreeSlot(r)
    ensures !r.isTaken && FullIffOccupied(r)
  {
    RoomView(None, None, false, code, false)
  }

  /** `Room::add_to_room`: the connection takes `slot1` if it is free, else
      `slot2`; a room with both slots occupied refuses it. */
  function Admit(r: RoomView, c: ConnId): (res: (RoomView, bool))
    ensures res.1 <==> HasFreeSlot(r)
    ensures !res.1 ==> res.0 == r
    ensures res.1 ==> Occupants(res.0) == Occupants(r) + multiset{c}
    ensures r.slot1.None? ==> res.0.slot1 == Some(c) && res.0.slot2 == r.slot2
    ensures r.slot1.Some? ==> res.0.slot1 == r.slot1
    ensures res.0.code == r.code && res.0.isTaken == r.isTaken
    ensures FullIffOccupied(r) ==> FullIffOccupied(res.0)
  {
    if r.slot1.None? then
      (r.(slot1 := Some(c), isFull := if r.slot2.Some? then true else r.isFull), true)
    else if r.slot2.None? then
      (r.(slot2 := Some(c), isFull := if r.slot1.Some? then true else r.isFull), true)
    else
      (r, false)
  }

  /** `Room::remove_from_room`: a match in `slot1` empties it and clears
      `is_full`; a match in `slot2` clears `is_full` only. */
  function Evict(r: RoomView, c: ConnId): (res: (RoomView, bool))
    ensures res.1 <==> c in Occupants(r)
    ensures !res.1 ==> res.0 == r
    ensures res.1 ==> !res.0.isFull
    ensures r.slot1 == Some(c) ==> res.0.slot1 == None && Occupants(res.0) + multiset{c} == Occupants(r)
    ensures r.slot1 != Some(c) ==> res.0.slot1 == r.slot1 && res.0.slot2 == r.slot2
    ensures res.0.code == r.code && res.0.isTaken == r.isTaken
  {
    if r.slot1 == Some(c) then
      (r.(slot1 := None, isFull := false), true)
    else if r.slot2 == Some(c) then
      (r.(isFull := false), true)
    else
      (r, false)
  }

  /** A connection found only in `slot2` stays there after removal: the room
      is no longer full, yet it has no free slot either, so no one can join
      it again. */
  lemma EvictSecondKeepsSlot(r: RoomView, c: ConnId)
    requires r.slot1.Some? && r.slot1 != Some(c) && r.slot2 == Some(c)
    ensures Evict(r, c) == (r.(isFull := false), true)
    ensures c in Occupants(Evict(r, c).0)
    ensures !HasFreeSlot(Evict(r, c).0) && !FullIffOccupied(Evict(r, c).0)
  {
  }

  /** A `Room`; its code never changes after construction. */
  class Room {
    var slot1: Option<ConnId>
    var slot2: Option<ConnId>
    var isFull: bool
    const code: int
    var isTaken: bool

    function View(): RoomView
      reads this
    {
      RoomView(slot1, slot2, isFull, code, isTaken)
    }

    constructor(code: int)
      ensures View() == NewRoom(code)
    {
      slot1 := None;
      slot2 := None;
      isFull := false;
      this.code := code;
      isTaken := false;
    }

    method AddToRoom(c: ConnId) returns (added: bool)
      modifies this
      ensures (View(), added) == Admit(old(View()), c)
    {
      if slot1.None? {
        slot1 := Some(c);
        if slot2.Some? {
          isFull := true;
        }
        return true;
      }
      if slot2.None? {
        slot2 := Some(c);
        if slot1.Some? {
          isFull := true;
        }
        return true;
      }
      added := false;
    }

    method RemoveFromRoom(c: ConnId) returns (removed: bool)
      modifies this
      ensures (View(), removed) == Evict(old(View()), c)
    {
      if slot1 == Some(c) {
        slot1 := None;
        isFull := false;
        return true;
      }
      if slot2 == Some(c) {
        isFull := false;
        return true;
      }
      removed := false;
    }
  }

  // ---------------------------------------------------------------------
  // The registry as a sequence of room values

  /** The index of the first room satisfying `p`, or `|rs|` when none does. */
  function FirstWhere(rs: seq<RoomView>, p: RoomView -> bool): (i: nat)
    ensures i <= |rs|
    ensures forall j | 0 <= j < i :: !p(rs[j])
    ensures i < |rs| ==> p(rs[i])
  {
    if rs == [] then 0
    else if p(rs[0]) then 0
    else 1 + FirstWhere(rs[1..], p)
  }

  /** The first index is determined by the predicate alone. */
  lemma FirstWhereIs(rs: seq<RoomView>, p: RoomView -> bool, i: nat)
    requires i <= |rs| && (i < |rs| ==> p(rs[i]))
    requires forall j | 0 <= j < i :: !p(rs[j])
    ensures FirstWhere(rs, p) == i
  {
  }

  /** The number of slots of the registry that hold connection `d`. */
  function Seats(rs: seq<RoomView>, d: ConnId): nat {
    if rs == [] then 0 else Occupants(rs[0])[d] + Seats(rs[1..], d)
  }

  /** `after` holds connection `c` in one more slot than `before`, and every
      other connection in as many slots as before. */
  ghost predicate SeatsOneMore(before: seq<RoomView>, after: seq<RoomView>, c: ConnId) {
    forall d :: Seats(after, d) == Seats(before, d) + if d == c then 1 else 0
  }

  lemma {:induction false} SeatsAppend(rs: seq<RoomView>, r: RoomView, d: ConnId)
    ensures Seats(rs + [r], d) == Seats(rs, d) + Occupants(r)[d]
  {
    if rs != [] {
      assert (rs + [r])[0] == rs[0] && (rs + [r])[1..] == rs[1..] + [r];
      SeatsAppend(rs[1..], r, d);
    } else {
      assert [r][1..] == [];
    }
  }

  lemma {:induction false} SeatsUpdate(rs: seq<RoomView>, i: nat, r: RoomView, d: ConnId)
    requires i < |rs|
    ensures Seats(rs[i := r], d) + Occupants(rs[i])[d] == Seats(rs, d) + Occupants(r)[d]
  {
    if i == 0 {
      assert rs[i := r][1..] == rs[1..];
    } else {
      assert rs[i := r][1..] == rs[1..][i - 1 := r];
      SeatsUpdate(rs[1..], i - 1, r, d);
    }
  }

  /** Admitting `c` to one room of the registry seats it once more. */
  lemma AdmitSeatsOneMore(rs: seq<RoomView>, i: nat, c: ConnId)
    requires i < |rs| && HasFreeSlot(rs[i])
    ensures SeatsOneMore(rs, rs[i := Admit(rs[i], c).0], c)
  {
    forall d {
      SeatsUpdate(rs, i, Admit(rs[i], c).0, d);
    }
  }

  /** Appending a room that holds only `c` seats it once more. */
  lemma AppendSeatsOneMore(rs: seq<RoomView>, code: int, c: ConnId)
    ensures SeatsOneMore(rs, rs + [Admit(NewRoom(code), c).0], c)
  {
    forall d {
      SeatsAppend(rs, Admit(NewRoom(code), c).0, d);
    }
  }

  predicate CodesAreI32(rs: seq<RoomView>) {
    forall k | 0 <= k < |rs| :: IsI32(rs[k].code)
  }

  /** `RoomsManager::add_to_room`: join the first room with a free slot and
      answer its code; with none, append a room whose code is the old number
      of rooms (as an `i32`) and join it. */
  function JoinRandom(rs: seq<RoomView>, c: ConnId): (res: (seq<RoomView>, int))
    ensures |rs| <= |res.0| <= |rs| + 1
    ensures |res.0| == |rs| + 1 <==> forall k | 0 <= k < |rs| :: !HasFreeSlot(rs[k])
    ensures CodesAreI32(rs) ==> CodesAreI32(res.0) && IsI32(res.1)
  {
    var i := FirstWhere(rs, HasFreeSlot);
    if i < |rs| then
      (rs[i := Admit(rs[i], c).0], rs[i].code)
    else
      var code := WrapI32(|rs|);
      (rs + [Admit(NewRoom(code), c).0], code)
  }

  /** Random matchmaking places the connection exactly once and displaces
      no one. */
  lemma JoinRandomSeatsOnce(rs: seq<RoomView>, c: ConnId)
    ensures SeatsOneMore(rs, JoinRandom(rs, c).0, c)
  {
    var i := FirstWhere(rs, HasFreeSlot);
    if i < |rs| {
      AdmitSeatsOneMore(rs, i, c);
    } else {
      AppendSeatsOneMore(rs, WrapI32(|rs|), c);
    }
  }

  /** With a room that has a free slot, random matchmaking joins the first
      such room, answers its code and leaves every other room as it was. */
  lemma JoinRandomFirstOpen(rs: seq<RoomView>, c: ConnId, i: nat)
    requires i < |rs| && HasFreeSlot(rs[i])
    requires forall j | 0 <= j < i :: !HasFreeSlot(rs[j])
    ensures JoinRandom(rs, c).1 == rs[i].code
    ensures |JoinRandom(rs, c).0| == |rs|
    ensures forall j | 0 <= j < |rs| && j != i :: JoinRandom(rs, c).0[j] == rs[j]
    ensures JoinRandom(rs, c).0[i] == Admit(rs[i], c).0
  {
    FirstWhereIs(rs, HasFreeSlot, i);
  }

  /** With every room occupied, random matchmaking appends one room whose code
      is the old length and whose `slot1` holds the connection. */
  lemma JoinRandomAppends(rs: seq<RoomView>, c: ConnId)
    requires forall k | 0 <= k < |rs| :: !HasFreeSlot(rs[k])
    ensures JoinRandom(rs, c).0 == rs + [NewRoom(WrapI32(|rs|)).(slot1 := Some(c))]
    ensures JoinRandom(rs, c).1 == WrapI32(|rs|)
  {
    FirstWhereIs(rs, HasFreeSlot, |rs|);
  }

  /** With a room that has this code and a free slot, joining by code takes
      the first such room, answers the code and leaves every other room as it
      was. */
  lemma JoinSpecificFirstOpen(rs: seq<RoomView>, c: ConnId, code: int, i: nat)
    requires i < |rs| && OpenWithCode(rs[i], code)
    requires forall j | 0 <= j < i :: !OpenWithCode(rs[j], code)
    ensures JoinSpecific(rs, c, code).1 == code
    ensures JoinSpecific(rs, c, code).0 == rs[i := Admit(rs[i], c).0]
  {
    FirstWhereIs(rs, OpenWith(code), i);
  }

  predicate OpenWithCode(r: RoomView, code: int) {
    r.code == code && HasFreeSlot(r)
  }

  /** The test of the `add_to_spec_room` scan. */
  function OpenWith(code: int): RoomView -> bool {
    (r: RoomView) => OpenWithCode(r, code)
  }

  /** `RoomsManager::add_to_spec_room`: join the first room with this code
      and a free slot, or answer -1 and change nothing. */
  function JoinSpecific(rs: seq<RoomView>, c: ConnId, code: int): (res: (seq<RoomView>, int))
    ensures |res.0| == |rs|
    ensures (forall k | 0 <= k < |rs| :: !OpenWithCode(rs[k], code)) ==> res == (rs, -1)
    ensures (exists k | 0 <= k < |rs| :: OpenWithCode(rs[k], code)) ==>
              res.1 == code && SeatsOneMore(rs, res.0, c)
    ensures forall k | 0 <= k < |rs| :: res.0[k].code == rs[k].code
  {
    var i := FirstWhere(rs, OpenWith(code));
    if i < |rs| then
      AdmitSeatsOneMore(rs, i, c);
      (rs[i := Admit(rs[i], c).0], rs[i].code)
    else
      (rs, -1)
  }

  /** `RoomsManager::add_to_new_room`: append a room with this code, put the
      connection in it, and answer the code. */
  function JoinNew(rs: seq<RoomView>, c: ConnId, code: int): (res: (seq<RoomView>, int))
    ensures res.1 == code && |res.0| == |rs| + 1 && res.0[..|rs|] == rs
    ensures res.0[|rs|].code == code && res.0[|rs|].slot1 == Some(c) && res.0[|rs|].slot2 == None
    ensures SeatsOneMore(rs, res.0, c)
    ensures res.0 == rs + [NewRoom(code).(slot1 := Some(c))] && !res.0[|rs|].isFull && !res.0[|rs|].isTaken
  {
    AppendSeatsOneMore(rs, code, c);
    (rs + [Admit(NewRoom(code), c).0], code)
  }

  /** `RoomsManager::remove_from_room`: remove the connection from every room. */
  function Release(rs: seq<RoomView>, c: ConnId): seq<RoomView> {
    seq(|rs|, k requires 0 <= k < |rs| => Evict(rs[k], c).0)
  }

  /** After removal no room holds the connection in `slot1` and no room that
      held it is full; rooms without it, every code and every `is_taken`
      flag are unchanged. */
  lemma ReleaseRemoves(rs: seq<RoomView>, c: ConnId)
    ensures |Release(rs, c)| == |rs|
    ensures forall k | 0 <= k < |rs| ::
              Release(rs, c)[k].slot1 != Some(c) && (c in Occupants(rs[k]) ==> !Release(rs, c)[k].isFull)
    ensures forall k | 0 <= k < |rs| :: c !in Occupants(rs[k]) ==> Release(rs, c)[k] == rs[k]
    ensures forall k | 0 <= k < |rs| ::
              Release(rs, c)[k].code == rs[k].code && Release(rs, c)[k].isTaken == rs[k].isTaken
  {
  }

  /** What `check_room(code)` answers: some room with this code is full. */
  predicate IsFullRoom(rs: seq<RoomView>, code: int) {
    exists k | 0 <= k < |rs| :: rs[k].code == code && rs[k].isFull
  }

  /** The outcome of the claim in `handle_room`. */
  datatype ClaimResult = NoRoom | AlreadyTaken | Claimed(slot1: Option<ConnId>, slot2: Option<ConnId>)

  /** The test of the `handle_room` scan. */
  function CodeIs(code: int): RoomView -> bool {
    (r: RoomView) => r.code == code
  }

  /** Room `k` is the first room with this code. */
  predicate FirstWithCode(rs: seq<RoomView>, code: int, k: int) {
    0 <= k < |rs| && rs[k].code == code && forall j | 0 <= j < k :: rs[j].code != code
  }

  /** The claim in `handle_room`: only the first room with the code is looked
      at; if it is taken already nothing happens, otherwise it becomes taken
      and its slots are handed out. */
  function Claim(rs: seq<RoomView>, code: int): (res: (seq<RoomView>, ClaimResult))
    ensures |res.0| == |rs|
    ensures (forall k | 0 <= k < |rs| :: rs[k].code != code) <==> res.1 == NoRoom
    ensures forall k | 0 <= k < |rs| :: res.0[k].code == rs[k].code
    ensures !res.1.Claimed? ==> res.0 == rs
    ensures res.1 == AlreadyTaken ==> exists k | 0 <= k < |rs| ::
              FirstWithCode(rs, code, k) && rs[k].isTaken
    ensures res.1.Claimed? ==> exists k | 0 <= k < |rs| ::
              FirstWithCode(rs, code, k) && !rs[k].isTaken &&
              res.0 == rs[k := rs[k].(isTaken := true)] && res.1 == Claimed(rs[k].slot1, rs[k].slot2)
  {
    var i := FirstWhere(rs, CodeIs(code));
    if i == |rs| then (rs, NoRoom)
    else if rs[i].isTaken then (rs, AlreadyTaken)
    else (rs[i := rs[i].(isTaken := true)], Claimed(rs[i].slot1, rs[i].slot2))
  }

  /** A room is claimed at most once: after a claim with some code, every
      further claim with that code has no effect. */
  lemma ClaimOnce(rs: seq<RoomView>, code: int)
    ensures var after := Claim(rs, code).0;
            !Claim(after, code).1.Claimed? && Claim(after, code).0 == after
  {
    var i := FirstWhere(rs, CodeIs(code));
    var after := Claim(rs, code).0;
    if i < |rs| {
      assert forall j | 0 <= j < |rs| :: after[j].code == rs[j].code;
      FirstWhereIs(after, CodeIs(code), i);
      assert after[i].isTaken;
    }
  }

  // ---------------------------------------------------------------------
  // The registry object

  /** `RoomsManager`: the rooms in creation order. */
  class RoomsManager {
    var rooms: seq<Room>

    /** The vector owns its rooms, so no room appears twice; codes are `i32`s. */
    ghost predicate Valid()
      reads this
    {
      (forall i, j | 0 <= i < j < |rooms| :: rooms[i] != rooms[j]) &&
      forall i | 0 <= i < |rooms| :: IsI32(rooms[i].code)
    }

    ghost function Snapshot(): (vs: seq<RoomView>)
      reads this, rooms
      ensures |vs| == |rooms|
      ensures forall i | 0 <= i < |rooms| :: vs[i] == rooms[i].View()
    {
      seq(|rooms|, i reads this, rooms requires 0 <= i < |rooms| => rooms[i].View())
    }

    constructor()
      ensures Valid() && Snapshot() == []
    {
      rooms := [];
    }

    /** `add_to_room` on the `i`-th room; the other rooms are other objects
        and keep their state. */
    method AdmitAt(i: nat, c: ConnId)
      requires Valid() && i < |rooms|
      modifies rooms[i]
      ensures Snapshot() == old(Snapshot())[i := Admit(old(Snapshot())[i], c).0]
    {
      ghost var before := Snapshot();
      var room := rooms[i];
      var _ := room.AddToRoom(c);
      assert forall j | 0 <= j < |rooms| && j != i :: rooms[j] != room;
      assert forall j | 0 <= j < |rooms| :: Snapshot()[j] == before[i := Admit(before[i], c).0][j];
    }

    /** `remove_from_room` on the `i`-th room. */
    method EvictAt(i: nat, c: ConnId)
      requires Valid() && i < |rooms|
      modifies rooms[i]
      ensures Snapshot() == old(Snapshot())[i := Evict(old(Snapshot())[i], c).0]
    {
      ghost var before := Snapshot();
      var room := rooms[i];
      var _ := room.RemoveFromRoom(c);
      assert forall j | 0 <= j < |rooms| && j != i :: rooms[j] != room;
      assert forall j | 0 <= j < |rooms| :: Snapshot()[j] == before[i := Evict(before[i], c).0][j];
    }

    /** `rooms.push(Room::new(code))`, then `add_to_room` on the new room. */
    method PushRoom(code: int, c: ConnId)
      requires Valid() && IsI32(code)
      modifies this
      ensures Valid()
      ensures Snapshot() == old(Snapshot()) + [Admit(NewRoom(code), c).0]
    {
      ghost var before := Snapshot();
      var room := new Room(code);
      rooms := rooms + [room];
      var _ := room.AddToRoom(c);
      assert forall j | 0 <= j < |before| :: rooms[j] != room && rooms[j].View() == before[j];
    }

    method AddToRoom(c: ConnId) returns (code: int)
      requires Valid()
      modifies this, rooms
      ensures Valid()
      ensures (Snapshot(), code) == JoinRandom(old(Snapshot()), c)
    {
      var i := 0;
      while i < |rooms|
        invariant 0 <= i <= |rooms|
        invariant unchanged(this) && unchanged(rooms)
        invariant forall j | 0 <= j < i :: !HasFreeSlot(rooms[j].View())
      {
        var room := rooms[i];
        if room.slot1.None? || room.slot2.None? {
          FirstWhereIs(Snapshot(), HasFreeSlot, i);
          AdmitAt(i, c);
          return room.code;
        }
        i := i + 1;
      }
      FirstWhereIs(Snapshot(), HasFreeSlot, |rooms|);
      PushRoom(WrapI32(|rooms|), c);
      code := WrapI32(|rooms| - 1);
    }

    method AddToSpecRoom(c: ConnId, code: int) returns (id: int)
      requires Valid()
      modifies rooms
      ensures Valid()
      ensures (Snapshot(), id) == JoinSpecific(old(Snapshot()), c, code)
    {
      var i := 0;
      while i < |rooms|
        invariant 0 <= i <= |rooms|
        invariant forall j | 0 <= j < i :: !OpenWithCode(rooms[j].View(), code)
      {
        var room := rooms[i];
        if room.code == code && (room.slot1.None? || room.slot2.None?) {
          FirstWhereIs(Snapshot(), OpenWith(code), i);
          AdmitAt(i, c);
          return room.code;
        }
        i := i + 1;
      }
      FirstWhereIs(Snapshot(), OpenWith(code), |rooms|);
      id := -1;
    }

    method AddToNewRoom(c: ConnId, code: int) returns (id: int)
      requires Valid() && IsI32(code)
      modifies this
      ensures Valid()
      ensures (Snapshot(), id) == JoinNew(old(Snapshot()), c, code)
    {
      PushRoom(code, c);
      id := code;
    }

    method RemoveFromRoom(c: ConnId)
      requires Valid()
      modifies rooms
      ensures Valid()
      ensures Snapshot() == Release(old(Snapshot()), c)
    {
      ghost var before := Snapshot();
      for i := 0 to |rooms|
        invariant forall j | 0 <= j < |rooms| :: Snapshot()[j] == if j < i then Evict(before[j], c).0 else before[j]
      {
        EvictAt(i, c);
      }
      assert forall j | 0 <= j < |rooms| :: Snapshot()[j] == Release(before, c)[j];
    }

    method CheckRoom(code: int) returns (full: bool)
      ensures full <==> IsFullRoom(Snapshot(), code)
    {
      for i := 0 to |rooms|
        invariant forall j | 0 <= j < i :: !(rooms[j].code == code && rooms[j].isFull)
      {
        if rooms[i].code == code && rooms[i].isFull {
          assert Snapshot()[i] == rooms[i].View();
          return true;
        }
      }
      full := false;
    }

    /** The claim at the start of `handle_room`. */
    method ClaimRoom(code: int) returns (claim: ClaimResult)
      requires Valid()
      modifies rooms
      ensures Valid()
      ensures (Snapshot(), claim) == Claim(old(Snapshot()), code)
    {
      ghost var before := Snapshot();
      for i := 0 to |rooms|
        invariant forall j | 0 <= j < i :: rooms[j].code != code
      {
        var room := rooms[i];
        if room.code == code {
          FirstWhereIs(before, CodeIs(code), i);
          if room.isTaken {
            return AlreadyTaken;
          }
          room.isTaken := true;
          assert Snapshot() == before[i := before[i].(isTaken := true)];
          return Claimed(room.slot1, room.slot2);
        }
      }
      FirstWhereIs(before, CodeIs(code), |rooms|);
      claim := NoRoom;
    }
  }
}
