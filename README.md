# Trap the mouse: a Dafny model of the room server and the game client

The system is a two-player game played over TCP on an 11 x 11 hexagonal grid.
One player moves a mouse and tries to reach the border. The other player places
walls and tries to trap the mouse.

The server (`server/src/main.rs`) reads a room selector from each new connection.
It places the connection in a room of two: a random open room, a room with the
requested code, or a new room. Once the room is full, the server draws which
client comes first and writes the role texts "1" and "2" to the two clients. The client
(`client/src/game.rs`) keeps the board and the game state. On each click it checks
the move, applies it and sends two bytes. It also reads the role notice, the
mouse's spawn cell, the wall layout and the opponent's moves. The client takes the
mouse's role only when the role notice contains the word "soarecele". The texts
this server writes never do, so with this server both clients of a room take the
wall builder's role (`Server.RoleNoticesNeverNameTheMouse`). The shared crate
(`common/src/lib.rs`) holds the `Position` record and the tolerant numeric
conversion `convert_to_i32`.

The model has five modules:

- `Common` (`common.dfy`): `Position` and its two constructors, and the text
  handling the programs rely on. That covers Rust's `str::parse` for `i32` and
  `usize`, `to_string`, `trim`, `split(',')`, `usize as i32`, and `convert_to_i32`
  itself.
- `Moves` (`moves.dfy`): the parity table of neighbours, `check_move` and
  `check_any_left_move` over an `array2` board. The table is proved against an
  independent axial-coordinate hex distance.
- `Game` (`game.dfy`): the client's state as a class with an `array2` board.
  - `send_move` is a method.
  - Each of the `GetTurn`, `GetMouse`, `GetWalls` and `Play` arms of the polling
    loop is a step method. It takes the result of one socket read and returns the
    messages written and whether the loop continues, stops, or panics on an
    out-of-range index.
- `Rooms` (`rooms.dfy`):
  - `Room` and `RoomsManager` as classes whose methods update rooms in place.
  - Each method is proved against a function on value snapshots (`RoomView`).
  - The lemmas about those functions state what the registry promises: how often
    a client is seated, which room it lands in, and that a room is claimed only
    once.
- `Server` (`server.dfy`): the selector parsing and dispatch of `handle_client_1`,
  and the claim and role split of `handle_room`.

Conventions:

- A TCP connection is an integer identity (`ConnId`), and `peer_addr` equality
  is identity equality.
- A Rust panic caused by a value read from the network is an explicit outcome
  (`Panic`, `Panicked`, `IndexOutOfBounds`), not a precondition. Writes made
  before the panic are kept.
- A short read leaves the rest of the zero-initialised buffer at 0.

## Model

| member | source | states |
|---|---|---|
| Common.WrapI32 | server/src/main.rs:79 | `usize as i32`: the result is an `i32`, is the input itself when it fits, and is congruent to it modulo 2^32 |
| Common.NewPosition | common/src/lib.rs:12-14 | the position has exactly the given row and column |
| Common.NewFromPos | common/src/lib.rs:15-17 | the copy equals the original |
| Common.ParseI32 | common/src/lib.rs:38 | `parse::<i32>` succeeds only with an `i32` value (which texts parse: `ParsedIsSignedDigits` and `ParseSignedDigits`) |
| Common.ParseUsize | client/src/game.rs:199-204 | `parse::<usize>` succeeds only with a value at most `usize::MAX` (which texts parse: `ParsedIsSignedDigits`, with no minus sign, and `ParseUnsignedDigits`) |
| Common.ConvertToI32 | common/src/lib.rs:37-45 | the result is an `i32`; a text that parses converts to its value; a text that does not parse converts to -1 |
| Common.ParseSignedDigits | common/src/lib.rs:37-45 | a sign ("", "+" or "-") followed by ASCII digits parses, and converts, to the value it denotes exactly when that value is an `i32`; otherwise `convert_to_i32` gives -1 |
| Common.ParseUnsignedDigits | client/src/game.rs:199-204 | `parse::<usize>` of an optional "+" and ASCII digits (leading zeros allowed, so "+5" and "05" parse) gives the value they denote exactly when it is at most `usize::MAX`, and fails otherwise; a text starting with "-" never parses |
| Common.ParsedIsSignedDigits | common/src/lib.rs:38-43 | a text parses only if it is an optional sign ("+", or "-" for a signed target) followed by one or more ASCII digits, and then to the value it denotes; with `ParseSignedDigits` this gives the converse, so any other text converts to -1 |
| Common.TrailingWhitespaceIsRejected | client/src/game.rs:99 | a room text ending in whitespace is not trimmed: it does not parse and converts to -1 (random matchmaking) |
| Common.ConvertRoundTrip | common/src/lib.rs:37-45 | for every `i32` n, `convert_to_i32(n.to_string()) == n` |
| Common.OverflowFallsBack | common/src/lib.rs:40-43 | a numeral above `i32::MAX` does not parse and converts to -1 |
| Common.MinusOneIsAmbiguous | common/src/lib.rs:40-43 | "-1" and the empty text both convert to -1 |
| Common.PaddedNumeralIsRejected | common/src/lib.rs:37-45 | a numeral with leading whitespace is not trimmed: it does not parse and converts to -1 |
| Common.NatText | server/src/main.rs:157 | `to_string` of a natural number is a non-empty digit string without a leading zero other than "0" |
| Common.DecimalText | server/src/main.rs:157 | `i32::to_string`: a minus sign exactly when the number is negative, then decimal digits (their value is given by `ConvertRoundTrip`) |
| Common.NatTextValue | server/src/main.rs:157 | the digits of `n.to_string()` denote n |
| Common.I32TextIsShort | server/src/main.rs:122 | the text of an `i32` has at most 11 characters |
| Common.TrimStart | server/src/main.rs:129 | removes exactly the leading whitespace: the result is a suffix, everything dropped is whitespace, and the result does not start with whitespace |
| Common.TrimEnd | server/src/main.rs:129 | removes exactly the trailing whitespace, symmetrically |
| Common.Trim | server/src/main.rs:129 | `str::trim`: the result occurs in the text with only whitespace before and after it, and it neither starts nor ends with whitespace |
| Common.TrimUnpadded | server/src/main.rs:129 | trimming text without outer whitespace changes nothing |
| Common.TrimThenParse | server/src/main.rs:129-131 | trimming a numeral padded on both sides with whitespace gives the numeral back |
| Common.Split | client/src/game.rs:197 | `split(',')` gives at least one part; there are two or more parts iff the separator occurs; no part contains it; joining the parts with the separator gives the text back |
| Common.SplitPair | client/src/game.rs:197-198 | splitting "a,b", where a and b contain no comma, gives exactly [a, b] |
| Moves.Neighbours | client/src/game.rs:378-391 | the parity table: six distinct candidate cells, none of them the mouse's own cell (`NeighboursAreAdjacent` says which) |
| Moves.NeighboursAreAdjacent | client/src/game.rs:378-391 | a cell is in the parity table of the mouse iff its hex distance from the mouse is 1 |
| Moves.NeighbourhoodIsSymmetric | client/src/game.rs:378-391 | n neighbours m iff m neighbours n |
| Moves.CheckMove | client/src/game.rs:360-398 | the wall builder may click any empty cell; the mouse may click an empty cell at hex distance 1, never its own cell |
| Moves.FreeNeighbourIffLegalMove | client/src/game.rs:360-429 | the mouse has an empty on-board neighbour iff some cell of the board is a legal mouse move |
| Moves.CheckAnyLeftMove | client/src/game.rs:400-429 | as written: the scan completes iff no candidate reaches the guard's off-board case; a completed scan answers whether a neighbour is free; a failed one names the candidate that indexes off the board |
| Moves.ScanIsSafeInside | client/src/game.rs:420-427 | for a mouse in rows 0-9 and columns 1-10, the scan never indexes off the board |
| Moves.ScanPanicsOnLeftEdge | client/src/game.rs:423 | for a mouse on column 0 of an even row from 2 to 10, the first candidate passes the guard and is off the board |
| Moves.LeftEdgeIsReachable | client/src/game.rs:423 | the mouse can legally step onto such a cell, from (4,1) to (4,0), and the scan then fails there |
| Moves.CheckAnyLeftMoveBounded | client/src/game.rs:400-429 | with all four bounds in its guard, the scan answers for every mouse whether some neighbour is free |
| Game.Contains | client/src/game.rs:169 | `str::contains`: found only if the word fits in the text, and always found at the start of the text |
| Game.Padded | client/src/game.rs:251 | a read into a zeroed buffer keeps the received bytes and leaves the rest 0 |
| Game.MoveMessage | client/src/game.rs:440-447 | the two bytes are "wi" iff the mouse's player moves onto the border; otherwise they are (row, col); never "lo" or "ye" |
| Game.Classify | client/src/game.rs:263-302 | "wi", "lo" and "ye" are read as the three notices, each iff those are the bytes; any other two bytes are a move to (first byte, second byte) |
| Game.MoveMessageIsUnderstood | client/src/game.rs:440-447 | the peer reads what `send_move` writes as "mouse won" or as the same move |
| Game.SpawnRoundTrip | client/src/game.rs:195-206 | the spawn text "r,c" is read back as (r, c) |
| Game.Walls | client/src/game.rs:226-236 | the 20-byte layout gives the ten pairs (buffer[2w], buffer[2w+1]) in order |
| Game.FirstOffBoard | client/src/game.rs:226-236 | the index of the first wall off the board: every earlier wall is on it |
| Game.AfterIncoming | client/src/game.rs:263-304 | after two received bytes the client no longer waits for the peer and keeps its role, screen, role text and spawn flag; a move moves the mouse to the two bytes for the wall player (the mouse otherwise stays) and keeps the game state; each notice finishes the game with its own text |
| Game.Echo | client/src/game.rs:263-289 | the reply to received bytes is "wi" iff the mouse's win was received, "lo" iff its loss was, and nothing otherwise |
| Game.Game.constructor | client/src/game.rs:48-69 | a fresh game: an empty board, the main menu, no role (-1), no mouse spawned, waiting to connect |
| Game.Game.SendMove | client/src/game.rs:431-453 | the message is `MoveMessage`. A mouse move moves the single mouse mark and the mouse position. A wall click marks one cell. Nothing else changes |
| Game.Game.GetTurnStep | client/src/game.rs:159-184 | "soarecele" in the role notice makes the player the mouse (1), otherwise the walls (2), who then wait; "ok" is sent; a closed connection stops with a connection error |
| Game.Game.SpawnMouse | client/src/game.rs:204-211 | an on-board spawn cell gets the mouse mark and the position, "ok" is sent and the state moves to `GetWalls`; an off-board one panics after setting the position |
| Game.Game.GetMouseStep | client/src/game.rs:185-220 | text with a comma spawns at `SpawnCell` (an unparsable part reads as 0); text without one is ignored; a closed connection stops |
| Game.Game.MarkWalls | client/src/game.rs:226-236 | walls are marked in order up to the first off-board pair: done iff there is none, and exactly the marked cells change |
| Game.Game.GetWallsStep | client/src/game.rs:221-249 | a non-empty read marks the ten walls and moves to `Play`; an off-board wall panics after the earlier writes; "ok" follows a completed layout and a failed read |
| Game.Game.HandleIncoming | client/src/game.rs:259-302 | the board and fields after two received bytes: the notices finish the game and echo "wi" or "lo"; a move relocates the mouse (for the wall player) or adds a wall (for the mouse player); an off-board move panics |
| Game.Game.ConcedeIfTrapped | client/src/game.rs:303-319 | the mouse's player sends "lo" and finishes iff the mouse has no free neighbour |
| Game.Game.PlayStep | client/src/game.rs:250-335 | a closed connection records that the opponent left; a failed read changes nothing; data is handled and followed by the concede check, which uses the corrected four-bound scan (see "## Left out") |
| Rooms.NewRoom | server/src/main.rs:16-24 | a new room has the code, no occupants, and is neither full nor taken |
| Rooms.Admit | server/src/main.rs:26-42 | admits iff a slot is free, into the first free slot; the occupants grow by exactly the client; code and taken flag are kept; "full iff both slots occupied" is preserved |
| Rooms.Evict | server/src/main.rs:44-59 | reports removal iff the client occupies a slot; a matching first slot is cleared; the room is then never full |
| Rooms.EvictSecondKeepsSlot | server/src/main.rs:52-56 | a client in the second slot only clears the full flag: it stays seated and the room breaks "full iff both occupied" |
| Rooms.Room.constructor | server/src/main.rs:16-24 | the room's state is `NewRoom(code)` |
| Rooms.Room.AddToRoom | server/src/main.rs:26-42 | the new state and the answer are `Admit` of the old state |
| Rooms.Room.RemoveFromRoom | server/src/main.rs:44-59 | the new state and the answer are `Evict` of the old state |
| Rooms.FirstWhere | server/src/main.rs:72-77 | the index of the first room that passes the test, or the length |
| Rooms.JoinRandom | server/src/main.rs:71-83 | the registry grows by one iff no room has a free slot; codes stay `i32` |
| Rooms.JoinRandomSeatsOnce | server/src/main.rs:71-83 | the client gains exactly one seat and every other client keeps its seats |
| Rooms.JoinRandomFirstOpen | server/src/main.rs:72-77 | the client joins the first room with a free slot and gets its code; no other room changes |
| Rooms.JoinRandomAppends | server/src/main.rs:79-82 | with no open room, a room whose code is the old room count (as `i32`) is appended, holding only the client |
| Rooms.JoinSpecific | server/src/main.rs:84-92 | -1 and no change when no open room has the code; otherwise the client is seated exactly once and the code is answered; codes never change |
| Rooms.JoinSpecificFirstOpen | server/src/main.rs:85-89 | the client joins the first room with the code and a free slot, and every other room is unchanged |
| Rooms.JoinNew | server/src/main.rs:93-98 | appends a room with the code holding only the client in its first slot, neither full nor taken, keeps every other room, and answers the code; the client gains one seat |
| Rooms.ReleaseRemoves | server/src/main.rs:99-103 | every room is evicted of the client; rooms without it are unchanged |
| Rooms.Claim | server/src/main.rs:197-211 | NoRoom iff no room has the code; codes never change; anything but a claim changes nothing; only the first room with the code is examined: AlreadyTaken when it is taken, otherwise it alone becomes taken and hands over its two slots |
| Rooms.ClaimOnce | server/src/main.rs:200-204 | a second claim of the same code never returns the slots again |
| Rooms.RoomsManager.constructor | server/src/main.rs:67-69 | an empty registry |
| Rooms.RoomsManager.AdmitAt | server/src/main.rs:74 | admits the client into room i only |
| Rooms.RoomsManager.EvictAt | server/src/main.rs:101 | evicts the client from room i only |
| Rooms.RoomsManager.PushRoom | server/src/main.rs:79-81 | appends a fresh room with the code and admits the client |
| Rooms.RoomsManager.AddToRoom | server/src/main.rs:71-83 | the new registry and the answer are `JoinRandom` of the old registry |
| Rooms.RoomsManager.AddToSpecRoom | server/src/main.rs:84-92 | the new registry and the answer are `JoinSpecific` of the old registry |
| Rooms.RoomsManager.AddToNewRoom | server/src/main.rs:93-98 | the new registry and the answer are `JoinNew` of the old registry |
| Rooms.RoomsManager.RemoveFromRoom | server/src/main.rs:99-103 | the new registry is `Release` of the old registry |
| Rooms.RoomsManager.CheckRoom | server/src/main.rs:111-118 | true iff some room with the code is full; nothing changes |
| Rooms.RoomsManager.ClaimRoom | server/src/main.rs:197-211 | the new registry and the answer are `Claim` of the old registry |
| Server.Selector | server/src/main.rs:122-149 | the selector is an `i32`; it is -1 on a read error or an empty read; otherwise it is the trimmed text parsed as an `i32` |
| Server.ClientSelectorReachesServer | server/src/main.rs:126-137 | every `i32` the client sends as text reaches the server as the same number |
| Server.PaddedSelectorIsAccepted | server/src/main.rs:129-131 | a numeral padded with whitespace is accepted |
| Server.ExplicitCodeIsKept | server/src/main.rs:162-168 | with an explicit code the answer is that code, the client is seated exactly once, and the registry grows by at most one room |
| Server.UnreadableSelectorIsRandom | server/src/main.rs:123-153 | an unreadable or unparsable selector means random matchmaking |
| Server.ComputerSelectorIsExplicit | server/src/main.rs:162-168 | "-2" is an ordinary explicit code |
| Server.PlacementReply | server/src/main.rs:150-176 | the answered code is an `i32`, and `convert_to_i32` of its decimal text gives it back |
| Server.CodesCanCollide | server/src/main.rs:79 | codes from the room count can repeat an explicit code, and `check_room` then reports a half-empty room as full |
| Server.HandleClient | server/src/main.rs:121-176 | the registry and the answer are `Placement` of the selector, and the reply is the answer's decimal text |
| Server.Announce | server/src/main.rs:213-232 | skipped iff the room was already taken; both roles are written iff the claim returns both slots; a claimed room with only its first slot filled panics on `unwrap` after writing the drawn role to that slot; no room with the code, or an empty first slot, panics before any write |
| Server.RolesDistinct | server/src/main.rs:216-231 | the two role texts written differ: one is "1" and the other "2", and the first slot gets the text of the random draw |
| Server.RoleNoticesNeverNameTheMouse | server/src/main.rs:218-231 | neither role text contains "soarecele", which client/src/game.rs:169 looks for, so both clients take the wall builder's role |
| Server.OnlyOneAnnounces | server/src/main.rs:197-211 | of two claims of the same code, the second does nothing (or both find no room and panic without writing) |
| Server.HandleRoom | server/src/main.rs:193-233 | the registry is `Claim` of the old registry, and the writes are `Announce` of the claim and the draw |

## Left out

- Sockets are not modelled. A read is a parameter (`Received`, `SelectorRead`), and a write is a returned message. Write errors are not modelled:
  - the client's `send_ok` (common/src/lib.rs:20-26), which writes every "ok" of the `GetTurn`, `GetMouse` and `GetWalls` arms, panics on one;
  - the client's writes in the `Play` arm log one and go on;
  - the server's room-code reply (server/src/main.rs:156-158 and 171-173) and its two role notices (server/src/main.rs:218-221 and 228-231) `expect` success and panic on one;
  - the server's "game started" notice (server/src/main.rs:185-188) only logs one with `eprintln!` and goes on.
- Threads, the `RwLock` and the busy-wait on `check_room` (server/src/main.rs:177-184) are not modelled. Each registry operation is modelled as one atomic call.
- The "game started" notice and the two-second sleep (server/src/main.rs:185-189) are not modelled, nor is the final `loop {}` of `handle_room` (server/src/main.rs:233).
- The random draw of `handle_room` (server/src/main.rs:215-216) is a parameter, `first`, restricted to 1 or 2.
- `try_clone` is assumed to succeed, and `peer_addr` equality is modelled as identity equality.
- `String::from_utf8_lossy` is modelled as one character per byte. This is exact for ASCII, which is all the protocol sends. For other bytes it is not: bytes 0x85 and 0xA0 become the whitespace characters U+0085 and U+00A0, which `Trim` removes, so the model's `Server.Selector` reads the bytes "7", 0xA0 as 7, where the lossy decoding gives "7\u{FFFD}" and the server keeps -1.
- `show_rooms` and the console logging (`println!`, `AppError::log`) print only and are not modelled.
- The client's `main.rs` (drawing, input and the click handler that calls `check_move`) is not part of this model.
- The `Connect`, `WaitToStart`, `Finished` and `PlayAgain` arms of `start_tcp`, and the thread and polling loop around the arms, are not modelled. `set_nonblocking` is not modelled either. A would-block error is one of the `Failed` reads.
- Game.Game.GetWallsStep: the ten unrolled writes are modelled as a loop over the ten decoded pairs, with the same order and the same stop at the first off-board pair.
- TCP may split or merge messages. The model takes each read to return one whole message.
- Rooms.Release, Server.Placement and Game.SpawnCell carry no contract of their own. The lemmas listed above state their properties.
- Game.Game.PlayStep: the concede check after a non-empty read is the corrected four-bound scan, so for a player-1 mouse on column 0 of an even row from 2 to 10 the contract gives `Continue` where the `Play` arm as written panics at client/src/game.rs:423 (`Moves.ScanPanicsOnLeftEdge`).
- Game.Game.ConcedeIfTrapped uses the corrected scan `CheckAnyLeftMoveBounded` (see Findings). The scan as written, with its panic, is `Moves.CheckAnyLeftMove`.

## Findings

| source | as written | input that shows it | evidently intended | confidence | as-written member | corrected member |
|---|---|---|---|---|---|---|
| client/src/game.rs:423 | the guard tests only `row >= 0 && col <= 10`, so a candidate in column -1 or row 11 reaches the board index | the mouse on (4,0), reached by the legal move from (4,1): the first candidate (3,-1) passes the guard and `-1 as usize` indexes off the board, so the polling thread panics | test all four bounds and skip off-board candidates | high, not executed | Moves.CheckAnyLeftMove, Moves.ScanPanicsOnLeftEdge, Moves.LeftEdgeIsReachable | Moves.CheckAnyLeftMoveBounded |
