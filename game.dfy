/** The client's game state and the steps that update it (client/src/game.rs):
    `send_move`, which applies the local player's click and produces the
    2-byte wire message, and the bodies of the `GetTurn`, `GetMouse`,
    `GetWalls` and `Play` arms of the polling loop in `Game::start_tcp`.
    Each arm is one step from the current state and the result of one read
    on the socket to a new state, the messages written back and whether the
    polling thread carries on, stops, or panics on an out-of-range index. */
module Game {
  import opened Common
  import opened Moves

  datatype Screen = MainMenu | WaitingForPlayers | ConnectingError | GameBoard

  datatype State =
    | WaitTryConnect | Connect | WaitToStart | GetTurn | GetMouse | GetWalls
    | Play | Finished | PlayAgain

  /** The result of one `read` on the socket: `Data` holds the n > 0 bytes
      read, `Closed` is a read of zero bytes, `Failed` an I/O error. */
  datatype Received = Data(bytes: seq<Byte>) | Closed | Failed(wouldBlock: bool)

  /** A read into a buffer of `capacity` bytes returns at most that many. */
  predicate Fits(read: Received, capacity: nat) {
    read.Data? ==> 1 <= |read.bytes| <= capacity
  }

  /** What the polling thread does after a step. */
  datatype Outcome = Continue | Stop | Panic

  const OkMsg: seq<Byte> := [0x6F, 0x6B]    // "ok"
  const WinMsg: seq<Byte> := [0x77, 0x69]   // "wi"
  const LoseMsg: seq<Byte> := [0x6C, 0x6F]  // "lo"
  const LeftMsg: seq<Byte> := [0x79, 0x65]  // "ye"

  /** "soarecele" (the mouse), the word that marks the mouse's role notice. */
  const MouseWord: seq<Byte> := [0x73, 0x6F, 0x61, 0x72, 0x65, 0x63, 0x65, 0x6C, 0x65]

  const WinText: string := "AI CASTIGAT!"
  const LoseText: string := "AI PIERDUT!"
  const LeftText: string := "          AI CASTIGAT \n PLAYERUL S-A DECONECTAT"

  predicate OccursAt(hay: seq<Byte>, needle: seq<Byte>, i: int) {
    0 <= i <= |hay| - |needle| && hay[i..i + |needle|] == needle
  }

  /** `str::contains` on the received text (an ASCII needle is found in the
      bytes exactly when it is found in their lossy UTF-8 decoding). */
  function Contains(hay: seq<Byte>, needle: seq<Byte>): (found: bool)
    ensures found ==> |needle| <= |hay|
    ensures |needle| <= |hay| && hay[..|needle|] == needle ==> found
  {
    assert |needle| <= |hay| && hay[..|needle|] == needle ==> OccursAt(hay, needle, 0);
    exists i | 0 <= i <= |hay| - |needle| :: OccursAt(hay, needle, i)
  }

  /** A zero-initialised buffer of `n` bytes after a read of `b` into it. */
  function Padded(b: seq<Byte>, n: nat): (buf: seq<Byte>)
    requires |b| <= n
    ensures |buf| == n && buf[..|b|] == b
    ensures forall i | |b| <= i < n :: buf[i] == 0
  {
    b + seq(n - |b|, _ => 0)
  }

  predicate IsBorder(row: int, col: int) {
    row == 0 || row == 10 || col == 0 || col == 10
  }

  // ---------------------------------------------------------------------
  // Moves on the wire

  /** The two bytes `send_move` writes: "wi" when the mouse steps onto the
      border, the raw cell otherwise. */
  function MoveMessage(player: int, row: int, col: int): (msg: seq<Byte>)
    requires OnBoard((row, col))
    ensures |msg| == 2
    ensures msg == WinMsg <==> player == 1 && IsBorder(row, col)
    ensures msg != LoseMsg && msg != LeftMsg
    ensures msg != WinMsg ==> msg == [row, col]
  {
    if player == 1 && IsBorder(row, col) then WinMsg else [row, col]
  }

  /** How the `Play` arm reads two received bytes. */
  datatype Incoming = WinNote | LoseNote | LeftNote | Move(row: Byte, col: Byte)

  function Classify(buf: seq<Byte>): (msg: Incoming)
    requires |buf| == 2
    ensures msg == WinNote <==> buf == WinMsg
    ensures msg == LoseNote <==> buf == LoseMsg
    ensures msg == LeftNote <==> buf == LeftMsg
    ensures msg.Move? ==> msg == Move(buf[0], buf[1])
  {
    if buf == WinMsg then WinNote
    else if buf == LoseMsg then LoseNote
    else if buf == LeftMsg then LeftNote
    else Move(buf[0], buf[1])
  }

  /** What the peer makes of the message `send_move` wrote: a winning
      notice, or exactly the cell that was clicked. */
  lemma MoveMessageIsUnderstood(player: int, row: int, col: int)
    requires OnBoard((row, col))
    ensures Classify(MoveMessage(player, row, col)) ==
            if player == 1 && IsBorder(row, col) then WinNote else Move(row, col)
  {
    var msg := MoveMessage(player, row, col);
    if msg != WinMsg {
      assert msg[0] < 11 && msg[1] < 11;
    }
  }

  /** The value of `cell` after a move to `target`: when the mouse moves,
      its old cell is emptied and `target` gets the mouse; otherwise
      `target` gets a wall. */
  function CellAfterMove(prev: Byte, cell: (int, int), target: (int, int), mouseMoves: bool, mouse: Position): Byte
  {
    if cell == target then (if mouseMoves then MouseMark else WallMark)
    else if mouseMoves && cell == Coord(mouse) then Empty
    else prev
  }

  // ---------------------------------------------------------------------
  // Setup messages

  /** The (row, col) that `GetMouse` reads from "r,c": the first two
      comma-separated pieces parsed as `usize`, 0 for a piece that does not
      parse. */
  function SpawnCell(bytes: seq<Byte>): (cell: (nat, nat))
    requires |Split(Text(bytes), ',')| >= 2
  {
    var parts := Split(Text(bytes), ',');
    (ParseUsize(parts[0]).GetOr(0), ParseUsize(parts[1]).GetOr(0))
  }

  lemma NatTextIsNarrow(n: nat)
    ensures IsNarrow(NatText(n)) && ',' !in NatText(n)
  {
    var s := NatText(n);
    forall i | 0 <= i < |s| ensures s[i] as int < 256 && s[i] != ',' {
      assert IsDigit(s[i]);
    }
  }

  /** `n.to_string()` parses back as a `usize`. */
  lemma NatTextParsesAsUsize(n: nat)
    requires n <= UsizeMax
    ensures ParseUsize(NatText(n)) == Some(n)
  {
    NatTextValue(n);
    assert NatText(n)[0] != '+' && NatText(n)[0] != '-';
  }

  lemma JoinedIsNarrow(a: string, b: string)
    requires IsNarrow(a) && IsNarrow(b)
    ensures IsNarrow(a + "," + b)
  {
    var s := a + "," + b;
    forall i | 0 <= i < |s| ensures s[i] as int < 256 {
      if i < |a| {
        assert s[i] == a[i];
      } else if i > |a| {
        assert s[i] == b[i - |a| - 1];
      }
    }
  }

  /** The spawn text "r,c" is read back as (r, c). */
  lemma SpawnRoundTrip(r: nat, c: nat)
    requires r <= UsizeMax && c <= UsizeMax
    ensures IsNarrow(NatText(r) + "," + NatText(c))
    ensures var msg := Bytes(NatText(r) + "," + NatText(c));
            |Split(Text(msg), ',')| >= 2 && SpawnCell(msg) == (r, c)
  {
    NatTextIsNarrow(r);
    NatTextIsNarrow(c);
    JoinedIsNarrow(NatText(r), NatText(c));
    var s := NatText(r) + "," + NatText(c);
    assert Text(Bytes(s)) == s;
    SplitPair(NatText(r), ',', NatText(c));
    assert Split(s, ',') == [NatText(r), NatText(c)];
    NatTextParsesAsUsize(r);
    NatTextParsesAsUsize(c);
  }

  /** The ten (row, col) pairs of the 20-byte wall layout. */
  function Walls(buf: seq<Byte>): (ws: seq<(int, int)>)
    requires |buf| == 20
    ensures |ws| == 10
    ensures forall w | 0 <= w < 10 :: ws[w] == (buf[2 * w], buf[2 * w + 1])
  {
    seq(10, w requires 0 <= w < 10 => (buf[2 * w], buf[2 * w + 1]))
  }

  /** The index of the first cell that is off the board, or |ws|. */
  function FirstOffBoard(ws: seq<(int, int)>): (k: nat)
    ensures k <= |ws|
    ensures forall v | 0 <= v < k :: OnBoard(ws[v])
    ensures k < |ws| ==> !OnBoard(ws[k])
  {
    if ws == [] || !OnBoard(ws[0]) then 0 else 1 + FirstOffBoard(ws[1..])
  }

  // ---------------------------------------------------------------------
  // The game

  /** The fields of `Game` other than the board. */
  datatype GameView = GameView(
    screen: Screen, playerText: Option<seq<Byte>>, player: int, initialMouse: bool,
    mouse: Position, hasToRead: bool, win: bool, state: State, winState: string)

  /** The fields after the chain of tests on two received bytes in `Play`
      (before the concede check): a notice finishes the game, a move of the
      opponent's mouse moves the local copy of it. */
  function AfterIncoming(v: GameView, msg: Incoming): (w: GameView)
    ensures !w.hasToRead && w.player == v.player && w.screen == v.screen
    ensures w.playerText == v.playerText && w.initialMouse == v.initialMouse
    ensures msg.Move? ==> w.state == v.state && w.win == v.win && w.winState == v.winState
    ensures msg.Move? && v.player == 2 ==> w.mouse == Position(msg.row, msg.col)
    ensures !(msg.Move? && v.player == 2) ==> w.mouse == v.mouse
    ensures !msg.Move? ==> w.state == Finished && w.win
    ensures msg == WinNote ==> w.winState == WinText
    ensures msg == LoseNote ==> w.winState == LoseText
    ensures msg == LeftNote ==> w.winState == LeftText
  {
    match msg
    case WinNote => v.(winState := WinText, win := true, state := Finished, hasToRead := false)
    case LoseNote => v.(winState := LoseText, win := true, state := Finished, hasToRead := false)
    case LeftNote => v.(win := true, winState := LeftText, state := Finished, hasToRead := false)
    case Move(r, c) =>
      if v.player == 2 then v.(mouse := Position(r, c), hasToRead := false)
      else v.(hasToRead := false)
  }

  /** The reply written while handling two received bytes: "wi" and "lo" are
      echoed, nothing else is. */
  function Echo(msg: Incoming): (sent: seq<seq<Byte>>)
    ensures sent == [] || sent == [WinMsg] || sent == [LoseMsg]
    ensures sent == [WinMsg] <==> msg == WinNote
    ensures sent == [LoseMsg] <==> msg == LoseNote
  {
    match msg
    case WinNote => [WinMsg]
    case LoseNote => [LoseMsg]
    case _ => []
  }

  /** The fields after a trapped mouse concedes. */
  function Conceded(v: GameView): GameView {
    v.(win := true, winState := LoseText, state := Finished)
  }

  class Game {
    var screen: Screen
    var playerText: Option<seq<Byte>>
    var player: int
    var initialMouse: bool
    var mouse: Position
    const board: array2<Byte>
    var hasToRead: bool
    var win: bool
    var state: State
    var winState: string

    ghost predicate Valid()
      reads this
    {
      IsBoard(board) && mouse.x < Side && mouse.y < Side
    }

    ghost function View(): GameView
      reads this
    {
      GameView(screen, playerText, player, initialMouse, mouse, hasToRead, win, state, winState)
    }

    /** The cells holding `v`. */
    ghost function Marked(v: Byte): set<(int, int)>
      reads this, board
      requires IsBoard(board)
    {
      set i, j | 0 <= i < Side && 0 <= j < Side && board[i, j] == v :: (i, j)
    }

    /** `Game::default()`: an empty board, no role yet, waiting to connect. */
    constructor ()
      ensures Valid() && fresh(board)
      ensures forall i, j | 0 <= i < Side && 0 <= j < Side :: board[i, j] == Empty
      ensures View() == GameView(MainMenu, None, -1, false, Position(0, 0), false, false, WaitTryConnect, "")
    {
      screen := MainMenu;
      playerText := None;
      player := -1;
      initialMouse := false;
      mouse := NewPosition(0, 0);
      board := new Byte[Side, Side]((i, j) => Empty);
      hasToRead := false;
      win := false;
      state := WaitTryConnect;
      winState := "";
    }

    /** `send_move(game, row, col)`: apply the local player's click and
        return the two bytes written to the server. */
    method SendMove(row: int, col: int) returns (sent: seq<Byte>)
      requires Valid() && OnBoard((row, col))
      modifies this, board
      ensures Valid()
      ensures sent == MoveMessage(player, row, col)
      ensures View() == if player == 1 then old(View()).(mouse := Position(row, col)) else old(View())
      ensures forall i, j | 0 <= i < Side && 0 <= j < Side ::
                board[i, j] == CellAfterMove(old(board[i, j]), (i, j), (row, col), player == 1, old(mouse))
      ensures player == 1 ==> Marked(MouseMark) == old(Marked(MouseMark)) - {Coord(old(mouse))} + {(row, col)}
      ensures player != 1 && old(board[row, col]) != MouseMark ==> Marked(MouseMark) == old(Marked(MouseMark))
    {
      if player == 1 {
        board[mouse.x, mouse.y] := Empty;
        board[row, col] := MouseMark;
        mouse := Position(row, col);
      } else {
        board[row, col] := WallMark;
      }
      if player == 1 && IsBorder(row, col) {
        sent := WinMsg;
      } else {
        sent := [row, col];
      }
    }

    /** The `GetTurn` arm: the role notice decides the player number; the
        wall builder (2) waits for the mouse's first move. */
    method GetTurnStep(read: Received) returns (outcome: Outcome, sent: seq<seq<Byte>>)
      requires Valid() && state == GetTurn && Fits(read, 1024)
      modifies this
      ensures Valid()
      ensures read.Closed? ==> outcome == Stop && sent == [] && View() == old(View()).(screen := ConnectingError)
      ensures read.Failed? ==> outcome == Continue && sent == [] && View() == old(View())
      ensures read.Data? && Contains(read.bytes, MouseWord) ==>
                outcome == Continue && sent == [OkMsg] &&
                View() == old(View()).(playerText := Some(read.bytes), player := 1, state := GetMouse)
      ensures read.Data? && !Contains(read.bytes, MouseWord) ==>
                outcome == Continue && sent == [OkMsg] &&
                View() == old(View()).(playerText := Some(read.bytes), player := 2, hasToRead := true, state := GetMouse)
    {
      match read {
        case Closed =>
          screen := ConnectingError;
          return Stop, [];
        case Failed(_) =>
          return Continue, [];
        case Data(bytes) =>
          playerText := Some(bytes);
          if Contains(bytes, MouseWord) {
            player := 1;
          } else {
            player := 2;
            hasToRead := true;
          }
          state := GetMouse;
          return Continue, [OkMsg];
      }
    }

    /** The end of the `GetMouse` arm: the mouse field is set before the
        board is indexed, so a cell off the board panics with the mouse
        already moved there. */
    method SpawnMouse(row: nat, col: nat) returns (outcome: Outcome, sent: seq<seq<Byte>>)
      requires Valid()
      modifies this, board
      ensures OnBoard((row, col)) ==>
                Valid() && outcome == Continue && sent == [OkMsg] &&
                View() == old(View()).(mouse := Position(row, col), initialMouse := true, state := GetWalls) &&
                forall i, j | 0 <= i < Side && 0 <= j < Side ::
                  board[i, j] == if (i, j) == (row, col) then MouseMark else old(board[i, j])
      ensures !OnBoard((row, col)) ==>
                outcome == Panic && sent == [] && unchanged(board) && View() == old(View()).(mouse := Position(row, col))
    {
      mouse := NewPosition(row, col);
      if !(row < Side && col < Side) {
        return Panic, [];
      }
      board[row, col] := MouseMark;
      initialMouse := true;
      state := GetWalls;
      return Continue, [OkMsg];
    }

    /** The `GetMouse` arm: read "r,c" and put the mouse there. */
    method GetMouseStep(read: Received) returns (outcome: Outcome, sent: seq<seq<Byte>>)
      requires Valid() && state == GetMouse && Fits(read, 1024)
      modifies this, board
      ensures outcome != Panic ==> Valid()
      ensures read.Closed? ==>
                outcome == Stop && sent == [] && unchanged(board) &&
                View() == old(View()).(screen := ConnectingError)
      ensures read.Failed? || (read.Data? && ',' !in Text(read.bytes)) ==>
                outcome == Continue && sent == [] && unchanged(board) && View() == old(View())
      ensures read.Data? && ',' in Text(read.bytes) ==>
                var cell := SpawnCell(read.bytes);
                if OnBoard(cell) then
                  outcome == Continue && sent == [OkMsg] &&
                  View() == old(View()).(mouse := Position(cell.0, cell.1), initialMouse := true, state := GetWalls) &&
                  forall i, j | 0 <= i < Side && 0 <= j < Side ::
                    board[i, j] == if (i, j) == cell then MouseMark else old(board[i, j])
                else
                  outcome == Panic && sent == [] && unchanged(board) &&
                  View() == old(View()).(mouse := Position(cell.0, cell.1))
    {
      var row: nat := 0;
      var col: nat := 0;
      match read {
        case Closed =>
          screen := ConnectingError;
          return Stop, [];
        case Failed(_) =>
          return Continue, [];
        case Data(bytes) =>
          var parts := Split(Text(bytes), ',');
          if |parts| >= 2 {
            var r := ParseUsize(parts[0]);
            if r.Some? {
              row := r.value;
            }
            var c := ParseUsize(parts[1]);
            if c.Some? {
              col := c.value;
            }
            outcome, sent := SpawnMouse(row, col);
            return;
          }
          return Continue, [];
      }
    }

    /** The `GetWalls` arm: mark the ten cells of the 20-byte layout as walls,
        in order; a short read leaves the rest of the buffer at 0. */
    method GetWallsStep(read: Received) returns (outcome: Outcome, sent: seq<seq<Byte>>)
      requires Valid() && state == GetWalls && Fits(read, 20)
      modifies this, board
      ensures Valid()
      ensures read.Closed? ==>
                outcome == Stop && sent == [] && unchanged(board) &&
                View() == old(View()).(screen := ConnectingError)
      ensures read.Failed? ==> outcome == Continue && sent == [OkMsg] && unchanged(board) && View() == old(View())
      ensures read.Data? ==>
                var walls := Walls(Padded(read.bytes, 20));
                var k := FirstOffBoard(walls);
                (forall i, j | 0 <= i < Side && 0 <= j < Side ::
                   board[i, j] == if (i, j) in walls[..k] then WallMark else old(board[i, j])) &&
                (k == 10 ==> outcome == Continue && sent == [OkMsg] && View() == old(View()).(state := Play)) &&
                (k < 10 ==> outcome == Panic && sent == [] && View() == old(View()))
    {
      match read {
        case Closed =>
          screen := ConnectingError;
          return Stop, [];
        case Failed(_) =>
          return Continue, [OkMsg];
        case Data(bytes) =>
      }
      var done := MarkWalls(Walls(Padded(read.bytes, 20)));
      if !done {
        return Panic, [];
      }
      state := Play;
      return Continue, [OkMsg];
    }

    /** The wall writes of the `GetWalls` arm, in order, up to the first cell
        off the board, where indexing panics. */
    method MarkWalls(walls: seq<(int, int)>) returns (done: bool)
      requires Valid()
      modifies board
      ensures done <==> FirstOffBoard(walls) == |walls|
      ensures forall i, j | 0 <= i < Side && 0 <= j < Side ::
                board[i, j] == if (i, j) in walls[..FirstOffBoard(walls)] then WallMark else old(board[i, j])
    {
      for w := 0 to |walls|
        invariant forall v | 0 <= v < w :: OnBoard(walls[v])
        invariant forall i, j | 0 <= i < Side && 0 <= j < Side ::
                    board[i, j] == if (i, j) in walls[..w] then WallMark else old(board[i, j])
      {
        var (r, c) := walls[w];
        if !(0 <= r < Side && 0 <= c < Side) {
          return false;
        }
        board[r, c] := WallMark;
        assert walls[..w + 1] == walls[..w] + [walls[w]];
      }
      assert walls[..|walls|] == walls;
      done := true;
    }

    /** The chain of tests on the two received bytes in the `Play` arm: a
        notice is echoed (except "ye") and finishes the game; otherwise the
        bytes are the opponent's cell, where the mouse (when the local player
        is the wall builder) or a wall (otherwise) is put. */
    method HandleIncoming(nr1: Byte, nr2: Byte) returns (outcome: Outcome, sent: seq<seq<Byte>>)
      requires Valid()
      modifies this, board
      ensures Valid()
      ensures var msg := Classify([nr1, nr2]);
              if msg.Move? && !OnBoard((nr1, nr2)) then
                outcome == Panic && sent == [] && View() == old(View()) &&
                forall i, j | 0 <= i < Side && 0 <= j < Side ::
                  board[i, j] == if player == 2 && (i, j) == Coord(old(mouse)) then Empty else old(board[i, j])
              else
                outcome == Continue && sent == Echo(msg) && View() == AfterIncoming(old(View()), msg) &&
                forall i, j | 0 <= i < Side && 0 <= j < Side ::
                  board[i, j] == if msg.Move? then CellAfterMove(old(board[i, j]), (i, j), (nr1, nr2), player == 2, old(mouse))
                                 else old(board[i, j])
    {
      sent := [];
      if nr1 == WinMsg[0] && nr2 == WinMsg[1] {
        sent := [WinMsg];
        winState := WinText;
        win := true;
        state := Finished;
      } else if nr1 == LoseMsg[0] && nr2 == LoseMsg[1] {
        sent := [LoseMsg];
        winState := LoseText;
        win := true;
        state := Finished;
      } else if nr1 == LeftMsg[0] && nr2 == LeftMsg[1] {
        win := true;
        winState := LeftText;
        state := Finished;
      } else if player == 2 {
        var temp := NewFromPos(mouse);
        board[temp.x, temp.y] := Empty;
        if !(nr1 < Side && nr2 < Side) {
          return Panic, [];
        }
        board[nr1, nr2] := MouseMark;
        mouse := NewPosition(nr1, nr2);
      } else {
        if !(nr1 < Side && nr2 < Side) {
          return Panic, [];
        }
        board[nr1, nr2] := WallMark;
      }
      hasToRead := false;
      outcome := Continue;
    }

    /** The check after every non-empty read in `Play`: the mouse's player
        concedes with "lo" when the mouse has no free neighbour. The scan is
        the one with all four bounds (see `CheckAnyLeftMoveBounded`); the
        scan as written can index outside the board. */
    method ConcedeIfTrapped() returns (sent: seq<seq<Byte>>)
      requires Valid()
      modifies this
      ensures Valid()
      ensures if player == 1 && !HasFreeNeighbour(board, mouse) then
                sent == [LoseMsg] && View() == Conceded(old(View()))
              else
                sent == [] && View() == old(View())
    {
      sent := [];
      if player == 1 {
        var anyLeft := CheckAnyLeftMoveBounded(board, mouse);
        if !anyLeft {
          sent := [LoseMsg];
          win := true;
          winState := LoseText;
          state := Finished;
        }
      }
    }

    /** The `Play` arm: a zero-length read means the opponent left; a
        non-empty read is handled by its two bytes (a one-byte read leaves
        the second at 0) and is followed by the concede check. */
    method PlayStep(read: Received) returns (outcome: Outcome, sent: seq<seq<Byte>>)
      requires Valid() && state == Play && Fits(read, 2)
      modifies this, board
      ensures Valid()
      ensures read.Closed? ==>
                outcome == Continue && sent == [] && unchanged(board) &&
                View() == old(View()).(win := true, winState := LeftText, state := Finished)
      ensures read.Failed? ==> outcome == Continue && sent == [] && unchanged(board) && View() == old(View())
      ensures read.Data? ==>
                var msg := Classify(Padded(read.bytes, 2));
                var target := (Padded(read.bytes, 2)[0], Padded(read.bytes, 2)[1]);
                if msg.Move? && !OnBoard(target) then
                  outcome == Panic && sent == [] && View() == old(View()) &&
                  forall i, j | 0 <= i < Side && 0 <= j < Side ::
                    board[i, j] == if player == 2 && (i, j) == Coord(old(mouse)) then Empty else old(board[i, j])
                else
                  (forall i, j | 0 <= i < Side && 0 <= j < Side ::
                     board[i, j] == if msg.Move? then CellAfterMove(old(board[i, j]), (i, j), target, player == 2, old(mouse))
                                    else old(board[i, j])) &&
                  var handled := AfterIncoming(old(View()), msg);
                  outcome == Continue &&
                  if player == 1 && !HasFreeNeighbour(board, mouse) then
                    View() == Conceded(handled) && sent == Echo(msg) + [LoseMsg]
                  else
                    View() == handled && sent == Echo(msg)
    {
      match read {
        case Closed =>
          win := true;
          winState := LeftText;
          state := Finished;
          return Continue, [];
        case Failed(_) =>
          return Continue, [];
        case Data(bytes) =>
      }
      var buffer := Padded(read.bytes, 2);
      assert buffer == [buffer[0], buffer[1]];
      outcome, sent := HandleIncoming(buffer[0], buffer[1]);
      if outcome == Panic {
        return;
      }
      var more := ConcedeIfTrapped();
      sent := sent + more;
    }
  }
}
