/** src/EscampeBoard.java as the class it is: a 6x6 array updated in place plus the two turn
    fields. Every method is proved against the functions of LegacyRules through the ghost
    view Model(). */
module Legacy {
  import opened Wrappers
  import opened Position
  import opened Pieces
  import opened MoveText
  import opened Board
  import opened LegacyRules

  class EscampeBoard {
    const board: array2<Cell>
    const boardTypes: seq<seq<int>>
    var currentPlayer: string
    var lastOpponentDest: Option<Pos>

    /** The array as a grid value. */
    ghost function Grid(): (g: Grid)
      reads board
      requires board.Length0 == SIZE && board.Length1 == SIZE
      ensures IsGrid(g) && forall p {:trigger At(g, p)} :: InBounds(p) ==> At(g, p) == board[p.row, p.col]
    {
      seq(SIZE, r requires 0 <= r < SIZE reads board =>
        seq(SIZE, c requires 0 <= c < SIZE reads board => board[r, c]))
    }

    ghost function Model(): State
      reads this, board
      requires board.Length0 == SIZE && board.Length1 == SIZE
    {
      State(Grid(), currentPlayer, lastOpponentDest, boardTypes)
    }

    ghost predicate Valid()
      reads this, board
    {
      board.Length0 == SIZE && board.Length1 == SIZE && LegacyRules.Valid(Model())
    }

    constructor ()
      ensures Valid() && Model() == Initial()
      ensures fresh(board)
    {
      board := new Cell[SIZE, SIZE]((r, c) => None);
      boardTypes := BoardTypes;
      currentPlayer := BLANC;
      lastOpponentDest := None;
      new;
      SameGrid(Grid(), Initial().grid);
    }

    /** One array write, seen on the grid value. */
    method SetCell(p: Pos, x: Cell)
      requires board.Length0 == SIZE && board.Length1 == SIZE && InBounds(p)
      modifies board
      ensures Grid() == Put(old(Grid()), p, x)
    {
      board[p.row, p.col] := x;
      SameGrid(Grid(), Put(old(Grid()), p, x));
    }

    /** isValidMove; None where the source throws. */
    method IsValidMove(move: string, player: string) returns (r: Option<bool>)
      requires Valid()
      ensures r == CheckMove(Model(), move, player)
    {
      if move == "E" {
        return Some(true);
      }
      if '/' in move {
        return Some(player == NOIR || player == BLANC);
      }
      var parts := JavaSplit(move, '-');
      if |parts| != 2 {
        return Some(false);
      }
      if !Parsable(parts[0]) || !Parsable(parts[1]) {
        return None;
      }
      r := IsValidStep(FromString(parts[0]), FromString(parts[1]), player);
    }

    /** The step branch of isValidMove, check by check in the order of the source. */
    method IsValidStep(from: Pos, to: Pos, player: string) returns (r: Option<bool>)
      requires Valid()
      ensures r == CheckStep(Model(), from, to, player)
    {
      if !InBounds(from) {
        return None;
      }
      var p := board[from.row, from.col];
      if p == None || p.value.color != player {
        return Some(false);
      }
      if lastOpponentDest.Some? {
        var requiredLisere := Range(boardTypes, lastOpponentDest.value);
        if Range(boardTypes, from) != requiredLisere {
          return Some(false);
        }
      }
      var dx, dy := Abs(to.col - from.col), Abs(to.row - from.row);
      if dx != 0 && dy != 0 {
        return Some(false);
      }
      var dist := dx + dy;
      var lisere := Range(boardTypes, from);
      if dist != lisere {
        return Some(false);
      }
      r := WalkPath(from, to, player);
    }

    /** The loop of isValidMove from the first cell after `from`, Integer.compare giving the
        unit step, then the test of the destination. */
    method WalkPath(from: Pos, to: Pos, player: string) returns (r: Option<bool>)
      requires Valid() && InBounds(from) && Distance(from, to) >= 1
      ensures r == WalkFrom(Grid(), from, to, player, 1)
    {
      var dist := Abs(to.col - from.col) + Abs(to.row - from.row);
      var stepRow, stepCol := Sign(to.row - from.row), Sign(to.col - from.col);
      var row, col := from.row + stepRow, from.col + stepCol;
      var i := 1;
      while i < dist
        invariant 1 <= i <= dist
        invariant Pos(row, col) == Walk(from, to, i)
        invariant WalkFrom(Grid(), from, to, player, i) == WalkFrom(Grid(), from, to, player, 1)
      {
        if !InBounds(Pos(row, col)) {
          return None;
        }
        if board[row, col] != None {
          return Some(false);
        }
        row, col := row + stepRow, col + stepCol;
        i := i + 1;
      }
      if !InBounds(to) {
        return None;
      }
      var destPiece := board[to.row, to.col];
      r := Some(!(destPiece != None && destPiece.value.color == player));
    }

    /** possiblesMoves: nothing while no step has been played; otherwise the scan of the rows
        and columns in order. */
    method PossiblesMoves(player: string) returns (moves: seq<Move>)
      requires Valid()
      ensures moves == PossibleMoves(Model(), player)
    {
      if lastOpponentDest == None {
        return [];
      }
      moves := [];
      var r := 0;
      while r < SIZE
        invariant 0 <= r <= SIZE
        invariant moves == Scanned(Model(), Generator(player), r, 0)
      {
        moves := ScanRow(r, player, moves);
        r := r + 1;
      }
    }

    /** One row of the scan, appended to the moves of the rows above. */
    method ScanRow(r: int, player: string, above: seq<Move>) returns (moves: seq<Move>)
      requires Valid() && lastOpponentDest.Some? && 0 <= r < SIZE
      requires above == Scanned(Model(), Generator(player), r, 0)
      ensures moves == Scanned(Model(), Generator(player), r, SIZE)
    {
      ghost var s, gen := Model(), Generator(player);
      moves := above;
      var c := 0;
      while c < SIZE
        invariant 0 <= c <= SIZE
        invariant moves == Scanned(s, gen, r, c)
      {
        var found := MovesFrom(Pos(r, c), player);
        assert found == gen(s, Pos(r, c));
        moves := moves + found;
        c := c + 1;
      }
    }

    /** The body of the scan for one cell: nothing unless it holds a piece of the player on a
        cell whose range is the lisere; otherwise the four directions. */
    method MovesFrom(f: Pos, player: string) returns (found: seq<Move>)
      requires Valid() && lastOpponentDest.Some? && InBounds(f)
      ensures found == CellMoves(Model(), player, f)
    {
      var lisere := Range(boardTypes, lastOpponentDest.value);
      var p := board[f.row, f.col];
      if p != None && p.value.color == player && Range(boardTypes, f) == lisere {
        found := ProbeAll(f, lisere, player);
      } else {
        found := [];
      }
    }

    /** The directions {1,0}, {-1,0}, {0,1}, {0,-1} in order, lisere cells away. */
    method ProbeAll(f: Pos, lisere: int, player: string) returns (found: seq<Move>)
      requires Valid() && lastOpponentDest.Some? && InBounds(f) && lisere == Lisere(Model())
      ensures found == Probes(Model(), player, f, DIRECTIONS)
    {
      found := [];
      var k := 0;
      while k < DIRECTIONS
        invariant 0 <= k <= DIRECTIONS
        invariant found == Probes(Model(), player, f, k)
      {
        var step := TryDirection(f, k, lisere, player);
        found := found + step;
        k := k + 1;
      }
    }

    /** One direction: the step to the cell lisere away, when that cell is on the board and
        isValidMove accepts the string written for the step. */
    method TryDirection(f: Pos, k: int, lisere: int, player: string) returns (step: seq<Move>)
      requires Valid() && lastOpponentDest.Some? && InBounds(f) && 0 <= k < DIRECTIONS
      requires lisere == Lisere(Model())
      ensures step == Probe(Model(), player, f, k)
    {
      var to := Target(f, k, lisere);
      step := [];
      if InBounds(to) {
        var move := Encode(Step(f, to));
        var legal := IsValidMove(move, player);
        CheckMoveOfStep(Model(), f, to, player);
        if legal == Some(true) {
          step := [Step(f, to)];
        }
      }
    }

    /** play, with no check: the state afterwards is the one Apply describes, including the
        writes made before an exception (then `completed` is false). */
    method Play(move: string, player: string) returns (completed: bool)
      requires Valid()
      modifies this, board
      ensures Valid()
      ensures Model() == Apply(old(Model()), move, player).state
      ensures completed == Apply(old(Model()), move, player).completed
    {
      ghost var s := Model();
      if move == "E" {
        currentPlayer := if player == BLANC then NOIR else BLANC;
        lastOpponentDest := None;
        return true;
      }
      if '/' in move {
        var positions := JavaSplit(move, '/');
        var n := PlacePieces(positions, player);
        if n < |positions| {
          return false;
        }
      } else {
        var parts := JavaSplit(move, '-');
        if |parts| < 2 || !Parsable(parts[0]) || !Parsable(parts[1]) {
          return false;
        }
        var from, to := FromString(parts[0]), FromString(parts[1]);
        if !InBounds(from) {
          return false;
        }
        var p := board[from.row, from.col];
        SetCell(from, None);
        if !InBounds(to) {
          return false;
        }
        SetCell(to, p);
        lastOpponentDest := Some(to);
      }
      currentPlayer := if player == BLANC then NOIR else BLANC;
      completed := true;
    }

    /** The placement loop of play: the licorne on the first cell, paladins on the others,
        stopping at the first token that does not name a cell of the board. Returns how many
        cells were written. */
    method PlacePieces(tokens: seq<string>, player: string) returns (n: int)
      requires board.Length0 == SIZE && board.Length1 == SIZE
      modifies board
      ensures n == |PlacedCells(tokens)|
      ensures Grid() == PlaceAll(old(Grid()), PlacedCells(tokens), player)
    {
      ghost var cells := PlacedCells(tokens);
      var i := 0;
      while i < |tokens|
        invariant 0 <= i <= |cells|
        invariant Grid() == PlaceAll(old(Grid()), cells[..i], player)
      {
        var pos := DecodeCell(tokens[i]);
        if pos.None? || !InBounds(pos.value) {
          assert i == |cells| && cells[..i] == cells;
          return i;
        }
        assert i < |cells| && cells[i] == pos.value;
        if i == 0 {
          SetCell(pos.value, Some(Piece(LICORNE, player)));
        } else {
          SetCell(pos.value, Some(Piece(PALADIN, player)));
        }
        assert cells[..i + 1][..i] == cells[..i];
        i := i + 1;
      }
      assert cells[..i] == cells;
      return i;
    }

    /** gameOver: one pass over the array looking for a licorne of each colour. */
    method GameOver() returns (over: bool)
      requires Valid()
      ensures over == Board.GameOver(Grid())
    {
      var licorneNoir, licorneBlanc := false, false;
      for r := 0 to SIZE
        invariant licorneNoir == LicorneBefore(Grid(), NOIR, r, 0)
        invariant licorneBlanc == LicorneBefore(Grid(), BLANC, r, 0)
      {
        for c := 0 to SIZE
          invariant licorneNoir == LicorneBefore(Grid(), NOIR, r, c)
          invariant licorneBlanc == LicorneBefore(Grid(), BLANC, r, c)
        {
          var p := board[r, c];
          if p != None && p.value.kind == LICORNE {
            if p.value.color == NOIR {
              licorneNoir := true;
            }
            if p.value.color == BLANC {
              licorneBlanc := true;
            }
          }
          LicorneBeforeNext(Grid(), NOIR, r, c);
          LicorneBeforeNext(Grid(), BLANC, r, c);
        }
        LicorneBeforeRow(Grid(), NOIR, r);
        LicorneBeforeRow(Grid(), BLANC, r);
      }
      over := !(licorneNoir && licorneBlanc);
    }

    /** One line of saveToFile between its row numbers: the symbols of row r. */
    method SaveRow(r: int) returns (line: string)
      requires board.Length0 == SIZE && board.Length1 == SIZE && 0 <= r < SIZE
      ensures line == RowText(Grid()[r])
    {
      ghost var row := Grid()[r];
      line := "";
      for c := 0 to SIZE
        invariant line == RowText(row[..c])
      {
        var p := board[r, c];
        assert p == At(Grid(), Pos(r, c)) == row[c];
        var text := "";
        if p == None {
          text := "-";
        } else if p.value.color == NOIR {
          text := if p.value.kind == LICORNE then "B" else "b";
        } else if p.value.color == BLANC {
          text := if p.value.kind == LICORNE then "N" else "n";
        }
        assert text == SymbolText(p);
        RowTextNext(row, c);
        line := line + text;
      }
      assert row[..SIZE] == row;
    }

    /** The loop of setFromFile over the six board characters of one line: a recognised
        symbol overwrites its cell of row r, any other character leaves it. */
    method LoadLine(r: int, content: string)
      requires board.Length0 == SIZE && board.Length1 == SIZE && 0 <= r < SIZE && |content| == SIZE
      modifies board
      ensures Grid() == old(Grid())[r := LoadRow(old(Grid())[r], content)]
    {
      for col := 0 to SIZE
        invariant forall i, j :: 0 <= i < SIZE && 0 <= j < SIZE ==>
          board[i, j] == if i == r && j < col then Load(old(board[i, j]), content[j]) else old(board[i, j])
      {
        var symbol := content[col];
        match symbol {
          case 'b' => board[r, col] := Some(Piece(PALADIN, NOIR));
          case 'B' => board[r, col] := Some(Piece(LICORNE, NOIR));
          case 'n' => board[r, col] := Some(Piece(PALADIN, BLANC));
          case 'N' => board[r, col] := Some(Piece(LICORNE, BLANC));
          case '-' => board[r, col] := None;
          case _ =>
        }
      }
      SameGrid(Grid(), old(Grid())[r := LoadRow(old(Grid())[r], content)]);
    }
  }
}
