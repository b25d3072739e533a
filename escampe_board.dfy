/** escampe/EscampeBoard.java as the class it is: a 6x6 array updated in place plus the two
    turn fields. Every method is proved against the functions of EscampeRules through the
    ghost view Model(). */
module Escampe {
  import opened Wrappers
  import opened Position
  import opened Pieces
  import opened MoveText
  import opened Board
  import opened EscampeRules

  class EscampeBoard {
    const board: array2<Cell>
    const boardTypes: seq<seq<int>>
    var currentPlayer: string
    var lastOpponentDest: Option<Pos>

    /** The array as a grid value. */
    ghost function Grid(): (g: Grid)
      reads board
      requires board.Length0 == SIZE && board.Length1 == SIZE
      ensures IsGrid(g) && forall p {:trigger At(g, p)} :: InBounds(p) ==> At(g, p) == board[p.row, p.col]
    {
      seq(SIZE, r requires 0 <= r < SIZE reads board =>
        seq(SIZE, c requires 0 <= c < SIZE reads board => board[r, c]))
    }

    ghost function Model(): State
      reads this, board
      requires board.Length0 == SIZE && board.Length1 == SIZE
    {
      State(Grid(), currentPlayer, lastOpponentDest, boardTypes)
    }

    ghost predicate Valid()
      reads this, board
    {
      board.Length0 == SIZE && board.Length1 == SIZE && EscampeRules.Valid(Model())
    }

    constructor ()
      ensures Valid() && Model() == Initial()
      ensures fresh(board)
    {
      board := new Cell[SIZE, SIZE]((r, c) => None);
      boardTypes := BoardTypes;
      currentPlayer := BLANC;
      lastOpponentDest := None;
      new;
      SameGrid(Grid(), Initial().grid);
    }

    /** One array write, seen on the grid value. */
    method SetCell(p: Pos, x: Cell)
      requires board.Length0 == SIZE && board.Length1 == SIZE && InBounds(p)
      modifies board
      ensures Grid() == Put(old(Grid()), p, x)
    {
      board[p.row, p.col] := x;
      SameGrid(Grid(), Put(old(Grid()), p, x));
    }

    /** isValidMove. A pass asks the generator; the generator asks this method about steps
        only, hence the measure. */
    method IsValidMove(m: Move, player: string) returns (b: bool)
      requires Valid() && InBoundsMove(m)
      ensures b == ValidMove(Model(), m, player)
      ensures Model() == old(Model())
      decreases if m.Pass? then 6 else 0
    {
      match m {
        case Pass =>
          var pm := PossiblesMoves(player);
          b := |pm| == 1 && pm[0] == Pass;
        case Placement(cells) =>
          b := IsValidPlacement(cells, player);
        case Step(from, to) =>
          b := IsValidStep(from, to, player);
        case Malformed =>
          b := false;
      }
    }

    /** The placement branch: the player's own turn, six cells, all of them empty. */
    method IsValidPlacement(cells: seq<Pos>, player: string) returns (b: bool)
      requires Valid() && InBoundsMove(Placement(cells))
      ensures b == ValidMove(Model(), Placement(cells), player)
    {
      if player != currentPlayer || |cells| != SIZE {
        return false;
      }
      var i := 0;
      while i < |cells|
        invariant 0 <= i <= |cells|
        invariant forall j :: 0 <= j < i ==> At(Grid(), cells[j]) == None
      {
        var pos := cells[i];
        if board[pos.row, pos.col] != None {
          return false;
        }
        i := i + 1;
      }
      return true;
    }

    /** The step branch, check by check in the order of the source. */
    method IsValidStep(from: Pos, to: Pos, player: string) returns (b: bool)
      requires Valid() && InBounds(from) && InBounds(to)
      ensures b == ValidStep(Model(), player, from, to)
      decreases 0
    {
      var p := board[from.row, from.col];
      if p == None || p.value.color != player {
        return false;
      }
      if lastOpponentDest.Some? {
        var required := Range(boardTypes, lastOpponentDest.value);
        if Range(boardTypes, from) != required {
          return false;
        }
      }
      var dr, dc := to.row - from.row, to.col - from.col;
      if dr != 0 && dc != 0 {
        return false;
      }
      var dist := Abs(dr) + Abs(dc);
      var allowed := Range(boardTypes, from);
      if dist != allowed {
        return false;
      }
      var clear := IsPathClear(from, to);
      if !clear {
        return false;
      }
      var dest := board[to.row, to.col];
      if dest != None {
        if p.value.kind != PALADIN || dest.value.kind != LICORNE || dest.value.color == p.value.color {
          return false;
        }
      }
      return true;
    }

    /** The walk from `from` towards `to` one cell at a time, Integer.signum giving the
        direction; the cells strictly between must be empty. */
    method IsPathClear(from: Pos, to: Pos) returns (b: bool)
      requires Valid() && InBounds(from) && InBounds(to) && OnOneAxis(from, to)
      ensures b == PathClear(Grid(), from, to)
    {
      var dist := Abs(to.row - from.row) + Abs(to.col - from.col);
      var stepR, stepC := Sign(to.row - from.row), Sign(to.col - from.col);
      var r, c := from.row, from.col;
      var i := 1;
      while i <= dist
        invariant 1 <= i <= dist + 1
        invariant Pos(r, c) == Between(from, to, i - 1)
        invariant forall j :: 1 <= j < i && j < dist ==> At(Grid(), Between(from, to, j)) == None
      {
        r, c := r + stepR, c + stepC;
        assert Pos(r, c) == Between(from, to, i);
        if i < dist && board[r, c] != None {
          return false;
        }
        i := i + 1;
      }
      return true;
    }

    /** possiblesMoves: scans the rows and the columns in order, collecting the moves of
        each cell, and falls back to the pass when there are none. */
    method PossiblesMoves(player: string) returns (moves: seq<Move>)
      requires Valid()
      ensures moves == PossibleMoves(Model(), player)
      decreases 5
    {
      moves := [];
      var r := 0;
      while r < SIZE
        invariant 0 <= r <= SIZE
        invariant moves == Scanned(Model(), Generator(player), r, 0)
      {
        moves := ScanRow(r, player, moves);
        r := r + 1;
      }
      if moves == [] {
        moves := [Pass];
      }
    }

    /** One row of the scan of possiblesMoves, appended to the moves of the rows above. */
    method ScanRow(r: int, player: string, above: seq<Move>) returns (moves: seq<Move>)
      requires Valid() && 0 <= r < SIZE && above == Scanned(Model(), Generator(player), r, 0)
      ensures moves == Scanned(Model(), Generator(player), r, SIZE)
      decreases 4
    {
      ghost var s, gen := Model(), Generator(player);
      moves := above;
      var c := 0;
      while c < SIZE
        invariant 0 <= c <= SIZE
        invariant moves == Scanned(s, gen, r, c)
      {
        var found := MovesFrom(Pos(r, c), player);
        assert found == gen(s, Pos(r, c));
        moves := moves + found;
        c := c + 1;
      }
    }

    /** The body of the generator's scan for one cell: nothing unless the cell holds a piece
        of the player standing on the required lisere; otherwise each of the four directions
        whose target is on the board and legal. */
    method MovesFrom(f: Pos, player: string) returns (found: seq<Move>)
      requires Valid() && InBounds(f)
      ensures found == CellMoves(Model(), player, f)
      ensures Model() == old(Model())
      decreases 3
    {
      ghost var s := Model();
      var p := board[f.row, f.col];
      assert p == At(s.grid, f);
      if p == None || p.value.color != player {
        return [];
      }
      if lastOpponentDest.Some? && Range(boardTypes, f) != Range(boardTypes, lastOpponentDest.value) {
        assert !LisereAllows(s, f);
        return [];
      }
      assert LisereAllows(s, f);
      found := ProbeAll(f, player);
    }

    /** The four directions of the scan for the piece on f, in order. */
    method ProbeAll(f: Pos, player: string) returns (found: seq<Move>)
      requires Valid() && InBounds(f)
      ensures found == Probes(Model(), player, f, DIRECTIONS)
      ensures Model() == old(Model())
      decreases 2
    {
      var d := Range(boardTypes, f);
      found := [];
      var k := 0;
      while k < DIRECTIONS
        invariant 0 <= k <= DIRECTIONS
        invariant found == Probes(Model(), player, f, k)
      {
        var step := TryDirection(f, k, d, player);
        found := found + step;
        k := k + 1;
      }
    }

    /** One direction of the scan: the step to the cell d away, when it is on the board and
        isValidMove accepts it. */
    method TryDirection(f: Pos, k: int, d: int, player: string) returns (step: seq<Move>)
      requires Valid() && InBounds(f) && 0 <= k < DIRECTIONS && d == Range(boardTypes, f)
      ensures step == Probe(Model(), player, f, k)
      ensures Model() == old(Model())
      decreases 1
    {
      var t := Target(f, k, d);
      step := [];
      if InBounds(t) {
        var legal := IsValidMove(Step(f, t), player);
        if legal {
          step := [Step(f, t)];
        }
      }
    }

    /** play: rejects an illegal move (the source throws) and otherwise performs it. */
    method Play(m: Move, player: string) returns (ok: bool)
      requires Valid() && InBoundsMove(m)
      modifies this, board
      ensures Valid()
      ensures ok == ValidMove(old(Model()), m, player)
      ensures ok ==> Model() == Apply(old(Model()), m, player)
      ensures !ok ==> Model() == old(Model())
    {
      ok := IsValidMove(m, player);
      if ok {
        Perform(m, player);
      }
    }

    /** play on the move string itself: a string Position.fromString cannot read, or one
        naming a cell off the board, makes the source throw, and so does an illegal move;
        in each of these cases nothing changes. */
    method PlayText(move: string, player: string) returns (ok: bool)
      requires Valid()
      modifies this, board
      ensures Valid()
      ensures ok == (Decode(move).Some? && InBoundsMove(Decode(move).value)
                     && ValidMove(old(Model()), Decode(move).value, player))
      ensures ok ==> Model() == Apply(old(Model()), Decode(move).value, player)
      ensures !ok ==> Model() == old(Model())
    {
      var m := Decode(move);
      if m.None? || !InBoundsMove(m.value) {
        return false;
      }
      ok := Play(m.value, player);
    }

    /** The effect of play on a move isValidMove accepted. */
    method Perform(m: Move, player: string)
      requires Valid() && InBoundsMove(m) && ValidMove(Model(), m, player)
      modifies this, board
      ensures board.Length0 == SIZE && board.Length1 == SIZE
      ensures Model() == Apply(old(Model()), m, player)
    {
      ghost var s0 := Model();
      match m {
        case Pass =>
          PerformPass(player);
          assert Model() == s0.(currentPlayer := OpponentOf(player), lastDest := None);
        case Placement(cells) =>
          PerformPlacement(cells, player);
          assert Model() == s0.(grid := PlaceAll(s0.grid, cells, player), currentPlayer := OpponentOf(player), lastDest := None);
        case Step(from, to) =>
          PerformStep(from, to, player);
          assert Model() == s0.(grid := Put(Put(s0.grid, from, None), to, At(s0.grid, from)),
                                currentPlayer := OpponentOf(player), lastDest := Some(to));
      }
    }

    /** play on a pass: only the turn changes hands, and the lisere constraint lapses. */
    method PerformPass(player: string)
      requires board.Length0 == SIZE && board.Length1 == SIZE
      modifies this
      ensures Grid() == old(Grid())
      ensures currentPlayer == OpponentOf(player) && lastOpponentDest == None
    {
      lastOpponentDest := None;
      currentPlayer := OpponentOf(player);
    }

    /** play on a placement: the pieces go down and the turn passes. */
    method PerformPlacement(cells: seq<Pos>, player: string)
      requires board.Length0 == SIZE && board.Length1 == SIZE
      requires forall i :: 0 <= i < |cells| ==> InBounds(cells[i])
      modifies this, board
      ensures Grid() == PlaceAll(old(Grid()), cells, player)
      ensures currentPlayer == OpponentOf(player) && lastOpponentDest == None
    {
      lastOpponentDest := None;
      currentPlayer := OpponentOf(player);
      PlacePieces(cells, player);
    }

    /** play on a step: the piece leaves from and lands on to, replacing whatever stood
        there, and to becomes the lisere the opponent must follow. */
    method PerformStep(from: Pos, to: Pos, player: string)
      requires board.Length0 == SIZE && board.Length1 == SIZE && InBounds(from) && InBounds(to)
      modifies this, board
      ensures Grid() == Put(Put(old(Grid()), from, None), to, At(old(Grid()), from))
      ensures currentPlayer == OpponentOf(player) && lastOpponentDest == Some(to)
    {
      lastOpponentDest := Some(to);
      currentPlayer := OpponentOf(player);
      var p := board[from.row, from.col];
      SetCell(from, None);
      SetCell(to, p);
    }

    /** The placement loop: the licorne on the first cell, paladins on the others. */
    method PlacePieces(cells: seq<Pos>, player: string)
      requires board.Length0 == SIZE && board.Length1 == SIZE
      requires forall i :: 0 <= i < |cells| ==> InBounds(cells[i])
      modifies board
      ensures Grid() == PlaceAll(old(Grid()), cells, player)
    {
      for i := 0 to |cells|
        invariant Grid() == PlaceAll(old(Grid()), cells[..i], player)
      {
        if i == 0 {
          SetCell(cells[i], Some(Piece(LICORNE, player)));
        } else {
          SetCell(cells[i], Some(Piece(PALADIN, player)));
        }
        assert cells[..i + 1][..i] == cells[..i];
      }
      assert cells[..|cells|] == cells;
    }

    /** gameOver: one pass over the array looking for a licorne of each colour. */
    method GameOver() returns (over: bool)
      requires Valid()
      ensures over == Board.GameOver(Grid())
    {
      var hasNoir, hasBlanc := false, false;
      for r := 0 to SIZE
        invariant hasNoir == LicorneBefore(Grid(), NOIR, r, 0)
        invariant hasBlanc == LicorneBefore(Grid(), BLANC, r, 0)
      {
        for c := 0 to SIZE
          invariant hasNoir == LicorneBefore(Grid(), NOIR, r, c)
          invariant hasBlanc == LicorneBefore(Grid(), BLANC, r, c)
        {
          var p := board[r, c];
          if p != None && p.value.kind == LICORNE {
            if p.value.color == NOIR {
              hasNoir := true;
            }
            if p.value.color == BLANC {
              hasBlanc := true;
            }
          }
          LicorneBeforeNext(Grid(), NOIR, r, c);
          LicorneBeforeNext(Grid(), BLANC, r, c);
        }
        LicorneBeforeRow(Grid(), NOIR, r);
        LicorneBeforeRow(Grid(), BLANC, r);
      }
      over := !(hasNoir && hasBlanc);
    }

    /** saveToFile without the file: the six rows of symbols. */
    method SaveToRows() returns (rows: seq<string>)
      requires Valid()
      ensures rows == SaveRows(Grid())
    {
      rows := [];
      for r := 0 to SIZE
        invariant rows == SaveRows(Grid())[..r]
      {
        var line := SaveRow(r);
        rows := rows + [line];
      }
    }

    /** One line of saveToFile: the symbol of each cell of row r, left to right. */
    method SaveRow(r: int) returns (line: string)
      requires board.Length0 == SIZE && board.Length1 == SIZE && 0 <= r < SIZE
      ensures line == RowText(Grid()[r])
    {
      line := "";
      for c := 0 to SIZE
        invariant line == RowText(Grid()[r][..c])
      {
        var p := board[r, c];
        var symbol := '-';
        if p != None {
          if p.value.color == NOIR {
            symbol := if p.value.kind == LICORNE then 'N' else 'n';
          } else {
            symbol := if p.value.kind == LICORNE then 'B' else 'b';
          }
        }
        assert Grid()[r][..c + 1][..c] == Grid()[r][..c];
        line := line + [symbol];
      }
      assert Grid()[r][..SIZE] == Grid()[r];
    }

    /** Decodes one accepted row text into row i of the array, symbol by symbol. */
    method DecodeRow(i: int, line: string)
      requires board.Length0 == SIZE && board.Length1 == SIZE && 0 <= i < SIZE && RowOk(line)
      modifies board
      ensures Grid() == old(Grid())[i := RowCells(line)]
    {
      for j := 0 to SIZE
        invariant forall r, c :: 0 <= r < SIZE && 0 <= c < SIZE ==>
          board[r, c] == if r == i && c < j then CellOf(line[c]) else old(board[r, c])
      {
        board[i, j] := CellOf(line[j]);
      }
      SameGrid(Grid(), old(Grid())[i := RowCells(line)]);
    }

    /** setFromFile without the file: the six row texts are decoded one by one; the turn goes
        back to "blanc" and the lisere is forgotten. A rejected row stops the load, leaving
        the rows before it already written and the turn fields as they were. */
    method SetFromRows(rows: seq<string>) returns (ok: bool)
      requires Valid()
      modifies this, board
      ensures Valid()
      ensures |rows| != SIZE ==> !ok && Model() == old(Model())
      ensures |rows| == SIZE ==>
        var n := FirstBad(rows, 0);
        ok == (n == SIZE) && Grid() == LoadRows(old(Grid()), rows, n)
        && (ok ==> currentPlayer == BLANC && lastOpponentDest == None)
        && (!ok ==> currentPlayer == old(currentPlayer) && lastOpponentDest == old(lastOpponentDest))
    {
      if |rows| != SIZE {
        return false;
      }
      var n := LoadGrid(rows);
      if n < SIZE {
        return false;
      }
      lastOpponentDest := None;
      currentPlayer := BLANC;
      ok := true;
    }

    /** The loop of setFromFile over the rows: each accepted row is decoded into the array,
        and the first rejected one (its index is returned, SIZE when there is none) stops it. */
    method LoadGrid(rows: seq<string>) returns (n: int)
      requires board.Length0 == SIZE && board.Length1 == SIZE && |rows| == SIZE
      modifies board
      ensures n == FirstBad(rows, 0) && Grid() == LoadRows(old(Grid()), rows, n)
    {
      for i := 0 to SIZE
        invariant forall k :: 0 <= k < i ==> RowOk(rows[k])
        invariant FirstBad(rows, 0) == FirstBad(rows, i)
        invariant Grid() == LoadRows(old(Grid()), rows, i)
      {
        var rowLine := rows[i];
        if !RowOk(rowLine) {
          return i;
        }
        DecodeRow(i, rowLine);
        LoadRowsStep(old(Grid()), rows, i);
        assert FirstBad(rows, i) == FirstBad(rows, i + 1);
      }
      return SIZE;
    }
  }
}
