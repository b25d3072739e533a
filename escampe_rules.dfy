/** The packaged rules engine (escampe/EscampeBoard.java) as functions over a value state.
    The class Escampe.EscampeBoard, which updates a 6x6 array in place, is proved against
    these definitions. */
module EscampeRules {
  import opened Wrappers
  import opened Position
  import opened Pieces
  import opened MoveText
  import opened Board

  /** The fields of the engine: the grid, the side whose turn it is, the destination of
      the last step (Java null until the first step), and the lisere table. The table is a
      constant of the source; the state carries it so that the rules below are stated, and
      proved, for any well-formed table, and the engine fixes it to BoardTypes. */
  datatype State = State(grid: Grid, currentPlayer: string, lastDest: Option<Pos>, types: seq<seq<int>>)

  /** What every reachable state satisfies. */
  predicate Valid(s: State)
  {
    IsGrid(s.grid) && WellFormedGrid(s.grid)
    && (s.lastDest.Some? ==> InBounds(s.lastDest.value))
    && IsColour(s.currentPlayer)
    && IsTable(s.types)
  }

  /** Every cell the move names is on the board; the engine indexes its array with them
      unchecked, so anything else raises an exception. */
  predicate InBoundsMove(m: Move)
  {
    match m
    case Placement(cells) => forall i :: 0 <= i < |cells| ==> InBounds(cells[i])
    case Step(f, t) => InBounds(f) && InBounds(t)
    case _ => true
  }

  /** A freshly constructed engine: empty grid, "blanc" to play, no lisere yet. */
  function Initial(): (s: State)
    ensures Valid(s) && s.currentPlayer == BLANC && s.lastDest == None && s.types == BoardTypes
    ensures forall p {:trigger At(s.grid, p)} :: InBounds(p) ==> At(s.grid, p) == None
  {
    BoardTypesIsTable();
    State(EmptyGrid(), BLANC, None, BoardTypes)
  }

  /** What reloading a saved board does to the turn fields: the grid is kept, the turn goes
      back to "blanc" and the lisere is forgotten. */
  function Reset(s: State): (r: State)
    ensures r.grid == s.grid && r.types == s.types
    ensures r.currentPlayer == BLANC && r.lastDest == None
    ensures Valid(s) ==> Valid(r)
  {
    s.(currentPlayer := BLANC, lastDest := None)
  }

  /** Once a step has been played, the next piece to move must stand on a cell with the same
      lisere as the cell that step landed on. */
  predicate LisereAllows(s: State, f: Pos)
    requires Valid(s) && InBounds(f)
  {
    s.lastDest.Some? ==> Range(s.types, f) == Range(s.types, s.lastDest.value)
  }

  /** An occupied destination is only reachable by a paladin landing on an enemy licorne. */
  predicate CaptureAllowed(p: Piece, dest: Cell)
  {
    dest.Some? ==> p.kind == PALADIN && dest.value.kind == LICORNE && dest.value.color != p.color
  }

  /** The step f-t is legal for player. Such a step moves one of the player's pieces one to
      three cells, and lands on an empty cell or on an enemy licorne taken by a paladin. */
  predicate ValidStep(s: State, player: string, f: Pos, t: Pos)
    requires Valid(s) && InBounds(f) && InBounds(t)
    ensures ValidStep(s, player, f, t) ==>
      f != t && 1 <= Distance(f, t) <= 3
      && At(s.grid, f).Some? && At(s.grid, f).value.color == player
      && (At(s.grid, t).None?
          || (At(s.grid, f).value.kind == PALADIN
              && At(s.grid, t).value.kind == LICORNE && At(s.grid, t).value.color != player))
  {
    var g := s.grid;
    At(g, f).Some? && At(g, f).value.color == player
    && LisereAllows(s, f)
    && OnOneAxis(f, t) && Distance(f, t) == Range(s.types, f)
    && PathClear(g, f, t)
    && CaptureAllowed(At(g, f).value, At(g, t))
  }

  // ---------------------------------------------------------------- the move generator

  /** m is a step on the board that is legal for player. */
  predicate LegalStep(s: State, player: string, m: Move)
    requires Valid(s)
  {
    m.Step? && InBounds(m.from) && InBounds(m.to) && ValidStep(s, player, m.from, m.to)
  }

  /** What trying direction k from f yields: the step to the cell Range away, when that
      cell is on the board and the step is legal. */
  function Probe(s: State, player: string, f: Pos, k: int): seq<Move>
    requires Valid(s) && InBounds(f) && 0 <= k < DIRECTIONS
  {
    var t := Target(f, k, Range(s.types, f));
    if InBounds(t) && ValidStep(s, player, f, t) then [Step(f, t)] else []
  }

  /** The moves found from f after trying the first k directions. */
  function Probes(s: State, player: string, f: Pos, k: int): (ms: seq<Move>)
    requires Valid(s) && InBounds(f) && 0 <= k <= DIRECTIONS
    ensures |ms| <= k
    ensures forall m :: m in ms ==> m.Step? && m.from == f
  {
    if k == 0 then [] else Probes(s, player, f, k - 1) + Probe(s, player, f, k - 1)
  }

  lemma {:induction false} ProbesSound(s: State, player: string, f: Pos, k: int)
    requires Valid(s) && InBounds(f) && 0 <= k <= DIRECTIONS
    ensures forall m :: m in Probes(s, player, f, k) ==> LegalStep(s, player, m) && m.from == f
  {
    if k > 0 {
      ProbesSound(s, player, f, k - 1);
    }
  }

  /** Whatever direction j yields is kept among the moves of the first k directions. */
  lemma {:induction false} ProbesKeep(s: State, player: string, f: Pos, k: int, j: int)
    requires Valid(s) && InBounds(f) && 0 <= j < k <= DIRECTIONS
    ensures forall m :: m in Probe(s, player, f, j) ==> m in Probes(s, player, f, k)
  {
    if j < k - 1 {
      ProbesKeep(s, player, f, k - 1, j);
    }
  }

  /** The moves generated for the piece on f: none unless it is the player's and its cell has
      the required lisere. */
  function CellMoves(s: State, player: string, f: Pos): (ms: seq<Move>)
    requires Valid(s) && InBounds(f)
    ensures |ms| <= DIRECTIONS
    ensures forall m :: m in ms ==> m.Step? && m.from == f
  {
    var x := At(s.grid, f);
    if x.Some? && x.value.color == player && LisereAllows(s, f) then Probes(s, player, f, DIRECTIONS)
    else []
  }

  /** On one cell the generator is sound and complete: it yields exactly the legal steps
      leaving f. */
  lemma CellMovesExact(s: State, player: string, f: Pos)
    requires Valid(s) && InBounds(f)
    ensures forall m :: m in CellMoves(s, player, f) ==> LegalStep(s, player, m) && m.from == f
    ensures forall t :: InBounds(t) && ValidStep(s, player, f, t) ==> Step(f, t) in CellMoves(s, player, f)
  {
    ProbesSound(s, player, f, DIRECTIONS);
    forall t | InBounds(t) && ValidStep(s, player, f, t) ensures Step(f, t) in CellMoves(s, player, f) {
      var k := StepDirection(f, t, Range(s.types, f));
      assert Step(f, t) in Probe(s, player, f, k);
      ProbesKeep(s, player, f, DIRECTIONS, k);
    }
  }

  /** The generator possiblesMoves applies to each cell of the board. */
  function Generator(player: string): (gen: (State, Pos) -> seq<Move>)
    ensures forall s {:trigger PerCell(s, gen)} :: PerCell(s, gen)
  {
    (s, p) => if Valid(s) && InBounds(p) then CellMoves(s, player, p) else []
  }

  /** All legal steps for player, row by row, column by column, direction by direction. */
  function StepMoves(s: State, player: string): (ms: seq<Move>)
    requires Valid(s)
    ensures forall m :: m in ms ==> m.Step?
  {
    Scanned(s, Generator(player), SIZE, 0)
  }

  /** possiblesMoves: the legal steps, or the single pass "E" when there are none. */
  function PossibleMoves(s: State, player: string): (ms: seq<Move>)
    requires Valid(s)
    ensures |ms| >= 1
    ensures Pass in ms ==> ms == [Pass]
  {
    var steps := StepMoves(s, player);
    if steps == [] then [Pass] else steps
  }

  /** Soundness of the generator: besides the pass, it yields only legal steps. */
  lemma GeneratedMovesAreLegal(s: State, player: string)
    requires Valid(s)
    ensures forall m :: m in PossibleMoves(s, player) ==> m == Pass || LegalStep(s, player, m)
  {
    ScannedSound(s, Generator(player), SIZE, 0);
    forall m | m in PossibleMoves(s, player) && m != Pass ensures LegalStep(s, player, m) {
      CellMovesExact(s, player, m.from);
    }
  }

  /** Soundness and completeness of the generator for steps. */
  lemma StepGeneratedIffValid(s: State, player: string, f: Pos, t: Pos)
    requires Valid(s) && InBounds(f) && InBounds(t)
    ensures Step(f, t) in PossibleMoves(s, player) <==> ValidStep(s, player, f, t)
  {
    ScannedSound(s, Generator(player), SIZE, 0);
    CellMovesExact(s, player, f);
    if ValidStep(s, player, f, t) {
      ScannedComplete(s, Generator(player), f, Step(f, t));
    }
  }

  /** isValidMove. The pass is valid exactly when the player has no legal step. */
  predicate ValidMove(s: State, m: Move, player: string)
    requires Valid(s) && InBoundsMove(m)
    ensures m.Pass? ==> (ValidMove(s, m, player) <==> Stuck(s, player))
  {
    match m
    case Pass => PassIffStuck(s, player); PossibleMoves(s, player) == [Pass]
    case Placement(cells) =>
      player == s.currentPlayer && |cells| == SIZE
      && forall i :: 0 <= i < |cells| ==> At(s.grid, cells[i]) == None
    case Step(f, t) => ValidStep(s, player, f, t)
    case Malformed => false
  }

  /** When the generator yields only the pass, no piece of player has a legal step. */
  lemma PassMeansNoStep(s: State, player: string, f: Pos, t: Pos)
    requires Valid(s) && InBounds(f) && InBounds(t) && PossibleMoves(s, player) == [Pass]
    ensures !ValidStep(s, player, f, t)
  {
    StepGeneratedIffValid(s, player, f, t);
  }

  /** Otherwise its first move is a legal step: together, isValidMove accepts the pass "E"
      exactly when the player is stuck. */
  lemma NoPassMeansStep(s: State, player: string) returns (f: Pos, t: Pos)
    requires Valid(s) && PossibleMoves(s, player) != [Pass]
    ensures InBounds(f) && InBounds(t) && ValidStep(s, player, f, t)
    ensures PossibleMoves(s, player)[0] == Step(f, t)
  {
    var m := PossibleMoves(s, player)[0];
    assert m in PossibleMoves(s, player);
    ScannedSound(s, Generator(player), SIZE, 0);
    f, t := m.from, m.to;
    CellMovesExact(s, player, f);
  }

  /** No piece of side has a legal step. */
  ghost predicate Stuck(s: State, side: string)
    requires Valid(s)
  {
    forall f, t :: InBounds(f) && InBounds(t) ==> !ValidStep(s, side, f, t)
  }

  /** The generator answers the lone pass exactly when the side is stuck. */
  lemma PassIffStuck(s: State, side: string)
    requires Valid(s)
    ensures PossibleMoves(s, side) == [Pass] <==> Stuck(s, side)
  {
    if PossibleMoves(s, side) == [Pass] {
      forall f, t | InBounds(f) && InBounds(t) ensures !ValidStep(s, side, f, t) {
        PassMeansNoStep(s, side, f, t);
      }
    } else {
      var f, t := NoPassMeansStep(s, side);
    }
  }

  /** Every generated move is legal for the same player. */
  lemma GeneratedMovesAreValid(s: State, player: string)
    requires Valid(s)
    ensures forall m :: m in PossibleMoves(s, player) ==> InBoundsMove(m) && ValidMove(s, m, player)
  {
    ScannedSound(s, Generator(player), SIZE, 0);
    forall m | m in PossibleMoves(s, player) ensures InBoundsMove(m) && ValidMove(s, m, player) {
      if m != Pass {
        CellMovesExact(s, player, m.from);
      }
    }
  }

  /** The i-th generated move, on its own: on the board, legal for the player, and a step
      unless it is the lone pass. */
  lemma GeneratedMove(s: State, player: string, i: int)
    requires Valid(s) && 0 <= i < |PossibleMoves(s, player)|
    ensures var m := PossibleMoves(s, player)[i];
      InBoundsMove(m) && ValidMove(s, m, player)
      && (m.Pass? || m.Step?) && (m.Pass? <==> PossibleMoves(s, player) == [Pass])
  {
    var ms := PossibleMoves(s, player);
    var m := ms[i];
    assert m in ms;
    if ms != [Pass] {
      assert m in StepMoves(s, player);
      ScannedSound(s, Generator(player), SIZE, 0);
      CellMovesExact(s, player, m.from);
      assert LegalStep(s, player, m);
    }
  }

  /** possiblesMoves yields at most four moves per cell of the board. */
  lemma PossibleMovesBound(s: State, player: string)
    requires Valid(s)
    ensures |PossibleMoves(s, player)| <= SIZE * SIZE * DIRECTIONS
  {
    var gen := Generator(player);
    assert forall p :: |gen(s, p)| <= DIRECTIONS by {
      forall p ensures |gen(s, p)| <= DIRECTIONS {
        if InBounds(p) {
          assert gen(s, p) == CellMoves(s, player, p);
        }
      }
    }
    ScannedLength(s, gen, SIZE, 0);
  }

  // ---------------------------------------------------------------- play

  /** play, on a legal move (the engine throws on any other). */
  function Apply(s: State, m: Move, player: string): (s': State)
    requires Valid(s) && InBoundsMove(m) && ValidMove(s, m, player)
    ensures Valid(s')
    ensures s'.currentPlayer == OpponentOf(player) && s'.types == s.types
    ensures m.Pass? ==> s'.grid == s.grid && s'.lastDest == None
    ensures m.Placement? ==> s'.lastDest == None
    ensures m.Step? ==>
      s'.lastDest == Some(m.to)
      && At(s'.grid, m.from) == None && At(s'.grid, m.to) == At(s.grid, m.from)
      && forall p {:trigger At(s'.grid, p)} :: InBounds(p) && p != m.from && p != m.to ==> At(s'.grid, p) == At(s.grid, p)
  {
    match m
    case Pass => s.(currentPlayer := OpponentOf(player), lastDest := None)
    case Placement(cells) =>
      s.(grid := PlaceAll(s.grid, cells, player), currentPlayer := OpponentOf(player), lastDest := None)
    case Step(f, t) =>
      s.(grid := Put(Put(s.grid, f, None), t, At(s.grid, f)), currentPlayer := OpponentOf(player), lastDest := Some(t))
  }

  /** A placement of six distinct cells puts the licorne on the first and paladins on the
      rest, and changes nothing else. */
  lemma PlacementEffect(s: State, cells: seq<Pos>, player: string)
    requires Valid(s) && InBoundsMove(Placement(cells)) && ValidMove(s, Placement(cells), player)
    requires forall i, j :: 0 <= i < j < |cells| ==> cells[i] != cells[j]
    ensures var g := Apply(s, Placement(cells), player).grid;
      At(g, cells[0]) == Some(Piece(LICORNE, player))
      && (forall i :: 1 <= i < |cells| ==> At(g, cells[i]) == Some(Piece(PALADIN, player)))
      && (forall p {:trigger At(g, p)} :: InBounds(p) && p !in cells ==> At(g, p) == At(s.grid, p))
  {
    PlaceAllEffect(s.grid, cells, player);
  }

  /** Reloading a snapshot drops the lisere, so a step legal before the reload stays legal
      after it and has the same effect. */
  lemma StepAfterReset(s: State, player: string, f: Pos, t: Pos)
    requires Valid(s) && InBounds(f) && InBounds(t) && ValidStep(s, player, f, t)
    ensures Valid(Reset(s)) && ValidStep(Reset(s), player, f, t)
    ensures Apply(Reset(s), Step(f, t), player) == Apply(s, Step(f, t), player)
  {
  }

  /** A step creates no piece: a colour without a licorne still has none afterwards, so a
      finished game stays finished. */
  lemma StepKeepsGameOver(s: State, player: string, f: Pos, t: Pos)
    requires Valid(s) && InBounds(f) && InBounds(t) && ValidStep(s, player, f, t)
    requires GameOver(s.grid)
    ensures GameOver(Apply(s, Step(f, t), player).grid)
  {
    var g, h := s.grid, Apply(s, Step(f, t), player).grid;
    forall color | HasLicorne(h, color) ensures HasLicorne(g, color) {
      var r, c :| 0 <= r < SIZE && 0 <= c < SIZE && h[r][c] == Some(Piece(LICORNE, color));
      var p := Pos(r, c);
      assert At(h, p) == h[r][c];
      if p == t {
        assert g[f.row][f.col] == Some(Piece(LICORNE, color));
      } else {
        assert p != f;
        assert g[r][c] == Some(Piece(LICORNE, color));
      }
    }
  }

  /** Taking the last licorne of a colour ends the game. */
  lemma CaptureOfLastLicorneEndsGame(s: State, player: string, f: Pos, t: Pos)
    requires Valid(s) && InBounds(f) && InBounds(t) && ValidStep(s, player, f, t)
    requires At(s.grid, t).Some?
    requires forall p :: InBounds(p) && At(s.grid, p) == At(s.grid, t) ==> p == t
    ensures GameOver(Apply(s, Step(f, t), player).grid)
  {
    var g, h := s.grid, Apply(s, Step(f, t), player).grid;
    var victim := At(g, t).value;
    assert victim.kind == LICORNE && victim.color != player;
    forall r, c | 0 <= r < SIZE && 0 <= c < SIZE ensures h[r][c] != Some(Piece(LICORNE, victim.color)) {
      var p := Pos(r, c);
      assert At(h, p) == h[r][c];
      if p != t && p != f {
        assert At(g, p) != At(g, t);
      }
    }
    assert victim.color == NOIR || victim.color == BLANC;
  }

  // ---------------------------------------------------------------- the symbol mapping of
  // saveToFile / setFromFile: upper case is a licorne, N/n noir and B/b blanc, '-' empty.

  function SymbolOf(x: Cell): (ch: char)
    ensures IsSymbol(ch)
    ensures ch == '-' <==> x.None?
    ensures x.Some? ==> ((ch == 'N' || ch == 'n') <==> x.value.color == NOIR)
    ensures x.Some? ==> ((ch == 'N' || ch == 'B') <==> x.value.kind == LICORNE)
  {
    match x
    case None => '-'
    case Some(p) =>
      if p.color == NOIR then (if p.kind == LICORNE then 'N' else 'n')
      else (if p.kind == LICORNE then 'B' else 'b')
  }

  predicate IsSymbol(ch: char) { ch == 'N' || ch == 'n' || ch == 'B' || ch == 'b' || ch == '-' }

  function CellOf(ch: char): (x: Cell)
    requires IsSymbol(ch)
    ensures x.Some? ==> WellFormed(x.value)
  {
    match ch
    case 'N' => Some(Piece(LICORNE, NOIR))
    case 'n' => Some(Piece(PALADIN, NOIR))
    case 'B' => Some(Piece(LICORNE, BLANC))
    case 'b' => Some(Piece(PALADIN, BLANC))
    case _ => None
  }

  /** The per-cell mapping is a bijection between well-formed cells and the five symbols. */
  lemma SymbolRoundTrip(x: Cell, ch: char)
    ensures (x.None? || WellFormed(x.value)) ==> IsSymbol(SymbolOf(x)) && CellOf(SymbolOf(x)) == x
    ensures IsSymbol(ch) ==> SymbolOf(CellOf(ch)) == ch
  {
  }

  /** One saved row: the symbols of its cells, left to right. */
  function RowText(row: seq<Cell>): (line: string)
    ensures |line| == |row| && forall j :: 0 <= j < |row| ==> line[j] == SymbolOf(row[j])
  {
    if |row| == 0 then [] else RowText(row[..|row| - 1]) + [SymbolOf(row[|row| - 1])]
  }

  /** saveToFile without its framing: the six row texts. */
  function SaveRows(g: Grid): (rows: seq<string>)
    requires IsGrid(g)
    ensures |rows| == SIZE && forall r :: 0 <= r < SIZE ==> rows[r] == RowText(g[r])
  {
    seq(SIZE, r requires 0 <= r < SIZE => RowText(g[r]))
  }

  /** A row setFromFile accepts: six board symbols. */
  predicate RowOk(line: string) { |line| == SIZE && forall j :: 0 <= j < |line| ==> IsSymbol(line[j]) }

  function RowCells(line: string): (row: seq<Cell>)
    requires RowOk(line)
    ensures |row| == SIZE && forall j :: 0 <= j < SIZE ==> row[j] == CellOf(line[j])
  {
    seq(SIZE, j requires 0 <= j < SIZE => CellOf(line[j]))
  }

  /** The first row setFromFile rejects, or SIZE when all six are accepted. */
  function FirstBad(rows: seq<string>, from: nat): (i: nat)
    requires |rows| == SIZE && from <= SIZE
    ensures from <= i <= SIZE
    ensures forall j :: from <= j < i ==> RowOk(rows[j])
    ensures i < SIZE ==> !RowOk(rows[i])
    decreases SIZE - from
  {
    if from == SIZE || !RowOk(rows[from]) then from else FirstBad(rows, from + 1)
  }

  /** The grid after setFromFile has decoded the first n rows; later rows are untouched. */
  function LoadRows(g: Grid, rows: seq<string>, n: int): (h: Grid)
    requires IsGrid(g) && |rows| == SIZE && 0 <= n <= SIZE
    requires forall j :: 0 <= j < n ==> RowOk(rows[j])
    ensures IsGrid(h)
    ensures forall r :: 0 <= r < SIZE ==> h[r] == if r < n then RowCells(rows[r]) else g[r]
    ensures WellFormedGrid(g) ==> WellFormedGrid(h)
  {
    seq(SIZE, r requires 0 <= r < SIZE => if r < n then RowCells(rows[r]) else g[r])
  }

  /** Loading one more accepted row overwrites exactly that row. */
  lemma LoadRowsStep(g: Grid, rows: seq<string>, n: int)
    requires IsGrid(g) && |rows| == SIZE && 0 <= n < SIZE
    requires forall j :: 0 <= j <= n ==> RowOk(rows[j])
    ensures LoadRows(g, rows, n)[n := RowCells(rows[n])] == LoadRows(g, rows, n + 1)
  {
    var a, b := LoadRows(g, rows, n)[n := RowCells(rows[n])], LoadRows(g, rows, n + 1);
    assert forall r :: 0 <= r < SIZE ==> a[r] == b[r];
  }

  /** Saving then loading gives back a grid of well-formed pieces exactly. */
  lemma SaveThenLoad(g: Grid, any: Grid)
    requires IsGrid(g) && WellFormedGrid(g) && IsGrid(any)
    ensures FirstBad(SaveRows(g), 0) == SIZE
    ensures LoadRows(any, SaveRows(g), SIZE) == g
  {
    var rows := SaveRows(g);
    forall r | 0 <= r < SIZE ensures RowOk(rows[r]) && RowCells(rows[r]) == g[r] {
      forall j | 0 <= j < SIZE ensures IsSymbol(rows[r][j]) && CellOf(rows[r][j]) == g[r][j] {
        SymbolRoundTrip(g[r][j], '-');
      }
    }
    FirstBadAllOk(rows, 0);
  }

  lemma {:induction false} FirstBadAllOk(rows: seq<string>, from: nat)
    requires |rows| == SIZE && from <= SIZE && forall j :: 0 <= j < SIZE ==> RowOk(rows[j])
    ensures FirstBad(rows, from) == SIZE
    decreases SIZE - from
  {
    if from < SIZE {
      FirstBadAllOk(rows, from + 1);
    }
  }

  /** Loading then saving gives back the accepted rows exactly. */
  lemma LoadThenSave(g: Grid, rows: seq<string>)
    requires IsGrid(g) && |rows| == SIZE && forall j :: 0 <= j < SIZE ==> RowOk(rows[j])
    ensures WellFormedGrid(LoadRows(g, rows, SIZE))
    ensures SaveRows(LoadRows(g, rows, SIZE)) == rows
  {
    var h := LoadRows(g, rows, SIZE);
    forall r | 0 <= r < SIZE ensures SaveRows(h)[r] == rows[r] {
      forall j | 0 <= j < SIZE ensures SaveRows(h)[r][j] == rows[r][j] {
        SymbolRoundTrip(None, rows[r][j]);
      }
    }
  }
}
