/** The older rules engine of the default package (src/EscampeBoard.java) as functions over a
    value state. It checks less than the packaged engine: isValidMove accepts the pass and any
    placement outright, a step may land on any piece that is not the mover's own, the move
    generator is empty until a step has been played, and play validates nothing. Where the
    source raises an exception (a token Position.fromString cannot read, an array index off
    the board) the functions below say so in their result: None for isValidMove, an
    unfinished Outcome, with the writes made before the exception, for play. */
module LegacyRules {
  import opened Wrappers
  import opened Position
  import opened Pieces
  import opened MoveText
  import opened Board

  /** The fields of the engine: the grid, currentPlayer, lastOpponentDest (Java null until
      the first step) and the lisere table boardTypes. */
  datatype State = State(grid: Grid, currentPlayer: string, lastDest: Option<Pos>, types: seq<seq<int>>)

  /** What every reachable state satisfies. Pieces are not required to be of colour noir
      or blanc: play places pieces of whatever player string it is given. */
  predicate Valid(s: State)
  {
    IsGrid(s.grid)
    && (s.lastDest.Some? ==> InBounds(s.lastDest.value))
    && IsColour(s.currentPlayer)
    && IsTable(s.types)
  }

  /** A freshly constructed engine: empty grid, "blanc" to play, no lisere yet. */
  function Initial(): (s: State)
    ensures Valid(s) && s.currentPlayer == BLANC && s.lastDest == None && s.types == BoardTypes
    ensures forall p {:trigger At(s.grid, p)} :: InBounds(p) ==> At(s.grid, p) == None
  {
    BoardTypesIsTable();
    State(EmptyGrid(), BLANC, None, BoardTypes)
  }

  /** Once a step has been played, the piece that moves must stand on a cell with the lisere
      of the cell that step landed on. */
  predicate LisereAllows(s: State, f: Pos)
    requires Valid(s) && InBounds(f)
  {
    s.lastDest.Some? ==> Range(s.types, f) == Range(s.types, s.lastDest.value)
  }

  /** The destination may hold anything except a piece of the mover's colour. */
  predicate NotFriendly(dest: Cell, player: string)
  {
    !(dest.Some? && dest.value.color == player)
  }

  /** A legal step of this engine, stated on the board: the player's piece, the lisere
      constraint, one axis, exactly the range of the starting cell, nothing in between, and
      no friendly piece at the end. */
  predicate ValidStep(s: State, player: string, f: Pos, t: Pos)
    requires Valid(s) && InBounds(f) && InBounds(t)
  {
    var g := s.grid;
    At(g, f).Some? && At(g, f).value.color == player
    && LisereAllows(s, f)
    && OnOneAxis(f, t) && Distance(f, t) == Range(s.types, f)
    && PathClear(g, f, t)
    && NotFriendly(At(g, t), player)
  }

  // ---------------------------------------------------------------- isValidMove

  /** The cell i unit steps from f toward t (Integer.compare gives the unit step), whether
      or not it is on the board. */
  function Walk(f: Pos, t: Pos, i: int): Pos
  {
    Pos(Toward(f.row, t.row, i), Toward(f.col, t.col, i))
  }

  /** The walk of isValidMove from its i-th cell on: an occupied cell rejects the step, a
      cell off the board makes the array access throw (None), and at the end the
      destination, read from the array, must not hold a friendly piece. */
  function WalkFrom(g: Grid, f: Pos, t: Pos, player: string, i: nat): (r: Option<bool>)
    requires IsGrid(g) && 1 <= i <= Distance(f, t)
    ensures r == Some(true) ==> InBounds(t) && NotFriendly(At(g, t), player)
    decreases Distance(f, t) - i
  {
    if i == Distance(f, t) then
      (if InBounds(t) then Some(NotFriendly(At(g, t), player)) else None)
    else
      var q := Walk(f, t, i);
      if !InBounds(q) then None
      else if At(g, q).Some? then Some(false)
      else WalkFrom(g, f, t, player, i + 1)
  }

  /** The step branch of isValidMove, check by check in the order of the source; None where
      it indexes the array off the board. Between two board cells it never throws and answers
      ValidStep, and it only ever accepts a step whose two ends are on the board. */
  function CheckStep(s: State, f: Pos, t: Pos, player: string): (r: Option<bool>)
    requires Valid(s)
    ensures InBounds(f) && InBounds(t) ==> r == Some(ValidStep(s, player, f, t))
    ensures r == Some(true) <==> InBounds(f) && InBounds(t) && ValidStep(s, player, f, t)
  {
    if !InBounds(f) then None
    else
      var p := At(s.grid, f);
      if p.None? || p.value.color != player then Some(false)
      else if !LisereAllows(s, f) then Some(false)
      else if !OnOneAxis(f, t) then Some(false)
      else if Distance(f, t) != Range(s.types, f) then Some(false)
      else WalkFromMeaning(s.grid, f, t, player); WalkFrom(s.grid, f, t, player, 1)
  }

  /** isValidMove on the move string; None where the source throws. A string without '/'
      is read as the move grammar reads it: an unreadable one throws, a malformed one is
      refused, and a step is the step check on its two cells. */
  function CheckMove(s: State, move: string, player: string): (r: Option<bool>)
    requires Valid(s)
    ensures '/' !in move && Decode(move).None? ==> r.None?
    ensures Decode(move) == Some(Malformed) ==> r == Some(false)
    ensures Decode(move).Some? && Decode(move).value.Step? ==>
      r == CheckStep(s, Decode(move).value.from, Decode(move).value.to, player)
  {
    if move == "E" then Some(true)
    else if '/' in move then Some(IsColour(player))
    else
      var parts := JavaSplit(move, '-');
      if |parts| != 2 then Some(false)
      else if !Parsable(parts[0]) || !Parsable(parts[1]) then None
      else CheckStep(s, FromString(parts[0]), FromString(parts[1]), player)
  }

  /** With both ends on the board the walk never leaves it, and it accepts exactly when the
      cells between are empty and the destination is not friendly. */
  lemma {:induction false} WalkFromOnBoard(g: Grid, f: Pos, t: Pos, player: string, i: nat)
    requires IsGrid(g) && InBounds(f) && InBounds(t) && OnOneAxis(f, t) && 1 <= i <= Distance(f, t)
    ensures WalkFrom(g, f, t, player, i)
      == Some((forall j :: i <= j < Distance(f, t) ==> At(g, Between(f, t, j)) == None)
              && NotFriendly(At(g, t), player))
    decreases Distance(f, t) - i
  {
    if i < Distance(f, t) {
      assert Walk(f, t, i) == Between(f, t, i);
      WalkFromOnBoard(g, f, t, player, i + 1);
    }
  }

  /** From a board cell along one axis, the whole walk answers whether the path is clear and
      the destination not friendly, whenever the destination is on the board. */
  lemma WalkFromMeaning(g: Grid, f: Pos, t: Pos, player: string)
    requires IsGrid(g) && InBounds(f) && OnOneAxis(f, t) && 1 <= Distance(f, t)
    ensures InBounds(t) ==> WalkFrom(g, f, t, player, 1) == Some(PathClear(g, f, t) && NotFriendly(At(g, t), player))
  {
    if InBounds(t) {
      WalkFromOnBoard(g, f, t, player, 1);
    }
  }

  /** isValidMove on the string written for a step is the step check on its two cells. */
  lemma CheckMoveOfStep(s: State, f: Pos, t: Pos, player: string)
    requires Valid(s) && Printable(f) && Printable(t)
    ensures CheckMove(s, Encode(Step(f, t)), player) == CheckStep(s, f, t, player)
  {
    DecodeEncode(Step(f, t));
  }

  /** The pass is always accepted, and any string with a '/' is accepted exactly when the
      player is one of the two colours: whatever the board, the turn or the cells named. */
  lemma PassAndPlacementAccepted(s: State, move: string, player: string)
    requires Valid(s)
    ensures CheckMove(s, "E", player) == Some(true)
    ensures move != "E" && '/' in move ==> (CheckMove(s, move, player) == Some(true) <==> IsColour(player))
    ensures move != "E" && '/' in move ==> CheckMove(s, move, player).Some?
  {
  }

  /** The packaged engine only lets a paladin take a licorne; here the kind of the captured
      piece plays no part: an enemy piece of either kind can be taken. */
  lemma CaptureAnyEnemy(s: State, player: string, f: Pos, t: Pos, victim: Piece)
    requires Valid(s) && InBounds(f) && InBounds(t) && victim.color != player
    ensures var s' := s.(grid := Put(s.grid, t, Some(victim)));
      Valid(s') && ValidStep(s', player, f, t)
      == (At(s'.grid, f).Some? && At(s'.grid, f).value.color == player
          && LisereAllows(s', f) && OnOneAxis(f, t) && Distance(f, t) == Range(s'.types, f)
          && PathClear(s'.grid, f, t))
  {
  }

  // ---------------------------------------------------------------- possiblesMoves

  /** The lisere the generator imposes: that of the cell the last step landed on. */
  function Lisere(s: State): (d: int)
    requires Valid(s) && s.lastDest.Some?
    ensures 1 <= d <= 3
  {
    Range(s.types, s.lastDest.value)
  }

  /** Direction k from f, Lisere(s) cells away: the step when that cell is on the board and
      isValidMove accepts it. */
  function Probe(s: State, player: string, f: Pos, k: int): seq<Move>
    requires Valid(s) && s.lastDest.Some? && InBounds(f) && 0 <= k < DIRECTIONS
  {
    var t := Target(f, k, Lisere(s));
    if InBounds(t) && ValidStep(s, player, f, t) then [Step(f, t)] else []
  }

  /** The moves found from f after trying the first k directions. */
  function Probes(s: State, player: string, f: Pos, k: int): (ms: seq<Move>)
    requires Valid(s) && s.lastDest.Some? && InBounds(f) && 0 <= k <= DIRECTIONS
    ensures |ms| <= k
    ensures forall m :: m in ms ==> m.Step? && m.from == f
  {
    if k == 0 then [] else Probes(s, player, f, k - 1) + Probe(s, player, f, k - 1)
  }

  lemma {:induction false} ProbesSound(s: State, player: string, f: Pos, k: int)
    requires Valid(s) && s.lastDest.Some? && InBounds(f) && 0 <= k <= DIRECTIONS
    ensures forall m :: m in Probes(s, player, f, k) ==>
      m.from == f && InBounds(m.to) && ValidStep(s, player, f, m.to)
  {
    if k > 0 {
      ProbesSound(s, player, f, k - 1);
    }
  }

  /** Whatever direction j yields is kept among the moves of the first k directions. */
  lemma {:induction false} ProbesKeep(s: State, player: string, f: Pos, k: int, j: int)
    requires Valid(s) && s.lastDest.Some? && InBounds(f) && 0 <= j < k <= DIRECTIONS
    ensures forall m :: m in Probe(s, player, f, j) ==> m in Probes(s, player, f, k)
  {
    if j < k - 1 {
      ProbesKeep(s, player, f, k - 1, j);
    }
  }

  /** The moves generated for the cell f: none unless it holds a piece of the player standing
      on a cell whose range is the lisere. */
  function CellMoves(s: State, player: string, f: Pos): (ms: seq<Move>)
    requires Valid(s) && s.lastDest.Some? && InBounds(f)
    ensures |ms| <= DIRECTIONS
    ensures forall m :: m in ms ==> m.Step? && m.from == f
  {
    var x := At(s.grid, f);
    if x.Some? && x.value.color == player && Range(s.types, f) == Lisere(s) then Probes(s, player, f, DIRECTIONS)
    else []
  }

  /** On one cell the generator yields exactly the legal steps leaving it. */
  lemma CellMovesExact(s: State, player: string, f: Pos)
    requires Valid(s) && s.lastDest.Some? && InBounds(f)
    ensures forall m :: m in CellMoves(s, player, f) ==>
      m.Step? && m.from == f && InBounds(m.to) && ValidStep(s, player, f, m.to)
    ensures forall t :: InBounds(t) && ValidStep(s, player, f, t) ==> Step(f, t) in CellMoves(s, player, f)
  {
    ProbesSound(s, player, f, DIRECTIONS);
    forall t | InBounds(t) && ValidStep(s, player, f, t) ensures Step(f, t) in CellMoves(s, player, f) {
      var k := StepDirection(f, t, Lisere(s));
      assert Step(f, t) in Probe(s, player, f, k);
      ProbesKeep(s, player, f, DIRECTIONS, k);
    }
  }

  /** The generator possiblesMoves applies to each cell of the board. */
  function Generator(player: string): (gen: (State, Pos) -> seq<Move>)
    ensures forall s {:trigger PerCell(s, gen)} :: PerCell(s, gen)
  {
    (s, p) => if Valid(s) && s.lastDest.Some? && InBounds(p) then CellMoves(s, player, p) else []
  }

  /** possiblesMoves: nothing while no step has been played, otherwise the legal steps of the
      pieces standing on the lisere, in scan order. There is no pass fallback. */
  function PossibleMoves(s: State, player: string): (ms: seq<Move>)
    requires Valid(s)
    ensures forall m :: m in ms ==> m.Step?
  {
    if s.lastDest.None? then [] else Scanned(s, Generator(player), SIZE, 0)
  }

  /** Soundness and completeness of the generator: once a step has been played, it yields a
      step exactly when that step is legal; before that, it yields nothing at all. */
  lemma PossibleMovesExact(s: State, player: string, f: Pos, t: Pos)
    requires Valid(s) && InBounds(f) && InBounds(t)
    ensures Step(f, t) in PossibleMoves(s, player) <==> s.lastDest.Some? && ValidStep(s, player, f, t)
  {
    if s.lastDest.Some? {
      ScannedSound(s, Generator(player), SIZE, 0);
      CellMovesExact(s, player, f);
      if ValidStep(s, player, f, t) {
        ScannedComplete(s, Generator(player), f, Step(f, t));
      }
    }
  }

  /** Every generated move is a step between two cells of the board, leaves a cell whose
      range is the lisere, and is accepted by isValidMove on its string. */
  lemma GeneratedMovesAreValid(s: State, player: string)
    requires Valid(s)
    ensures s.lastDest.None? ==> PossibleMoves(s, player) == []
    ensures forall m :: m in PossibleMoves(s, player) ==>
      m.Step? && InBounds(m.from) && InBounds(m.to)
      && s.lastDest.Some? && Range(s.types, m.from) == Lisere(s)
      && Encodable(m) && CheckMove(s, Encode(m), player) == Some(true)
  {
    if s.lastDest.Some? {
      var gen := Generator(player);
      ScannedSound(s, gen, SIZE, 0);
      forall m | m in PossibleMoves(s, player)
        ensures InBounds(m.to) && Range(s.types, m.from) == Lisere(s)
          && Encodable(m) && CheckMove(s, Encode(m), player) == Some(true)
      {
        assert m in gen(s, m.from) && InBounds(m.from);
        GeneratedStepValid(s, player, m);
      }
    }
  }

  /** One move of the generator for a cell: a step leaving a cell on the lisere, accepted
      by isValidMove. */
  lemma GeneratedStepValid(s: State, player: string, m: Move)
    requires Valid(s) && s.lastDest.Some? && m.Step? && InBounds(m.from) && m in CellMoves(s, player, m.from)
    ensures InBounds(m.to) && Range(s.types, m.from) == Lisere(s)
    ensures Encodable(m) && CheckMove(s, Encode(m), player) == Some(true)
  {
    CellMovesExact(s, player, m.from);
    CheckMoveOfStep(s, m.from, m.to, player);
  }

  // ---------------------------------------------------------------- play

  /** The state play leaves, and whether it returned normally (false: it threw, after the
      writes recorded in state). */
  datatype Outcome = Outcome(state: State, completed: bool)

  /** The cells the placement loop of play writes: it reads the tokens in order and writes
      each before reading the next, so the first token Position.fromString rejects, or that
      names a cell off the board, stops it with an exception. */
  function PlacedCells(tokens: seq<string>): (cells: seq<Pos>)
    ensures |cells| <= |tokens|
    ensures forall i :: 0 <= i < |cells| ==> InBounds(cells[i]) && DecodeCell(tokens[i]) == Some(cells[i])
    ensures |cells| < |tokens| ==> DecodeCell(tokens[|cells|]).None? || !InBounds(DecodeCell(tokens[|cells|]).value)
  {
    if |tokens| == 0 then []
    else match DecodeCell(tokens[0])
      case Some(p) => if InBounds(p) then [p] + PlacedCells(tokens[1..]) else []
      case None => []
  }

  /** play: no check at all. The pass hands the turn over and clears the lisere; a
      placement writes its pieces and leaves the lisere as it was; a step moves whatever is on
      its first cell to its second, replacing what stood there, and sets the lisere. The turn
      goes to the other colour of `player` when play returns normally. */
  function Apply(s: State, move: string, player: string): (o: Outcome)
    requires Valid(s)
    ensures Valid(o.state) && o.state.types == s.types
    ensures o.completed ==> o.state.currentPlayer == OpponentOf(player)
    ensures !o.completed ==> o.state.currentPlayer == s.currentPlayer && o.state.lastDest == s.lastDest
  {
    if move == "E" then Outcome(s.(currentPlayer := OpponentOf(player), lastDest := None), true)
    else if '/' in move then
      var tokens := JavaSplit(move, '/');
      var cells := PlacedCells(tokens);
      var g := PlaceAll(s.grid, cells, player);
      if |cells| == |tokens| then Outcome(s.(grid := g, currentPlayer := OpponentOf(player)), true)
      else Outcome(s.(grid := g), false)
    else
      var parts := JavaSplit(move, '-');
      if |parts| < 2 || !Parsable(parts[0]) || !Parsable(parts[1]) then Outcome(s, false)
      else
        var f, t := FromString(parts[0]), FromString(parts[1]);
        if !InBounds(f) then Outcome(s, false)
        else if !InBounds(t) then Outcome(s.(grid := Put(s.grid, f, None)), false)
        else Outcome(s.(grid := Put(Put(s.grid, f, None), t, At(s.grid, f)),
                        currentPlayer := OpponentOf(player), lastDest := Some(t)), true)
  }

  /** The pass changes only the two turn fields. */
  lemma PlayPass(s: State, player: string)
    requires Valid(s)
    ensures var o := Apply(s, "E", player);
      o.completed && o.state.grid == s.grid && o.state.lastDest == None
      && o.state.currentPlayer == OpponentOf(player)
  {
  }

  /** Whatever follows the '/', play leaves the lisere alone. */
  lemma PlacementKeepsLisere(s: State, move: string, player: string)
    requires Valid(s) && move != "E" && '/' in move
    ensures Apply(s, move, player).state.lastDest == s.lastDest
  {
  }

  /** Tokens that all read as cells of the board are all written. */
  lemma {:induction false} PlacedCellsAll(tokens: seq<string>, cells: seq<Pos>)
    requires DecodeCells(tokens) == Some(cells) && forall i :: 0 <= i < |cells| ==> InBounds(cells[i])
    ensures PlacedCells(tokens) == cells
    decreases |tokens|
  {
    if |tokens| > 0 {
      var rest := DecodeCells(tokens[1..]);
      assert rest.Some? && cells == [cells[0]] + rest.value;
      assert forall i :: 0 <= i < |rest.value| ==> rest.value[i] == cells[i + 1];
      PlacedCellsAll(tokens[1..], rest.value);
    }
  }

  /** A placement written as a move string is performed as it is, on any board and for any
      player: its pieces go down, the turn changes hands and the lisere stays. */
  lemma PlayPlacement(s: State, cells: seq<Pos>, player: string)
    requires Valid(s) && Encodable(Placement(cells)) && forall i :: 0 <= i < |cells| ==> InBounds(cells[i])
    ensures Apply(s, Encode(Placement(cells)), player)
      == Outcome(s.(grid := PlaceAll(s.grid, cells, player), currentPlayer := OpponentOf(player)), true)
  {
    DecodeEncode(Placement(cells));
    PlacedCellsAll(JavaSplit(Encode(Placement(cells)), '/'), cells);
  }

  /** A step between two cells of the board is performed whether or not it is legal: the
      piece (or the empty cell) on f lands on t, f is emptied, and t becomes the lisere. */
  lemma PlayStep(s: State, f: Pos, t: Pos, player: string)
    requires Valid(s) && InBounds(f) && InBounds(t)
    ensures var o := Apply(s, Encode(Step(f, t)), player);
      o.completed && o.state.lastDest == Some(t) && o.state.currentPlayer == OpponentOf(player)
      && At(o.state.grid, t) == At(s.grid, f)
      && (f != t ==> At(o.state.grid, f) == None)
      && forall p {:trigger At(o.state.grid, p)} :: InBounds(p) && p != f && p != t ==> At(o.state.grid, p) == At(s.grid, p)
  {
    DecodeEncode(Step(f, t));
  }

  /** A step whose destination is off the board empties its first cell before the array
      write to the destination throws: the piece is lost and the turn stays. */
  lemma StepOffBoardLosesPiece(s: State, f: Pos, t: Pos, player: string)
    requires Valid(s) && InBounds(f) && Printable(t) && !InBounds(t)
    ensures var o := Apply(s, Encode(Step(f, t)), player);
      !o.completed && o.state.grid == Put(s.grid, f, None) && o.state.lastDest == s.lastDest
  {
    DecodeEncode(Step(f, t));
  }

  // ---------------------------------------------------------------- the symbol mapping of
  // saveToFile / setFromFile: B/b noir, N/n blanc, upper case a licorne, '-' empty

  /** What saveToFile writes for a cell; a piece of neither colour writes nothing. */
  function SymbolOf(x: Cell): (ch: Option<char>)
    ensures ch == Some('-') <==> x.None?
    ensures ch.Some? <==> Writable(x)
    ensures x.Some? && ch.Some? ==> ((ch.value == 'B' || ch.value == 'b') <==> x.value.color == NOIR)
    ensures x.Some? && ch.Some? ==> ((ch.value == 'B' || ch.value == 'N') <==> x.value.kind == LICORNE)
  {
    match x
    case None => Some('-')
    case Some(p) =>
      if p.color == NOIR then Some(if p.kind == LICORNE then 'B' else 'b')
      else if p.color == BLANC then Some(if p.kind == LICORNE then 'N' else 'n')
      else None
  }

  /** What setFromFile writes into a cell for a character; None for a symbol it does not
      recognise, which leaves the cell as it was. */
  function CellOf(ch: char): (x: Option<Cell>)
    ensures x.Some? && x.value.Some? ==> WellFormed(x.value.value)
  {
    match ch
    case 'b' => Some(Some(Piece(PALADIN, NOIR)))
    case 'B' => Some(Some(Piece(LICORNE, NOIR)))
    case 'n' => Some(Some(Piece(PALADIN, BLANC)))
    case 'N' => Some(Some(Piece(LICORNE, BLANC)))
    case '-' => Some(None)
    case _ => None
  }

  /** The two directions of the mapping are inverse on well-formed cells and on the five
      symbols. */
  lemma SymbolRoundTrip(x: Cell, ch: char)
    ensures (x.None? || WellFormed(x.value)) ==> SymbolOf(x).Some? && CellOf(SymbolOf(x).value) == Some(x)
    ensures CellOf(ch).Some? ==> SymbolOf(CellOf(ch).value) == Some(ch)
  {
  }

  /** A cell that is empty or holds a piece of one of the two colours. */
  predicate Writable(x: Cell) { x.None? || IsColour(x.value.color) }

  /** What saveToFile writes for one cell: its symbol, or nothing. */
  function SymbolText(x: Cell): (text: string)
    ensures |text| <= 1
  {
    match SymbolOf(x)
    case Some(ch) => [ch]
    case None => []
  }

  /** The symbols saveToFile writes for a row, left to right. */
  function RowText(row: seq<Cell>): (line: string)
    ensures |line| <= |row|
    ensures |line| == |row| <==> forall j :: 0 <= j < |row| ==> Writable(row[j])
    ensures (forall j :: 0 <= j < |row| ==> Writable(row[j])) ==>
      forall j :: 0 <= j < |row| ==> SymbolOf(row[j]) == Some(line[j])
  {
    if |row| == 0 then []
    else
      var init := RowText(row[..|row| - 1]);
      var last := row[|row| - 1];
      assert forall j :: 0 <= j < |row| - 1 ==> row[..|row| - 1][j] == row[j];
      init + SymbolText(last)
  }

  /** Writing one more cell appends its text. */
  lemma RowTextNext(row: seq<Cell>, c: int)
    requires 0 <= c < |row|
    ensures RowText(row[..c + 1]) == RowText(row[..c]) + SymbolText(row[c])
  {
    assert row[..c + 1][..c] == row[..c];
  }

  /** The cell setFromFile leaves for one character over the cell x. */
  function Load(x: Cell, ch: char): Cell
  {
    match CellOf(ch)
    case Some(y) => y
    case None => x
  }

  /** setFromFile on the six board characters of one line over a row. */
  function LoadRow(row: seq<Cell>, content: string): (r: seq<Cell>)
    requires |content| == |row|
    ensures |r| == |row|
    ensures forall j :: 0 <= j < |row| && CellOf(content[j]).None? ==> r[j] == row[j]
  {
    seq(|row|, j requires 0 <= j < |row| => Load(row[j], content[j]))
  }

  /** Saving a row of well-formed cells writes one symbol per cell, and loading those
      symbols over any row gives the saved row back. */
  lemma SaveThenLoadRow(row: seq<Cell>, any: seq<Cell>)
    requires |any| == |row| && forall j :: 0 <= j < |row| ==> row[j].None? || WellFormed(row[j].value)
    ensures |RowText(row)| == |row| && LoadRow(any, RowText(row)) == row
  {
    var line := RowText(row);
    forall j | 0 <= j < |row| ensures LoadRow(any, line)[j] == row[j] {
      SymbolRoundTrip(row[j], line[j]);
    }
  }

  /** Loading six recognised symbols and saving the row writes the same symbols back. */
  lemma LoadThenSaveRow(any: seq<Cell>, content: string)
    requires |content| == |any| && forall j :: 0 <= j < |content| ==> CellOf(content[j]).Some?
    ensures RowText(LoadRow(any, content)) == content
  {
    var row := LoadRow(any, content);
    forall j | 0 <= j < |row| ensures Writable(row[j]) && SymbolOf(row[j]) == Some(content[j]) {
      SymbolRoundTrip(None, content[j]);
    }
  }
}
