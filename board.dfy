/** What both rules engines share: the 6x6 grid of optional pieces, the fixed lisere
    (terrain) table, the geometry of a step, the order in which both move generators scan
    the board, the way both write a placement, and the end-of-game test. */
module Board {
  import opened Wrappers
  import opened Position
  import opened Pieces
  import opened MoveText

  const SIZE: int := 6

  /** The lisere table, row by row: the exact distance a piece standing on a cell moves. */
  const BoardTypes: seq<seq<int>> := [
    [1, 2, 2, 3, 1, 2],
    [3, 1, 3, 1, 3, 2],
    [2, 3, 1, 2, 1, 3],
    [2, 1, 3, 2, 3, 1],
    [1, 3, 1, 3, 1, 2],
    [3, 2, 2, 1, 3, 2]
  ]

  predicate InBounds(p: Pos) { 0 <= p.row < SIZE && 0 <= p.col < SIZE }

  /** A lisere table: six rows of six distances, each 1, 2 or 3. */
  predicate IsTable(types: seq<seq<int>>)
  {
    |types| == SIZE
    && forall r :: 0 <= r < SIZE ==> |types[r]| == SIZE && forall c :: 0 <= c < SIZE ==> 1 <= types[r][c] <= 3
  }

  lemma BoardTypesIsTable()
    ensures IsTable(BoardTypes)
  {
  }

  /** The lisere of a cell in a table: the distance a piece standing there moves. */
  function Range(types: seq<seq<int>>, p: Pos): (d: int)
    requires IsTable(types) && InBounds(p)
    ensures 1 <= d <= 3
  {
    types[p.row][p.col]
  }

  /** A cell holds a piece or nothing (Java's null). */
  type Cell = Option<Piece>

  type Grid = seq<seq<Cell>>

  predicate IsGrid(g: Grid) { |g| == SIZE && forall r :: 0 <= r < SIZE ==> |g[r]| == SIZE }

  function At(g: Grid, p: Pos): Cell
    requires IsGrid(g) && InBounds(p)
  {
    g[p.row][p.col]
  }

  /** The grid with one cell overwritten. */
  function Put(g: Grid, p: Pos, x: Cell): (h: Grid)
    requires IsGrid(g) && InBounds(p)
    ensures IsGrid(h) && At(h, p) == x
    ensures forall q {:trigger At(h, q)} :: InBounds(q) && q != p ==> At(h, q) == At(g, q)
    ensures WellFormedGrid(g) && (x.Some? ==> WellFormed(x.value)) ==> WellFormedGrid(h)
  {
    g[p.row := g[p.row][p.col := x]]
  }

  /** Java's `new Piece[6][6]`: every cell null. */
  function EmptyGrid(): (g: Grid)
    ensures IsGrid(g) && forall p {:trigger At(g, p)} :: InBounds(p) ==> At(g, p) == None
  {
    var row: seq<Cell> := [None, None, None, None, None, None];
    [row, row, row, row, row, row]
  }

  /** Grids are equal when they agree on every cell. */
  lemma SameGrid(g: Grid, h: Grid)
    requires IsGrid(g) && IsGrid(h)
    requires forall p :: InBounds(p) ==> At(g, p) == At(h, p)
    ensures g == h
  {
    forall r | 0 <= r < SIZE ensures g[r] == h[r] {
      forall c | 0 <= c < SIZE ensures g[r][c] == h[r][c] {
        assert At(g, Pos(r, c)) == At(h, Pos(r, c));
      }
    }
  }

  /** Every piece on the grid is a licorne or paladin of colour noir or blanc. */
  predicate WellFormedGrid(g: Grid)
    requires IsGrid(g)
  {
    forall r, c :: 0 <= r < SIZE && 0 <= c < SIZE && g[r][c].Some? ==> WellFormed(g[r][c].value)
  }

  /** EscampeBoard.opponentOf (the older engine inlines the same expression). */
  function OpponentOf(player: string): (o: string)
    ensures o == NOIR || o == BLANC
    ensures player == NOIR || player == BLANC ==> o != player
  {
    if player == BLANC then NOIR else BLANC
  }

  function Abs(x: int): nat { if x < 0 then -x else x }

  /** The source rejects a step with both a row and a column difference. */
  predicate OnOneAxis(f: Pos, t: Pos) { f.row == t.row || f.col == t.col }

  function Distance(f: Pos, t: Pos): nat { Abs(t.row - f.row) + Abs(t.col - f.col) }

  /** Integer.signum. */
  function Sign(x: int): int
  {
    if x > 0 then 1 else if x < 0 then -1 else 0
  }

  /** The coordinate i unit steps from a toward b (Integer.signum / Integer.compare of the
      difference gives the unit step). */
  function Toward(a: int, b: int, i: int): int
  {
    if a < b then a + i else if b < a then a - i else a
  }

  /** The cell i steps from f on the way to t. */
  function Between(f: Pos, t: Pos, i: int): (p: Pos)
    requires InBounds(f) && InBounds(t) && OnOneAxis(f, t) && 0 <= i <= Distance(f, t)
    ensures InBounds(p)
    ensures i == 0 ==> p == f
    ensures i == Distance(f, t) ==> p == t
  {
    Pos(Toward(f.row, t.row, i), Toward(f.col, t.col, i))
  }

  /** q lies strictly between f and t, on their common row or column. */
  predicate StrictlyBetween(f: Pos, t: Pos, q: Pos)
  {
    (q.row == f.row == t.row && (f.col < q.col < t.col || t.col < q.col < f.col))
    || (q.col == f.col == t.col && (f.row < q.row < t.row || t.row < q.row < f.row))
  }

  /** The cells the unit steps from f to t pass through are exactly the cells strictly
      between f and t. */
  lemma BetweenCells(f: Pos, t: Pos)
    requires InBounds(f) && InBounds(t) && OnOneAxis(f, t)
    ensures forall i :: 1 <= i < Distance(f, t) ==> StrictlyBetween(f, t, Between(f, t, i))
    ensures forall q :: StrictlyBetween(f, t, q) ==>
      InBounds(q) && 1 <= Distance(f, q) < Distance(f, t) && Between(f, t, Distance(f, q)) == q
  {
  }

  /** All cells strictly between f and t are empty; t itself is not examined. */
  predicate PathClear(g: Grid, f: Pos, t: Pos)
    requires IsGrid(g) && InBounds(f) && InBounds(t) && OnOneAxis(f, t)
    ensures PathClear(g, f, t) <==>
      forall q {:trigger StrictlyBetween(f, t, q)} :: InBounds(q) && StrictlyBetween(f, t, q) ==> At(g, q) == None
  {
    BetweenCells(f, t);
    forall i :: 1 <= i < Distance(f, t) ==> At(g, Between(f, t, i)) == None
  }

  predicate HasLicorne(g: Grid, color: string)
    requires IsGrid(g)
  {
    exists r, c :: 0 <= r < SIZE && 0 <= c < SIZE && g[r][c] == Some(Piece(LICORNE, color))
  }

  /** A colour has a licorne exactly when some cell of the board holds it. */
  lemma HasLicorneAt(g: Grid, color: string)
    requires IsGrid(g)
    ensures HasLicorne(g, color) <==> exists p :: InBounds(p) && At(g, p) == Some(Piece(LICORNE, color))
  {
    if HasLicorne(g, color) {
      var r, c :| 0 <= r < SIZE && 0 <= c < SIZE && g[r][c] == Some(Piece(LICORNE, color));
      assert At(g, Pos(r, c)) == g[r][c];
    }
  }

  /** A licorne of that colour stands on a cell visited before (r, c) in row-major order. */
  predicate LicorneBefore(g: Grid, color: string, r: int, c: int)
    requires IsGrid(g)
  {
    exists r', c' :: 0 <= r' < SIZE && 0 <= c' < SIZE && (r' < r || (r' == r && c' < c))
      && g[r'][c'] == Some(Piece(LICORNE, color))
  }

  /** Scanning one more cell adds that cell to the search. */
  lemma LicorneBeforeNext(g: Grid, color: string, r: int, c: int)
    requires IsGrid(g) && 0 <= r < SIZE && 0 <= c < SIZE
    ensures LicorneBefore(g, color, r, c + 1)
      <==> LicorneBefore(g, color, r, c) || g[r][c] == Some(Piece(LICORNE, color))
  {
  }

  /** Finishing a row is starting the next one, and finishing the last row has seen every
      cell. */
  lemma LicorneBeforeRow(g: Grid, color: string, r: int)
    requires IsGrid(g) && 0 <= r < SIZE
    ensures LicorneBefore(g, color, r, SIZE) == LicorneBefore(g, color, r + 1, 0)
    ensures r + 1 == SIZE ==> (LicorneBefore(g, color, r + 1, 0) <==> HasLicorne(g, color))
  {
  }

  /** gameOver (identical in both engines): the game is over unless both colours still have
      a licorne on the board. */
  predicate GameOver(g: Grid)
    requires IsGrid(g)
    ensures GameOver(g) <==>
      !(exists p :: InBounds(p) && At(g, p) == Some(Piece(LICORNE, NOIR)))
      || !(exists p :: InBounds(p) && At(g, p) == Some(Piece(LICORNE, BLANC)))
  {
    HasLicorneAt(g, NOIR);
    HasLicorneAt(g, BLANC);
    !(HasLicorne(g, NOIR) && HasLicorne(g, BLANC))
  }

  /** One of the two sides of the game. */
  predicate IsColour(player: string) { player == NOIR || player == BLANC }

  // ---------------------------------------------------------------- the scan both move
  // generators make: rows top to bottom, cells left to right, four directions per cell

  /** The four directions a piece can move in. */
  const DIRECTIONS: int := 4

  /** The cell d away from f in direction k of {1,0}, {-1,0}, {0,1}, {0,-1}. */
  function Target(f: Pos, k: int, d: int): (t: Pos)
    requires 0 <= k < DIRECTIONS
    ensures OnOneAxis(f, t) && Distance(f, t) == Abs(d)
  {
    if k == 0 then Pos(f.row + d, f.col)
    else if k == 1 then Pos(f.row - d, f.col)
    else if k == 2 then Pos(f.row, f.col + d)
    else Pos(f.row, f.col - d)
  }

  /** Every step on one axis whose length is d >= 1 goes in one of the four directions. */
  lemma StepDirection(f: Pos, t: Pos, d: int) returns (k: int)
    requires OnOneAxis(f, t) && Distance(f, t) == d && d >= 1
    ensures 0 <= k < DIRECTIONS && Target(f, k, d) == t
  {
    if f.row == t.row {
      k := if t.col > f.col then 2 else 3;
    } else {
      k := if t.row > f.row then 0 else 1;
    }
  }

  /** A per-cell generator on board b: what it yields for a cell p are steps leaving p. */
  ghost predicate PerCell<B>(b: B, gen: (B, Pos) -> seq<Move>)
  {
    forall p :: forall m :: m in gen(b, p) ==> m.Step? && m.from == p
  }

  /** The moves generated on board b before the scan reaches cell (r, c): rows top to
      bottom, cells left to right, so (r, SIZE) and (r + 1, 0) are the same point of the
      scan. The board is part of the measure so that a scan of an unknown board is only
      unfolded on demand, even from the constant bounds of a full scan. */
  function Scanned<B>(b: B, gen: (B, Pos) -> seq<Move>, r: int, c: int): (ms: seq<Move>)
    requires PerCell(b, gen) && 0 <= r <= SIZE && 0 <= c <= SIZE && (r == SIZE ==> c == 0)
    ensures forall m :: m in ms ==> m.Step? && InBounds(m.from)
    decreases r, c, b
  {
    if c == 0 then (if r == 0 then [] else Scanned(b, gen, r - 1, SIZE))
    else Scanned(b, gen, r, c - 1) + gen(b, Pos(r, c - 1))
  }

  /** Every move of the scan so far is one of the moves generated for the cell it leaves. */
  lemma {:induction false} ScannedSound<B>(b: B, gen: (B, Pos) -> seq<Move>, r: int, c: int)
    requires PerCell(b, gen) && 0 <= r <= SIZE && 0 <= c <= SIZE && (r == SIZE ==> c == 0)
    ensures forall m :: m in Scanned(b, gen, r, c) ==> m in gen(b, m.from)
    decreases r, c
  {
    if c == 0 {
      if r > 0 {
        ScannedSound(b, gen, r - 1, SIZE);
      }
    } else {
      ScannedSound(b, gen, r, c - 1);
    }
  }

  /** Within row r, the moves of a visited cell are in the scan so far. */
  lemma {:induction false} ScannedRowComplete<B>(b: B, gen: (B, Pos) -> seq<Move>, r: int, c: int, f: Pos, m: Move)
    requires PerCell(b, gen) && 0 <= r < SIZE && c <= SIZE
    requires f.row == r && 0 <= f.col < c && m in gen(b, f)
    ensures m in Scanned(b, gen, r, c)
    decreases c
  {
    var before := Scanned(b, gen, r, c - 1);
    assert Scanned(b, gen, r, c) == before + gen(b, Pos(r, c - 1));
    if f.col == c - 1 {
      var i :| 0 <= i < |gen(b, f)| && gen(b, f)[i] == m;
      assert (before + gen(b, f))[|before| + i] == m;
    } else {
      ScannedRowComplete(b, gen, r, c - 1, f, m);
    }
  }

  /** The scan only grows: a move collected by (r, c) is in the finished scan. */
  lemma {:induction false} ScannedKeeps<B>(b: B, gen: (B, Pos) -> seq<Move>, r: int, c: int, m: Move)
    requires PerCell(b, gen) && 0 <= r <= SIZE && 0 <= c <= SIZE && (r == SIZE ==> c == 0)
    requires m in Scanned(b, gen, r, c)
    ensures m in Scanned(b, gen, SIZE, 0)
    decreases SIZE - r, SIZE - c
  {
    if r < SIZE && c == SIZE {
      assert Scanned(b, gen, r + 1, 0) == Scanned(b, gen, r, SIZE);
      ScannedKeeps(b, gen, r + 1, 0, m);
    } else if r < SIZE {
      var before := Scanned(b, gen, r, c);
      assert Scanned(b, gen, r, c + 1) == before + gen(b, Pos(r, c));
      var i :| 0 <= i < |before| && before[i] == m;
      assert (before + gen(b, Pos(r, c)))[i] == m;
      ScannedKeeps(b, gen, r, c + 1, m);
    }
  }

  /** Every move generated for a cell of the board is in the finished scan. */
  lemma ScannedComplete<B>(b: B, gen: (B, Pos) -> seq<Move>, f: Pos, m: Move)
    requires PerCell(b, gen) && InBounds(f) && m in gen(b, f)
    ensures m in Scanned(b, gen, SIZE, 0)
  {
    ScannedRowComplete(b, gen, f.row, f.col + 1, f, m);
    ScannedKeeps(b, gen, f.row, f.col + 1, m);
  }

  /** The scan collects at most DIRECTIONS moves per visited cell. */
  lemma {:induction false} ScannedLength<B>(b: B, gen: (B, Pos) -> seq<Move>, r: int, c: int)
    requires PerCell(b, gen) && 0 <= r <= SIZE && 0 <= c <= SIZE && (r == SIZE ==> c == 0)
    requires forall p :: |gen(b, p)| <= DIRECTIONS
    ensures |Scanned(b, gen, r, c)| <= SIZE * DIRECTIONS * r + DIRECTIONS * c
    decreases r, c
  {
    if c == 0 {
      if r > 0 {
        ScannedLength(b, gen, r - 1, SIZE);
      }
    } else {
      ScannedLength(b, gen, r, c - 1);
    }
  }

  // ---------------------------------------------------------------- placements

  /** The piece placed from the i-th cell of an opening: the first is the licorne. */
  function PieceFor(i: int, player: string): Piece
  {
    if i == 0 then Piece(LICORNE, player) else Piece(PALADIN, player)
  }

  /** Writes the placement's pieces in order, so a repeated cell keeps its last piece. */
  function PlaceAll(g: Grid, cells: seq<Pos>, player: string): (h: Grid)
    requires IsGrid(g) && forall i :: 0 <= i < |cells| ==> InBounds(cells[i])
    ensures IsGrid(h)
    ensures WellFormedGrid(g) && IsColour(player) ==> WellFormedGrid(h)
  {
    if |cells| == 0 then g
    else Put(PlaceAll(g, cells[..|cells| - 1], player), cells[|cells| - 1], Some(PieceFor(|cells| - 1, player)))
  }

  /** A cell outside the placement keeps its content; a cell named for the last time at
      index i holds the i-th piece. */
  lemma {:induction false} PlaceAllEffect(g: Grid, cells: seq<Pos>, player: string)
    requires IsGrid(g) && forall i :: 0 <= i < |cells| ==> InBounds(cells[i])
    ensures forall p {:trigger At(PlaceAll(g, cells, player), p)} ::
      InBounds(p) && p !in cells ==> At(PlaceAll(g, cells, player), p) == At(g, p)
    ensures forall i :: 0 <= i < |cells| && (forall j :: i < j < |cells| ==> cells[j] != cells[i]) ==>
      At(PlaceAll(g, cells, player), cells[i]) == Some(PieceFor(i, player))
  {
    if |cells| > 0 {
      var n := |cells| - 1;
      PlaceAllEffect(g, cells[..n], player);
      assert forall i :: 0 <= i < n ==> cells[..n][i] == cells[i];
      forall p | InBounds(p) && p !in cells ensures p !in cells[..n] {
      }
    }
  }
}
