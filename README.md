# Escampe: rules engines and minimax agent

Escampe is a two-player game on a 6x6 board. Every cell carries a *lisere*, a line
count of 1, 2 or 3. Each side, noir and blanc, places one licorne and five paladins
and then moves them. A piece moves in a straight line, rows or columns only. It moves
exactly as many cells as the lisere of the cell it starts on, and it may not jump over
a piece. After a step, the opponent may only move a piece standing on a cell with the
same lisere as the cell that step ended on. When a side has no such move, it passes
("E"). The game is over when one of the two licornes is gone.

The repository holds two rules engines and an agent. This project models them in Dafny:

- **The packaged engine** (`escampe/EscampeBoard.java`).
  - Module `EscampeRules` holds its rules as functions over a value `State`: the legality
    predicate, the move generator, the transition, and the symbol mapping of its board
    files.
  - Class `Escampe.EscampeBoard` keeps the source's 6x6 array and its two turn fields,
    updated in place. Every method of the class is proved equal to the corresponding
    function, read through the ghost view `Model()`.
  - Steps: a piece may land on an occupied cell only when a paladin captures an enemy
    licorne. The pass is legal exactly when it is the only generated move. A placement
    needs the turn, six cells and empty cells. `play` refuses any move `isValidMove`
    rejects.
- **The older engine of the default package** (`src/EscampeBoard.java`).
  - Module `LegacyRules` holds its rules; class `Legacy.EscampeBoard` is the in-place
    class.
  - It accepts "E" and any placement outright. A step may land on any piece that is not
    the mover's own. Its generator is empty until a first step sets the lisere. `play`
    validates nothing.
  - Where this engine raises an exception, the model says so in the result:
    - `Position.fromString` cannot read a token, or an array index is off the board:
      `isValidMove` gives `None`;
    - `play` gives an `Outcome` whose `completed` flag is false, with the state after the
      writes made before the throw.
  - The two engines use opposite letters for the colours in their board files. The
    packaged engine writes `N`/`n` for noir and `B`/`b` for blanc; the older one writes
    `B`/`b` for noir and `N`/`n` for blanc.
- **The agent** (`escampe/JoueurIA.java`).
  - Module `Search` defines the agent's search as functions: the heuristic, the internal
    terminal test, the game tree of depth `MAX_DEPTH`, plain minimax, fail-soft alpha-beta
    and the root's choice. Scores are the source's doubles times ten, so they are
    integers. The infinities become sentinels that no evaluation reaches.
  - Class `Agent.JoueurIA` plays on its own engine. After each candidate it restores the
    board from a snapshot; the snapshot is a save and reload, and the reload also resets
    the turn fields. Its methods are proved equal to the `Search` functions.
  - Proved properties:
    - alpha-beta with the full window computes minimax;
    - the move played is the first move whose reply has the greatest minimax value, or
      the forced pass.
- **Shared parts.**
  - `Position` (`escampe/Position.java`): cell tokens such as "C3", with round trips
    between a token and a cell.
  - `Pieces` (`src/Piece.java`): the piece record and its two-character `toString`.
  - `MoveText`: the move grammar both engines parse: "E", a placement "C6/A6/...", a step
    "C1-C3".
  - `Board`: the grid, the lisere table, the step geometry, the scan order of both move
    generators, the writing of a placement, and `gameOver`.
  - `Wrappers`: `Option`, for Java's nullable references.

## Model

| member | source | states |
|---|---|---|
| Position.FromString | RHOURRIVENGADABADY/src/escampe/Position.java:13-17 | a token whose tail is a digit string reads as a row of at least -1, with no range check on row or column |
| Position.ToString | RHOURRIVENGADABADY/src/escampe/Position.java:19-21 | the column letter followed by the decimal row + 1; the result is always a token fromString can read |
| Position.CellName | RHOURRIVENGADABADY/src/escampe/Position.java:23-25 | the static toString(row, col) is the toString of Position(row, col): letter 'A' + col, then digits whose value is row + 1 |
| Position.Equals | RHOURRIVENGADABADY/src/escampe/Position.java:27-31 | equals holds exactly when row and column both agree |
| Position.EqualsIsEquivalence | RHOURRIVENGADABADY/src/escampe/Position.java:27-31 | equals is reflexive, symmetric and transitive |
| Position.DecimalThenValue | RHOURRIVENGADABADY/src/escampe/Position.java:15-20 | parsing the decimal text of a natural number gives the number back |
| Position.ValueThenDecimal | RHOURRIVENGADABADY/src/escampe/Position.java:15-20 | printing the value of a digit string without leading zero gives the string back |
| Position.DecimalIsCanonical | RHOURRIVENGADABADY/src/escampe/Position.java:20 | the decimal text of a number has no leading zero, and two digits or more from 10 on |
| Position.LeadingDigitPositive | RHOURRIVENGADABADY/src/escampe/Position.java:15 | a digit string with a non-zero first digit is worth at least 1, and at least 10 when it has two digits or more |
| Position.FromStringOfToString | RHOURRIVENGADABADY/src/escampe/Position.java:13-21 | fromString(toString(p)) == p for every position with a letter column and row >= -1 |
| Position.ToStringOfFromString | RHOURRIVENGADABADY/src/escampe/Position.java:13-21 | toString(fromString(s)) == s for every capital letter followed by a number >= 1 written without leading zero |
| Position.BoardCellToken | RHOURRIVENGADABADY/src/escampe/Position.java:19-21 | a board cell prints as two characters, a letter A..F and a digit 1..6 |
| Position.ExampleC3 | RHOURRIVENGADABADY/src/escampe/TestAll.java:26-28 | "C3" is row 2, column 2, and that cell prints as "C3" |
| Pieces.ToString | RHOURRIVENGADABADY/src/Piece.java:10-12 | two characters for a non-empty colour: the colour's first letter, then 'L' exactly for a licorne and 'P' otherwise |
| Pieces.ToStringExamples | RHOURRIVENGADABADY/src/Piece.java:10-12 | a black licorne prints "nL" and a white paladin "bP" |
| MoveText.DropTrailingEmpty | RHOURRIVENGADABADY/src/escampe/EscampeBoard.java:120 | String.split keeps a prefix of the raw pieces that does not end in an empty piece |
| MoveText.JavaSplit | RHOURRIVENGADABADY/src/escampe/EscampeBoard.java:120 | String.split: a string without the separator comes back whole; no piece holds the separator; the last piece is not empty |
| MoveText.DecodeCells | RHOURRIVENGADABADY/src/escampe/EscampeBoard.java:110-115 | a placement whose tokens all decode gives one cell per token |
| MoveText.Decode | RHOURRIVENGADABADY/src/escampe/EscampeBoard.java:100-123 | "E" and only "E" reads as the pass; a placement has a '/' and one cell per piece; a step or malformed string has no '/'; a step has a '-' |
| MoveText.CellNames | RHOURRIVENGADABADY/src/escampe/EscampeBoard.java:179 | the token list of a move has one token per cell, each that cell's Position.toString |
| MoveText.RawSplitJoin | RHOURRIVENGADABADY/src/escampe/EscampeBoard.java:120 | splitting tokens joined with a separator none of them contains gives the tokens back |
| MoveText.DecodeCellNames | RHOURRIVENGADABADY/src/escampe/EscampeBoard.java:110-115 | decoding the names of cells gives the cells back |
| MoveText.TokenHasNoSeparator | RHOURRIVENGADABADY/src/escampe/Position.java:19-21 | a cell name is non-empty and contains neither '/' nor '-' |
| MoveText.DecodeEncode | RHOURRIVENGADABADY/src/escampe/EscampeBoard.java:119-123 | every move string the engines and the agent write reads back as the same move |
| MoveText.OpeningNoirText | RHOURRIVENGADABADY/src/escampe/JoueurIA.java:39 | black's opening placement (licorne C6, paladins A6 B5 D5 E6 F5) prints as "C6/A6/B5/D5/E6/F5" |
| MoveText.OpeningBlancText | RHOURRIVENGADABADY/src/escampe/JoueurIA.java:45 | white's opening placement (licorne C1, paladins A3 C2 C5 F1 F4) prints as "C1/A3/C2/C5/F1/F4" |
| MoveText.EncodeSix | RHOURRIVENGADABADY/src/escampe/JoueurIA.java:39-45 | a placement of six board cells prints as their six names separated by '/' |
| Board.BoardTypesIsTable | RHOURRIVENGADABADY/src/escampe/EscampeBoard.java:13-20 | the lisere table has six rows of six entries, each 1, 2 or 3 |
| Board.Range | RHOURRIVENGADABADY/src/escampe/EscampeBoard.java:138 | the distance a piece must travel from a board cell is 1, 2 or 3 |
| Board.Put | RHOURRIVENGADABADY/src/escampe/EscampeBoard.java:223-224 | writing a cell changes that cell and no other |
| Board.EmptyGrid | RHOURRIVENGADABADY/src/escampe/EscampeBoard.java:22 | a new board has every cell empty |
| Board.OpponentOf | RHOURRIVENGADABADY/src/escampe/EscampeBoard.java:245-247 | the opponent is always noir or blanc, and differs from the player when the player is one of the two |
| Board.Between | RHOURRIVENGADABADY/src/escampe/EscampeBoard.java:142-147 | the cells a straight step walks through stay on the board, starting at the origin and ending at the destination |
| Board.BetweenCells | RHOURRIVENGADABADY/src/escampe/EscampeBoard.java:142-147 | the cells the path loop visits before the destination are exactly the cells strictly between origin and destination, all on the board |
| Board.PathClear | RHOURRIVENGADABADY/src/escampe/EscampeBoard.java:141-147 | the path is clear exactly when every cell strictly between origin and destination is empty; the destination itself is not examined |
| Board.LicorneBeforeNext | RHOURRIVENGADABADY/src/escampe/EscampeBoard.java:232-241 | one more cell of the gameOver scan raises a colour's flag exactly when that cell holds its licorne |
| Board.LicorneBeforeRow | RHOURRIVENGADABADY/src/escampe/EscampeBoard.java:232-242 | the end of a row continues on the next one, and after the last row the flag says whether the colour still has a licorne |
| Board.HasLicorneAt | RHOURRIVENGADABADY/src/escampe/EscampeBoard.java:232-241 | a colour has a licorne exactly when some board cell holds it |
| Board.GameOver | RHOURRIVENGADABADY/src/escampe/EscampeBoard.java:231-243 | gameOver holds exactly when no board cell holds the noir licorne or no board cell holds the blanc licorne |
| Board.Target | RHOURRIVENGADABADY/src/escampe/EscampeBoard.java:176-177 | the cell d away in one of the four directions lies on one axis with the origin at distance d |
| Board.StepDirection | RHOURRIVENGADABADY/src/escampe/EscampeBoard.java:176-177 | every cell on one axis at distance d >= 1 is reached by one of the four directions |
| Board.Scanned | RHOURRIVENGADABADY/src/escampe/EscampeBoard.java:167-183 | the scan over the rows and cells yields only steps that start on the board |
| Board.ScannedSound | RHOURRIVENGADABADY/src/escampe/EscampeBoard.java:167-183 | each move in the scan comes from the moves generated for its own origin |
| Board.ScannedComplete | RHOURRIVENGADABADY/src/escampe/EscampeBoard.java:167-183 | every move generated for any board cell appears in the whole scan |
| Board.ScannedLength | RHOURRIVENGADABADY/src/escampe/EscampeBoard.java:167-183 | with at most four moves per cell, the scan holds at most four moves per cell scanned |
| Board.PlaceAll | RHOURRIVENGADABADY/src/escampe/EscampeBoard.java:206-211 | writing a placement keeps every piece on the board a licorne or paladin of noir or blanc |
| Board.PlaceAllEffect | RHOURRIVENGADABADY/src/escampe/EscampeBoard.java:206-211 | cells outside the placement keep their content; each cell named (last time) at index 0 holds the player's licorne, at a later index a paladin |
| EscampeRules.Initial | RHOURRIVENGADABADY/src/escampe/EscampeBoard.java:13-24 | a new engine has an empty board, blanc to move, no last destination and the fixed lisere table |
| EscampeRules.Reset | RHOURRIVENGADABADY/src/escampe/EscampeBoard.java:63-65 | a reload keeps the grid and the lisere table, sets the turn to blanc, clears the last destination, and keeps the state valid |
| EscampeRules.ValidStep | RHOURRIVENGADABADY/src/escampe/EscampeBoard.java:119-159 | an accepted step moves one of the player's pieces one to three cells along one axis and lands on an empty cell or on an enemy licorne taken by a paladin |
| EscampeRules.Probes | RHOURRIVENGADABADY/src/escampe/EscampeBoard.java:176-181 | the directions tried so far from one cell give at most one step each, all from that cell |
| EscampeRules.ProbesSound | RHOURRIVENGADABADY/src/escampe/EscampeBoard.java:176-181 | every step kept for a cell is legal for the player |
| EscampeRules.ProbesKeep | RHOURRIVENGADABADY/src/escampe/EscampeBoard.java:176-181 | a step found in one direction is still among the steps after later directions |
| EscampeRules.CellMoves | RHOURRIVENGADABADY/src/escampe/EscampeBoard.java:169-181 | at most four steps per cell, all starting from it |
| EscampeRules.CellMovesExact | RHOURRIVENGADABADY/src/escampe/EscampeBoard.java:169-181 | the steps generated for a cell are legal, and every valid step from it is generated |
| EscampeRules.StepMoves | RHOURRIVENGADABADY/src/escampe/EscampeBoard.java:164-183 | the collected moves are all steps |
| EscampeRules.PossibleMoves | RHOURRIVENGADABADY/src/escampe/EscampeBoard.java:163-190 | the generator never returns an empty list, and a list holding the pass is exactly ["E"] |
| EscampeRules.GeneratedMovesAreLegal | RHOURRIVENGADABADY/src/escampe/EscampeBoard.java:180 | every generated move is the pass or a legal step |
| EscampeRules.ValidMove | RHOURRIVENGADABADY/src/escampe/EscampeBoard.java:100-105 | isValidMove accepts the pass exactly when the player has no legal step |
| EscampeRules.PassIffStuck | RHOURRIVENGADABADY/src/escampe/EscampeBoard.java:163-190 | the generator answers the lone pass exactly when no step of the side is legal |
| EscampeRules.StepGeneratedIffValid | RHOURRIVENGADABADY/src/escampe/EscampeBoard.java:163-190 | a step is generated exactly when isValidMove accepts it |
| EscampeRules.PassMeansNoStep | RHOURRIVENGADABADY/src/escampe/EscampeBoard.java:186-188 | when the generator answers ["E"], no step is valid |
| EscampeRules.NoPassMeansStep | RHOURRIVENGADABADY/src/escampe/EscampeBoard.java:186-189 | otherwise some step is valid, and the first generated move is one |
| EscampeRules.GeneratedMovesAreValid | RHOURRIVENGADABADY/src/escampe/TestAll.java:61-65 | isValidMove accepts every move possiblesMoves returns |
| EscampeRules.GeneratedMove | RHOURRIVENGADABADY/src/escampe/EscampeBoard.java:163-190 | the i-th generated move is valid, and is a step unless it is the lone pass |
| EscampeRules.PossibleMovesBound | RHOURRIVENGADABADY/src/escampe/EscampeBoard.java:163-190 | at most 144 moves (four per cell) are generated |
| EscampeRules.Apply | RHOURRIVENGADABADY/src/escampe/EscampeBoard.java:193-228 | a valid move hands the turn to the opponent. A pass keeps the board and clears the last destination. A placement clears it. A step empties the origin, carries the piece to the destination, sets the last destination to it and changes no other cell |
| EscampeRules.PlacementEffect | RHOURRIVENGADABADY/src/escampe/EscampeBoard.java:205-216 | a valid placement of distinct cells puts the licorne on the first cell, paladins on the others, and changes no other cell |
| EscampeRules.StepAfterReset | RHOURRIVENGADABADY/src/escampe/EscampeBoard.java:64-65 | resetting the turn fields keeps a valid step valid and leads to the same state |
| EscampeRules.StepKeepsGameOver | RHOURRIVENGADABADY/src/escampe/EscampeBoard.java:231-243 | once a licorne is gone, no valid step brings one back |
| EscampeRules.CaptureOfLastLicorneEndsGame | RHOURRIVENGADABADY/src/escampe/EscampeBoard.java:150-157 | a valid capture of a piece that has no twin on the board (a side's only licorne) ends the game |
| EscampeRules.CellOf | RHOURRIVENGADABADY/src/escampe/EscampeBoard.java:52-58 | each board symbol reads as no piece or as a well-formed piece |
| EscampeRules.SymbolOf | RHOURRIVENGADABADY/src/escampe/EscampeBoard.java:78-89 | saveToFile writes one of N n B b -: '-' exactly for an empty cell, N or n exactly for a noir piece, upper case exactly for a licorne |
| EscampeRules.SymbolRoundTrip | RHOURRIVENGADABADY/src/escampe/EscampeBoard.java:52-88 | the symbols saveToFile writes and setFromFile reads are mutually inverse: N/n noir, B/b blanc, '-' empty |
| EscampeRules.RowText | RHOURRIVENGADABADY/src/escampe/EscampeBoard.java:78-90 | a saved row has one symbol per cell, in order |
| EscampeRules.SaveRows | RHOURRIVENGADABADY/src/escampe/EscampeBoard.java:76-92 | a saved board has six rows, each the text of its row |
| EscampeRules.RowCells | RHOURRIVENGADABADY/src/escampe/EscampeBoard.java:49-60 | a row of six symbols reads as six cells, each the reading of its symbol |
| EscampeRules.FirstBad | RHOURRIVENGADABADY/src/escampe/EscampeBoard.java:43-48 | the first line the loader rejects: every earlier line is readable, and that line is not |
| EscampeRules.LoadRows | RHOURRIVENGADABADY/src/escampe/EscampeBoard.java:43-61 | loading the first n lines replaces exactly those rows of the board |
| EscampeRules.SaveThenLoad | RHOURRIVENGADABADY/src/escampe/EscampeBoard.java:27-97 | reloading a saved board accepts every line and gives the board back exactly |
| EscampeRules.LoadThenSave | RHOURRIVENGADABADY/src/escampe/EscampeBoard.java:27-97 | saving a loaded board writes the lines that were read |
| Escampe.EscampeBoard.constructor | RHOURRIVENGADABADY/src/escampe/EscampeBoard.java:13-24 | a new engine is in the initial state |
| Escampe.EscampeBoard.IsValidMove | RHOURRIVENGADABADY/src/escampe/EscampeBoard.java:100-160 | answers exactly the rules' verdict on the move and leaves the engine unchanged |
| Escampe.EscampeBoard.IsValidPlacement | RHOURRIVENGADABADY/src/escampe/EscampeBoard.java:108-117 | accepts a placement exactly when it is the player's turn, it has six cells and all are empty |
| Escampe.EscampeBoard.IsValidStep | RHOURRIVENGADABADY/src/escampe/EscampeBoard.java:119-159 | accepts a step exactly when it is valid: own piece, lisere, one axis, exact distance, clear path, capture rule |
| Escampe.EscampeBoard.IsPathClear | RHOURRIVENGADABADY/src/escampe/EscampeBoard.java:142-147 | the loop finds no piece strictly between origin and destination exactly when the path is clear |
| Escampe.EscampeBoard.PossiblesMoves | RHOURRIVENGADABADY/src/escampe/EscampeBoard.java:163-190 | returns the generator's list |
| Escampe.EscampeBoard.ScanRow | RHOURRIVENGADABADY/src/escampe/EscampeBoard.java:168-182 | one row of the nested loop appends the moves of that row's cells, left to right |
| Escampe.EscampeBoard.MovesFrom | RHOURRIVENGADABADY/src/escampe/EscampeBoard.java:169-181 | the moves collected for one cell are that cell's generated moves |
| Escampe.EscampeBoard.ProbeAll | RHOURRIVENGADABADY/src/escampe/EscampeBoard.java:175-181 | the direction loop collects the four probes in order |
| Escampe.EscampeBoard.TryDirection | RHOURRIVENGADABADY/src/escampe/EscampeBoard.java:177-180 | one direction adds its step exactly when it stays on the board and isValidMove accepts it |
| Escampe.EscampeBoard.Play | RHOURRIVENGADABADY/src/escampe/EscampeBoard.java:193-228 | a move isValidMove accepts is applied; any other is refused (the source throws) and nothing changes |
| Escampe.EscampeBoard.PlayText | RHOURRIVENGADABADY/src/escampe/EscampeBoard.java:193-228 | the same on a move string: it is played exactly when it reads as a valid move |
| Escampe.EscampeBoard.Perform | RHOURRIVENGADABADY/src/escampe/EscampeBoard.java:197-227 | the updates play makes after validation give the state the rules prescribe |
| Escampe.EscampeBoard.PerformPass | RHOURRIVENGADABADY/src/escampe/EscampeBoard.java:198-202 | a pass keeps the board, clears the last destination and flips the turn |
| Escampe.EscampeBoard.PerformPlacement | RHOURRIVENGADABADY/src/escampe/EscampeBoard.java:205-216 | a placement writes its cells, clears the last destination and flips the turn |
| Escampe.EscampeBoard.PerformStep | RHOURRIVENGADABADY/src/escampe/EscampeBoard.java:219-227 | a step empties the origin, writes the piece at the destination, records it as last destination and flips the turn |
| Escampe.EscampeBoard.PlacePieces | RHOURRIVENGADABADY/src/escampe/EscampeBoard.java:206-211 | the placement loop writes the placement cell by cell |
| Escampe.EscampeBoard.GameOver | RHOURRIVENGADABADY/src/escampe/EscampeBoard.java:231-243 | true exactly when noir or blanc has no licorne left |
| Escampe.EscampeBoard.SaveToRows | RHOURRIVENGADABADY/src/escampe/EscampeBoard.java:73-97 | the six lines written are the saved text of the board |
| Escampe.EscampeBoard.SaveRow | RHOURRIVENGADABADY/src/escampe/EscampeBoard.java:78-90 | the line written for a row is that row's symbols |
| Escampe.EscampeBoard.DecodeRow | RHOURRIVENGADABADY/src/escampe/EscampeBoard.java:50-60 | reading one line replaces that row with the cells its symbols stand for |
| Escampe.EscampeBoard.SetFromRows | RHOURRIVENGADABADY/src/escampe/EscampeBoard.java:27-70 | without six lines nothing changes. Otherwise the rows before the first bad line are loaded, and only a fully read board resets the turn to blanc and clears the last destination |
| Escampe.EscampeBoard.LoadGrid | RHOURRIVENGADABADY/src/escampe/EscampeBoard.java:43-61 | the line loop stops at the first bad line, having loaded the rows before it |
| Search.RowCount | RHOURRIVENGADABADY/src/escampe/JoueurIA.java:171-178 | a row counts at most one piece per cell |
| Search.GridCount | RHOURRIVENGADABADY/src/escampe/JoueurIA.java:152-160 | the first r rows count at most six pieces each |
| Search.RowCountZero | RHOURRIVENGADABADY/src/escampe/JoueurIA.java:152-161 | a row counts nothing exactly when none of its cells is counted |
| Search.GridCountZero | RHOURRIVENGADABADY/src/escampe/JoueurIA.java:152-161 | the board counts nothing exactly when none of its cells is counted |
| Search.Evaluate | RHOURRIVENGADABADY/src/escampe/JoueurIA.java:167-181 | the heuristic (mobility times ten plus material) stays within EVAL_BOUND, hence strictly between the two infinities |
| Search.IsTerminal | RHOURRIVENGADABADY/src/escampe/JoueurIA.java:143-162 | terminal exactly when both sides have no legal step, or no board cell holds a piece of the player, or none holds a piece of another colour |
| Search.BestMonotone | RHOURRIVENGADABADY/src/escampe/JoueurIA.java:127-133 | the running best only rises for the maximiser and only falls for the minimiser |
| Search.MinimaxBounded | RHOURRIVENGADABADY/src/escampe/JoueurIA.java:99-138 | the minimax value of a tree of bounded evaluations stays within the same bound |
| Search.BestBounded | RHOURRIVENGADABADY/src/escampe/JoueurIA.java:127-133 | the best over at least one child stays within the bound |
| Search.AlphaBeta | RHOURRIVENGADABADY/src/escampe/JoueurIA.java:99-138 | for any window within the infinities, minimaxValue is the minimax value when it falls inside the window, an upper bound of it at or below alpha, and a lower bound of it at or above beta |
| Search.AlphaBetaFrom | RHOURRIVENGADABADY/src/escampe/JoueurIA.java:118-137 | the child loop never gives up its running best, and it carries the fail-soft relation from the children seen so far to the best over all children |
| Search.FullWindowIsMinimax | RHOURRIVENGADABADY/src/escampe/JoueurIA.java:77-80 | called with -infinity and +infinity, minimaxValue returns the minimax value |
| Search.ChildState | RHOURRIVENGADABADY/src/escampe/JoueurIA.java:119-125 | the state after the i-th generated move of the side to move is again a valid state |
| Search.GameTreeLeaf | RHOURRIVENGADABADY/src/escampe/JoueurIA.java:106-108 | at depth 0 or in a terminal position the search returns the evaluation |
| Search.GameTreeShape | RHOURRIVENGADABADY/src/escampe/JoueurIA.java:110-119 | above a non-terminal position the tree has one child per generated move |
| Search.GameTreeNode | RHOURRIVENGADABADY/src/escampe/JoueurIA.java:119-125 | the i-th child is the tree after the i-th move, one ply shallower, the other side to move |
| Search.GameTreeChildren | RHOURRIVENGADABADY/src/escampe/JoueurIA.java:119-125 | the same for every child at once |
| Search.GameTreeWellFormed | RHOURRIVENGADABADY/src/escampe/JoueurIA.java:99-138 | the game's trees have bounded leaves and no childless inner node |
| Search.GameTreeFullWindow | RHOURRIVENGADABADY/src/escampe/JoueurIA.java:77-80 | on the game's trees the full window gives minimax, strictly between the infinities |
| Search.RootScoreIsMinimax | RHOURRIVENGADABADY/src/escampe/JoueurIA.java:75-80 | each root score is the minimax value of the opponent's reply, above -infinity |
| Search.RootScoreBounded | RHOURRIVENGADABADY/src/escampe/JoueurIA.java:68-80 | every root score beats the -infinity the root starts from |
| Search.RootReplies | RHOURRIVENGADABADY/src/escampe/JoueurIA.java:75-80 | one reply tree per root move |
| Search.RootRepliesAt | RHOURRIVENGADABADY/src/escampe/JoueurIA.java:75-80 | the i-th reply tree is the tree after the i-th root move |
| Search.RootScores | RHOURRIVENGADABADY/src/escampe/JoueurIA.java:75-87 | one score per root move |
| Search.RootScoresAt | RHOURRIVENGADABADY/src/escampe/JoueurIA.java:75-87 | the root's scores are the full-window values of the replies |
| Search.RootScoresAreReplyValues | RHOURRIVENGADABADY/src/escampe/JoueurIA.java:75-87 | the root's scores are the replies' minimax values |
| Search.FirstMax | RHOURRIVENGADABADY/src/escampe/JoueurIA.java:83-86 | the index kept after n scores is one of the first n |
| Search.FirstMaxIsFirstMaximum | RHOURRIVENGADABADY/src/escampe/JoueurIA.java:83-86 | the kept index has the greatest score, and every earlier score is strictly smaller |
| Search.ChoiceIndex | RHOURRIVENGADABADY/src/escampe/JoueurIA.java:59-94 | the root chooses an index of a generated move |
| Search.Choice | RHOURRIVENGADABADY/src/escampe/JoueurIA.java:59-94 | the chosen move is a generated move that play accepts; it is the pass exactly when the pass is the only move |
| Search.ChoiceIsPass | RHOURRIVENGADABADY/src/escampe/JoueurIA.java:63-66 | when "E" is the only move, it is the choice |
| Search.ChoiceIsBest | RHOURRIVENGADABADY/src/escampe/JoueurIA.java:75-87 | otherwise the choice is the first move whose reply has the greatest minimax value |
| Agent.NameOf | RHOURRIVENGADABADY/src/escampe/JoueurIA.java:34 | the agent's colour as the engine's name, noir or blanc |
| Agent.OtherOf | RHOURRIVENGADABADY/src/escampe/JoueurIA.java:61 | the other colour's name, the engine's opponentOf of the agent's |
| Agent.NextInt | RHOURRIVENGADABADY/src/escampe/JoueurIA.java:69 | the random index lies in range |
| Agent.JoueurIA.constructor | RHOURRIVENGADABADY/src/escampe/JoueurIA.java:20-25 | initJoueur: a fresh engine in its initial state and both opening flags raised |
| Agent.JoueurIA.ChooseMove | RHOURRIVENGADABADY/src/escampe/JoueurIA.java:33-54 | the first call per colour plays that colour's opening and clears its flag. Later calls play the move minimax(MAX_DEPTH) chooses; the engine always accepts it |
| Agent.JoueurIA.Minimax | RHOURRIVENGADABADY/src/escampe/JoueurIA.java:59-94 | returns the root's choice; the board is back to the start, turn fields reset unless it passed at once |
| Agent.JoueurIA.RootSearch | RHOURRIVENGADABADY/src/escampe/JoueurIA.java:68-93 | with more than the pass, returns the chosen step and leaves the board reloaded |
| Agent.JoueurIA.RootLoop | RHOURRIVENGADABADY/src/escampe/JoueurIA.java:68-87 | the loop over the root moves ends on the first index with the greatest score, whatever the random start, with the board reloaded |
| Agent.JoueurIA.RootStep | RHOURRIVENGADABADY/src/escampe/JoueurIA.java:76-86 | one root move: play, search, reload; the held move becomes the first maximum of one more score, so it moves only on a strictly greater score |
| Agent.JoueurIA.MinimaxValue | RHOURRIVENGADABADY/src/escampe/JoueurIA.java:99-138 | returns alpha-beta on the game tree of the state it starts from, leaving the board as found or reloaded |
| Agent.JoueurIA.SearchNode | RHOURRIVENGADABADY/src/escampe/JoueurIA.java:115-137 | the child loop returns the alpha-beta value over the children |
| Agent.JoueurIA.SearchStep | RHOURRIVENGADABADY/src/escampe/JoueurIA.java:119-134 | one child: best, alpha and beta updated as alpha-beta prescribes, and a stop on a cut-off |
| Agent.JoueurIA.ExploreChild | RHOURRIVENGADABADY/src/escampe/JoueurIA.java:120-125 | play a child, search it and reload: the value of that child's tree, board restored |
| Agent.JoueurIA.IsTerminal | RHOURRIVENGADABADY/src/escampe/JoueurIA.java:143-162 | both sides reduced to the pass, or one of the two counts at zero |
| Agent.JoueurIA.EvaluateBoard | RHOURRIVENGADABADY/src/escampe/JoueurIA.java:167-181 | the heuristic of the current state |
| Agent.JoueurIA.CountPieces | RHOURRIVENGADABADY/src/escampe/JoueurIA.java:170-178 | the counting loop: pieces of the player's colour, and all others |
| Agent.JoueurIA.NotifyOpponentMove | RHOURRIVENGADABADY/src/escampe/JoueurIA.java:184-187 | "E" and "PASSE" become the pass; the move is played for the opponent exactly when the engine accepts it |
| LegacyRules.Initial | RHOURRIVENGADABADY/src/EscampeBoard.java:6-17 | a new engine has an empty board, blanc to move, no last destination and the fixed lisere table |
| LegacyRules.WalkFromOnBoard | RHOURRIVENGADABADY/src/EscampeBoard.java:98-110 | on the board, the path loop and the destination test accept exactly when the cells between are empty and the destination holds no friendly piece |
| LegacyRules.WalkFrom | RHOURRIVENGADABADY/src/EscampeBoard.java:98-112 | the walk accepts only when the destination is on the board and holds no piece of the player |
| LegacyRules.WalkFromMeaning | RHOURRIVENGADABADY/src/EscampeBoard.java:98-112 | from a board cell to a board cell on one axis, the walk never throws and accepts exactly when the path is clear and the destination holds no piece of the player |
| LegacyRules.CheckStep | RHOURRIVENGADABADY/src/EscampeBoard.java:79-112 | with both cells on the board the step check never throws and returns the step's validity; it accepts exactly the valid steps between board cells |
| LegacyRules.CheckMove | RHOURRIVENGADABADY/src/EscampeBoard.java:71-113 | a string without '/' whose tokens do not read throws; one that reads as malformed is refused; a step string gets the step check on its two cells |
| LegacyRules.CheckMoveOfStep | RHOURRIVENGADABADY/src/EscampeBoard.java:76-80 | isValidMove on the text of a step is the step check on its two cells |
| LegacyRules.PassAndPlacementAccepted | RHOURRIVENGADABADY/src/EscampeBoard.java:72-74 | "E" is always valid; a string with '/' never throws and is valid exactly for noir or blanc |
| LegacyRules.CaptureAnyEnemy | RHOURRIVENGADABADY/src/EscampeBoard.java:109-112 | a step onto any piece of another colour is valid exactly when the rest of the rules allow it, whatever the kinds of the pieces |
| LegacyRules.Lisere | RHOURRIVENGADABADY/src/EscampeBoard.java:120 | the required lisere is 1, 2 or 3 |
| LegacyRules.Probes | RHOURRIVENGADABADY/src/EscampeBoard.java:127-137 | the directions tried so far give at most one step each, all from that cell |
| LegacyRules.ProbesSound | RHOURRIVENGADABADY/src/EscampeBoard.java:127-137 | every kept step ends on the board and is valid |
| LegacyRules.ProbesKeep | RHOURRIVENGADABADY/src/EscampeBoard.java:127-137 | a step found in one direction is still kept after later directions |
| LegacyRules.CellMoves | RHOURRIVENGADABADY/src/EscampeBoard.java:124-138 | at most four steps per cell, all starting from it |
| LegacyRules.CellMovesExact | RHOURRIVENGADABADY/src/EscampeBoard.java:124-138 | the steps generated for a cell are valid, and every valid step from it is generated |
| LegacyRules.Generator | RHOURRIVENGADABADY/src/EscampeBoard.java:122-140 | the per-cell generator only produces steps from its own cell |
| LegacyRules.PossibleMoves | RHOURRIVENGADABADY/src/EscampeBoard.java:116-143 | the generator returns steps only, never the pass |
| LegacyRules.PossibleMovesExact | RHOURRIVENGADABADY/src/EscampeBoard.java:116-143 | a step is generated exactly when a last destination is set and the step is valid |
| LegacyRules.GeneratedMovesAreValid | RHOURRIVENGADABADY/src/EscampeBoard.java:116-143 | nothing is generated before the first step; every generated move starts on a cell with the required lisere, and isValidMove accepts its text |
| LegacyRules.GeneratedStepValid | RHOURRIVENGADABADY/src/EscampeBoard.java:125-135 | a step generated for a cell is in bounds, has the required lisere, and isValidMove accepts its text |
| LegacyRules.PlacedCells | RHOURRIVENGADABADY/src/EscampeBoard.java:154-161 | play writes the tokens up to the first one it cannot read or that is off the board |
| LegacyRules.Apply | RHOURRIVENGADABADY/src/EscampeBoard.java:146-175 | play keeps the state valid and the table fixed. A completed play hands the turn to the opponent; an interrupted one leaves both turn fields as they were |
| LegacyRules.PlayPass | RHOURRIVENGADABADY/src/EscampeBoard.java:147-151 | "E" keeps the board, clears the last destination and flips the turn |
| LegacyRules.PlacementKeepsLisere | RHOURRIVENGADABADY/src/EscampeBoard.java:153-174 | a placement leaves the last destination as it was |
| LegacyRules.PlacedCellsAll | RHOURRIVENGADABADY/src/EscampeBoard.java:154-161 | when every token reads as a board cell, all of them are written |
| LegacyRules.PlayPlacement | RHOURRIVENGADABADY/src/EscampeBoard.java:153-174 | a placement of board cells writes the licorne then paladins, flips the turn and completes |
| LegacyRules.PlayStep | RHOURRIVENGADABADY/src/EscampeBoard.java:162-174 | a step between board cells is played without any check: the piece moves, no other cell changes, the destination becomes the last one and the turn flips |
| LegacyRules.StepOffBoardLosesPiece | RHOURRIVENGADABADY/src/EscampeBoard.java:167-169 | a step to a cell off the board empties the origin and then throws, leaving the turn fields unchanged |
| LegacyRules.CellOf | RHOURRIVENGADABADY/src/EscampeBoard.java:31-38 | each known symbol reads as no piece or as a well-formed piece |
| LegacyRules.SymbolOf | RHOURRIVENGADABADY/src/EscampeBoard.java:55-60 | '-' exactly for an empty cell; a symbol at all exactly for an empty cell or a noir or blanc piece; B or b exactly for noir, upper case exactly for a licorne |
| LegacyRules.SymbolRoundTrip | RHOURRIVENGADABADY/src/EscampeBoard.java:31-60 | the symbols written and read are mutually inverse: B/b noir, N/n blanc, '-' empty |
| LegacyRules.SymbolText | RHOURRIVENGADABADY/src/EscampeBoard.java:55-60 | one symbol per cell at most: a piece of neither colour writes nothing |
| LegacyRules.RowText | RHOURRIVENGADABADY/src/EscampeBoard.java:54-61 | a saved row has one symbol per cell exactly when every piece is noir or blanc, and then each is that cell's symbol |
| LegacyRules.LoadRow | RHOURRIVENGADABADY/src/EscampeBoard.java:29-39 | loading a line keeps the row's length, and a character that is not a known symbol leaves its cell unchanged |
| LegacyRules.SaveThenLoadRow | RHOURRIVENGADABADY/src/EscampeBoard.java:28-60 | loading a saved row gives it back exactly |
| LegacyRules.LoadThenSaveRow | RHOURRIVENGADABADY/src/EscampeBoard.java:28-60 | saving a row loaded from known symbols writes the line that was read |
| Legacy.EscampeBoard.constructor | RHOURRIVENGADABADY/src/EscampeBoard.java:6-17 | a new engine is in the initial state |
| Legacy.EscampeBoard.IsValidMove | RHOURRIVENGADABADY/src/EscampeBoard.java:71-113 | answers the rules' check on the move string, None where the source throws |
| Legacy.EscampeBoard.IsValidStep | RHOURRIVENGADABADY/src/EscampeBoard.java:82-112 | the step check from the own-piece test on |
| Legacy.EscampeBoard.WalkPath | RHOURRIVENGADABADY/src/EscampeBoard.java:98-112 | the path loop and destination test, None where the walk leaves the board |
| Legacy.EscampeBoard.PossiblesMoves | RHOURRIVENGADABADY/src/EscampeBoard.java:116-143 | returns the generator's list |
| Legacy.EscampeBoard.ScanRow | RHOURRIVENGADABADY/src/EscampeBoard.java:123-139 | one row of the nested loop appends the moves of that row's cells |
| Legacy.EscampeBoard.MovesFrom | RHOURRIVENGADABADY/src/EscampeBoard.java:124-138 | the moves collected for one cell are that cell's generated moves |
| Legacy.EscampeBoard.ProbeAll | RHOURRIVENGADABADY/src/EscampeBoard.java:127-137 | the direction loop collects the four probes in order |
| Legacy.EscampeBoard.TryDirection | RHOURRIVENGADABADY/src/EscampeBoard.java:128-135 | one direction adds its step exactly when it stays on the board and isValidMove accepts it |
| Legacy.EscampeBoard.Play | RHOURRIVENGADABADY/src/EscampeBoard.java:146-175 | the new state is the rules' outcome, including the writes made before an exception; completed tells whether play returned normally |
| Legacy.EscampeBoard.PlacePieces | RHOURRIVENGADABADY/src/EscampeBoard.java:155-161 | the placement loop writes the readable prefix of the tokens and reports how many |
| Legacy.EscampeBoard.GameOver | RHOURRIVENGADABADY/src/EscampeBoard.java:178-190 | true exactly when noir or blanc has no licorne left |
| Legacy.EscampeBoard.SaveRow | RHOURRIVENGADABADY/src/EscampeBoard.java:54-61 | the line written for a row is that row's saved text |
| Legacy.EscampeBoard.LoadLine | RHOURRIVENGADABADY/src/EscampeBoard.java:29-39 | reading one line's six characters updates that row as the symbol switch says and no other row |

## Left out

- File I/O in setFromFile and saveToFile is not modelled:
  - readers and writers, and the temporary files the agent creates and deletes;
  - the "% ABCDEF" header and footer, the row numbers, and the skipping of blank and
    comment lines;
  - the regular expression that frames each row.

  The model starts from the six board lines and keeps the per-character symbol mapping and
  the reset of the turn fields. The packaged engine models the regular expression only by
  its six-symbol content (`RowOk`).
- The older engine's setFromFile row loop over a whole file (skipping lines, the
  substring 3..9) is not modelled; only the loading of one six-character line
  (`Legacy.EscampeBoard.LoadLine`) is. Its error messages on System.err are output only.
- Both engines' `main` methods and the test programs TestAll.java and TestIO.java are not
  modelled; they drive I/O.
- The default-package `Position` class and the `Partie1` and `IJoueur` interfaces are not
  part of this model. The default-package `Position` is taken to behave as
  `escampe/Position.java`, and the packaged `escampe.Piece` as `src/Piece.java`.
- Position.FromString: any first character is read as the column, as in the source ("11"
  is column -16, row 0). The tail must be ASCII digits. The optional '+' or '-' sign and
  the non-ASCII decimal digits that Integer.parseInt also accepts are not modelled, nor int
  overflow on long numbers: such tokens are treated as unreadable, so `PlayText` refuses
  moves with them that the source would play.
- Escampe.EscampeBoard.IsValidMove, Escampe.EscampeBoard.Play and
  Escampe.EscampeBoard.PossiblesMoves: these work on decoded `Move` values, not strings.
  `Escampe.EscampeBoard.PlayText` covers the string form for play. On a string that does
  not decode, or names a cell off the board, play throws and is refused there. The
  source's isValidMove on such a string may return false before reaching the bad token
  (an occupied first placement cell, an empty origin); the model does not cover
  isValidMove on strings.
- Agent.JoueurIA.ChooseMove: returns the chosen `Move`, not its string.
  `MoveText.OpeningNoirText`, `MoveText.OpeningBlancText` and `MoveText.DecodeEncode`
  relate the move to the text the source returns.
- Agent.JoueurIA.Minimax: requires depth >= 1. The source only calls it with
  MAX_DEPTH = 4.
- The catch branch of minimax (JoueurIA.java:89-91) is not modelled: temp-file failures
  are I/O.
- The `moves.length == 0` branch of minimaxValue (JoueurIA.java:111-113) is not modelled:
  the packaged generator never returns an empty list.
- `java.util.Random` becomes `Agent.NextInt`, an arbitrary index in range. The initial
  random pick is proved never to survive the root loop.
- Doubles are scores times ten, as integers, and the infinities are the sentinels
  ±1_000_000, which the heuristic is proved never to reach. The source's score is the
  mobility plus 0.1 times the material. Within one search the material of two leaves
  differs by at most MAX_DEPTH = 4, as each ply captures at most one piece, so by less
  than 10. Two scores that are equal times ten then have the same mobility and material,
  hence the same double; two that differ times ten differ by at least 0.1 as doubles. So
  every comparison of the source comes out as on the integers.
- `IJoueur`'s int colours are the two-valued `Agent.Colour`. getNumJoueur,
  declareLeVainqueur and binoName are not modelled; they only return or print values.
- Concurrency and aliasing of the agent's engine with other objects are not modelled:
  the agent owns its engine.
