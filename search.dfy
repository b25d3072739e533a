/** The search of the agent (escampe/JoueurIA.java) as functions over rule states: the board
    heuristic, the internal terminal test, plain minimax, the fail-soft alpha-beta the agent
    runs, and its choice at the root. Scores are the source's doubles times ten, which makes
    them integers (0.1 per piece becomes 1); the infinities the source starts from become the
    sentinels PLUS_INF and MINUS_INF, which no evaluation reaches. */
module Search {
  import opened Wrappers
  import opened Position
  import opened Pieces
  import opened Board
  import opened MoveText
  import opened EscampeRules

  const MAX_DEPTH: int := 4
  const PLUS_INF: int := 1_000_000
  const MINUS_INF: int := -1_000_000

  /** No evaluation is further from zero: 144 moves of mobility, 36 pieces of material. */
  const EVAL_BOUND: int := 10 * SIZE * SIZE * DIRECTIONS + SIZE * SIZE

  function Max(a: int, b: int): int { if a >= b then a else b }

  function Min(a: int, b: int): int { if a <= b then a else b }

  // ---------------------------------------------------------------- counting pieces

  /** The counting loops of isTerminal and evaluateBoard add a piece to the player's count
      when its colour is the player's, and to the other count otherwise. */
  predicate Counted(x: Cell, player: string, mine: bool)
  {
    x.Some? && (x.value.color == player) == mine
  }

  /** The count over a row, left to right. */
  function RowCount(row: seq<Cell>, player: string, mine: bool): (n: nat)
    ensures n <= |row|
  {
    if |row| == 0 then 0
    else RowCount(row[..|row| - 1], player, mine) + (if Counted(row[|row| - 1], player, mine) then 1 else 0)
  }

  /** The count over the first r rows. */
  function GridCount(g: Grid, player: string, mine: bool, r: int): (n: nat)
    requires IsGrid(g) && 0 <= r <= SIZE
    ensures n <= SIZE * r
  {
    if r == 0 then 0 else GridCount(g, player, mine, r - 1) + RowCount(g[r - 1], player, mine)
  }

  /** A row counts nothing exactly when none of its cells is counted. */
  lemma {:induction false} RowCountZero(row: seq<Cell>, player: string, mine: bool)
    ensures RowCount(row, player, mine) == 0 <==> forall j :: 0 <= j < |row| ==> !Counted(row[j], player, mine)
  {
    if |row| > 0 {
      var init := row[..|row| - 1];
      RowCountZero(init, player, mine);
      assert forall j :: 0 <= j < |init| ==> init[j] == row[j];
    }
  }

  /** The first r rows count nothing exactly when none of their cells is counted. */
  lemma {:induction false} GridCountZero(g: Grid, player: string, mine: bool, r: int)
    requires IsGrid(g) && 0 <= r <= SIZE
    ensures GridCount(g, player, mine, r) == 0 <==>
      forall p {:trigger At(g, p)} :: InBounds(p) && p.row < r ==> !Counted(At(g, p), player, mine)
  {
    if r > 0 {
      GridCountZero(g, player, mine, r - 1);
      RowCountZero(g[r - 1], player, mine);
      if GridCount(g, player, mine, r) != 0 && GridCount(g, player, mine, r - 1) == 0 {
        var j :| 0 <= j < SIZE && Counted(g[r - 1][j], player, mine);
        assert At(g, Pos(r - 1, j)) == g[r - 1][j];
      }
    }
  }

  // ---------------------------------------------------------------- heuristic and terminal test

  /** evaluateBoard, times ten: mobility (the difference in the number of generated moves)
      plus one point per piece of material. It stays within EVAL_BOUND, hence strictly
      between the two sentinels. */
  function Evaluate(s: State, me: string, opp: string): (r: int)
    requires Valid(s)
    ensures -EVAL_BOUND <= r <= EVAL_BOUND
    ensures MINUS_INF < r < PLUS_INF
  {
    PossibleMovesBound(s, me);
    PossibleMovesBound(s, opp);
    10 * (|PossibleMoves(s, me)| - |PossibleMoves(s, opp)|)
    + (GridCount(s.grid, me, true, SIZE) - GridCount(s.grid, me, false, SIZE))
  }

  /** isTerminal: both sides reduced to the pass, or one of the two counts at zero. In terms
      of the rules: neither side has a legal step, or the player has no piece on the board,
      or no other piece is left. */
  predicate IsTerminal(s: State, player: string, opp: string)
    requires Valid(s)
    ensures IsTerminal(s, player, opp) <==>
      (Stuck(s, player) && Stuck(s, opp))
      || (forall p {:trigger At(s.grid, p)} :: InBounds(p) ==> !Counted(At(s.grid, p), player, true))
      || (forall p {:trigger At(s.grid, p)} :: InBounds(p) ==> !Counted(At(s.grid, p), player, false))
  {
    GridCountZero(s.grid, player, true, SIZE);
    GridCountZero(s.grid, player, false, SIZE);
    PassIffStuck(s, player);
    PassIffStuck(s, opp);
    (PossibleMoves(s, player) == [Pass] && PossibleMoves(s, opp) == [Pass])
    || GridCount(s.grid, player, true, SIZE) == 0
    || GridCount(s.grid, player, false, SIZE) == 0
  }

  // ---------------------------------------------------------------- game trees

  /** The tree minimaxValue explores: a leaf holds the evaluation of a state, a node the
      subtrees of the states after each generated move, in generation order. */
  datatype Tree = Leaf(value: int) | Node(children: seq<Tree>)

  /** The trees the game produces: every node has a child (a side always has a move, the pass
      if nothing else) and every leaf lies within the evaluation bound. */
  ghost predicate WellFormed(t: Tree)
  {
    match t
    case Leaf(v) => -EVAL_BOUND <= v <= EVAL_BOUND
    case Node(cs) => |cs| >= 1 && forall i :: 0 <= i < |cs| ==> WellFormed(cs[i])
  }

  /** The initial best of a node: -infinity for the maximiser, +infinity for the minimiser. */
  function Worst(isMax: bool): int
  {
    if isMax then MINUS_INF else PLUS_INF
  }

  /** Plain minimax. */
  function Minimax(t: Tree, isMax: bool): int
    decreases t, 1
  {
    match t
    case Leaf(v) => v
    case Node(cs) => Best(cs, isMax, |cs|)
  }

  /** The best minimax value among the first n children, from the node's initial best. */
  function Best(cs: seq<Tree>, isMax: bool, n: int): int
    requires 0 <= n <= |cs|
    decreases cs, 0, n
  {
    if n == 0 then Worst(isMax)
    else if isMax then Max(Best(cs, isMax, n - 1), Minimax(cs[n - 1], !isMax))
    else Min(Best(cs, isMax, n - 1), Minimax(cs[n - 1], !isMax))
  }

  /** Looking at more children only raises the maximiser's best and lowers the minimiser's. */
  lemma {:induction false} BestMonotone(cs: seq<Tree>, isMax: bool, i: int, n: int)
    requires 0 <= i <= n <= |cs|
    ensures isMax ==> Best(cs, isMax, i) <= Best(cs, isMax, n)
    ensures !isMax ==> Best(cs, isMax, i) >= Best(cs, isMax, n)
    decreases n - i
  {
    if i < n {
      BestMonotone(cs, isMax, i, n - 1);
    }
  }

  /** On the game's trees, minimax values are evaluations of reachable states, hence within
      the evaluation bound and strictly between the two sentinels. */
  lemma {:induction false} MinimaxBounded(t: Tree, isMax: bool)
    requires WellFormed(t)
    ensures -EVAL_BOUND <= Minimax(t, isMax) <= EVAL_BOUND
    decreases t, 1
  {
    if t.Node? {
      BestBounded(t.children, isMax, |t.children|);
    }
  }

  lemma {:induction false} BestBounded(cs: seq<Tree>, isMax: bool, n: int)
    requires 1 <= n <= |cs| && forall i :: 0 <= i < |cs| ==> WellFormed(cs[i])
    ensures -EVAL_BOUND <= Best(cs, isMax, n) <= EVAL_BOUND
    decreases cs, 0, n
  {
    MinimaxBounded(cs[n - 1], !isMax);
    if n > 1 {
      BestBounded(cs, isMax, n - 1);
    }
  }

  // ---------------------------------------------------------------- alpha-beta

  /** The fail-soft relation between an alpha-beta result v and the true value m for the
      window (alpha, beta): exact inside the window, and on the right side of the true
      value outside it. */
  predicate FailSoft(v: int, m: int, alpha: int, beta: int)
  {
    (v <= alpha ==> m <= v) && (v >= beta ==> m >= v) && (alpha < v < beta ==> v == m)
  }

  /** minimaxValue: a leaf is its evaluation; at a node the children are searched in order
      with the window (alpha, beta). For any window with alpha < beta the value is the
      minimax value when it falls inside the window, an upper bound of it when it is at
      most alpha, and a lower bound when it is at least beta (fail-soft alpha-beta). */
  function AlphaBeta(t: Tree, isMax: bool, alpha: int, beta: int): (r: int)
    ensures MINUS_INF <= alpha < beta <= PLUS_INF ==> FailSoft(r, Minimax(t, isMax), alpha, beta)
    decreases t, 1
  {
    match t
    case Leaf(v) => v
    case Node(cs) => AlphaBetaFrom(cs, isMax, 0, Worst(isMax), alpha, beta)
  }

  /** The loop of minimaxValue from child i on, with the running best and window: the
      maximiser raises best and alpha, the minimiser lowers best and beta, and the loop stops
      as soon as beta <= alpha. The loop never gives up its running best, and when the
      running best is outside the window on the side of the mover's initial best and bounds
      the children seen so far as the fail-soft relation says, the loop's result relates to
      the best minimax value of all the children in the same way. */
  function AlphaBetaFrom(cs: seq<Tree>, isMax: bool, i: int, best: int, alpha: int, beta: int): (r: int)
    requires 0 <= i <= |cs|
    ensures isMax ==> best <= r
    ensures !isMax ==> r <= best
    ensures MINUS_INF <= alpha < beta <= PLUS_INF && (if isMax then best <= alpha else beta <= best)
            && FailSoft(best, Best(cs, isMax, i), alpha, beta)
            ==> FailSoft(r, Best(cs, isMax, |cs|), alpha, beta)
    decreases cs, 0, |cs| - i
  {
    if i == |cs| then best
    else
      var v := AlphaBeta(cs[i], !isMax, alpha, beta);
      var best', alpha', beta' :=
        if isMax then Max(best, v) else Min(best, v),
        if isMax then Max(alpha, v) else alpha,
        if isMax then beta else Min(beta, v);
      BestMonotone(cs, isMax, i + 1, |cs|);
      if beta' <= alpha' then best'
      else AlphaBetaFrom(cs, isMax, i + 1, best', alpha', beta')
  }

  /** One turn of the loop of minimaxValue: with v the value of child i, the loop either
      stops with the updated best or goes on with the updated best and window. */
  lemma AlphaBetaFromNext(cs: seq<Tree>, isMax: bool, i: int, best: int, alpha: int, beta: int, v: int,
                          best': int, alpha': int, beta': int)
    requires 0 <= i < |cs| && v == AlphaBeta(cs[i], !isMax, alpha, beta)
    requires best' == (if isMax then Max(best, v) else Min(best, v))
    requires alpha' == (if isMax then Max(alpha, v) else alpha)
    requires beta' == (if isMax then beta else Min(beta, v))
    ensures beta' <= alpha' ==> AlphaBetaFrom(cs, isMax, i, best, alpha, beta) == best'
    ensures beta' > alpha' ==> AlphaBetaFrom(cs, isMax, i, best, alpha, beta) == AlphaBetaFrom(cs, isMax, i + 1, best', alpha', beta')
  {
  }

  /** The loop of minimaxValue ends with its best once every child has been seen. */
  lemma AlphaBetaFromDone(cs: seq<Tree>, isMax: bool, best: int, alpha: int, beta: int)
    ensures AlphaBetaFrom(cs, isMax, |cs|, best, alpha, beta) == best
  {
  }

  /** On the game's trees, the source's initial window (-infinity, +infinity) makes
      minimaxValue exactly minimax. */
  lemma FullWindowIsMinimax(t: Tree, isMax: bool)
    requires WellFormed(t)
    ensures AlphaBeta(t, isMax, MINUS_INF, PLUS_INF) == Minimax(t, isMax)
  {
    MinimaxBounded(t, isMax);
  }

  // ---------------------------------------------------------------- the game's trees

  /** The tree of a game given by the number of moves in a position (for the maximiser or
      the minimiser), the position after the i-th of them, its leaf test and its evaluation,
      unfolded depth plies deep from s. */
  function Unfold<S>(arity: (S, bool) -> nat, child: (S, bool, int) -> S, leaf: S -> bool, eval: S -> int,
                     s: S, depth: nat, isMax: bool): Tree
    decreases depth, 1, 0
  {
    if depth == 0 || leaf(s) then Leaf(eval(s))
    else Node(Subtrees(arity, child, leaf, eval, s, depth, isMax, arity(s, isMax)))
  }

  /** The subtrees of the first n moves of an inner position. */
  function Subtrees<S>(arity: (S, bool) -> nat, child: (S, bool, int) -> S, leaf: S -> bool, eval: S -> int,
                       s: S, depth: nat, isMax: bool, n: nat): (ts: seq<Tree>)
    requires depth > 0
    ensures |ts| == n
    decreases depth, 0, n
  {
    if n == 0 then []
    else Subtrees(arity, child, leaf, eval, s, depth, isMax, n - 1) + [Unfold(arity, child, leaf, eval, child(s, isMax, n - 1), depth - 1, !isMax)]
  }

  /** The i-th subtree is the unfolding of the position after the i-th move. */
  lemma {:induction false} SubtreesAt<S>(arity: (S, bool) -> nat, child: (S, bool, int) -> S, leaf: S -> bool, eval: S -> int,
                                         s: S, depth: nat, isMax: bool, n: nat, i: int)
    requires depth > 0 && 0 <= i < n
    ensures Subtrees(arity, child, leaf, eval, s, depth, isMax, n)[i]
      == Unfold(arity, child, leaf, eval, child(s, isMax, i), depth - 1, !isMax)
  {
    if i < n - 1 {
      SubtreesAt(arity, child, leaf, eval, s, depth, isMax, n - 1, i);
    }
  }

  /** The same with the depth of the subtrees given by name. */
  lemma SubtreeAt<S>(arity: (S, bool) -> nat, child: (S, bool, int) -> S, leaf: S -> bool, eval: S -> int,
                     s: S, depth: nat, sub: nat, isMax: bool, n: nat, i: int)
    requires depth == sub + 1 && 0 <= i < n
    ensures Subtrees(arity, child, leaf, eval, s, depth, isMax, n)[i]
      == Unfold(arity, child, leaf, eval, child(s, isMax, i), sub, !isMax)
  {
    SubtreesAt(arity, child, leaf, eval, s, depth, isMax, n, i);
  }

  /** An inner position unfolds to a node with one subtree per move. */
  lemma UnfoldShape<S>(arity: (S, bool) -> nat, child: (S, bool, int) -> S, leaf: S -> bool, eval: S -> int,
                       s: S, depth: nat, isMax: bool)
    requires depth > 0 && !leaf(s)
    ensures var t := Unfold(arity, child, leaf, eval, s, depth, isMax);
      t.Node? && |t.children| == arity(s, isMax)
  {
  }

  /** One level of the unfolding: the i-th subtree of an inner position is the unfolding of
      the position after its i-th move. */
  lemma UnfoldNode<S>(arity: (S, bool) -> nat, child: (S, bool, int) -> S, leaf: S -> bool, eval: S -> int,
                      s: S, depth: nat, sub: nat, isMax: bool, i: int)
    requires depth == sub + 1 && !leaf(s) && 0 <= i < arity(s, isMax)
    ensures var t := Unfold(arity, child, leaf, eval, s, depth, isMax);
      t.Node? && |t.children| == arity(s, isMax)
      && t.children[i] == Unfold(arity, child, leaf, eval, child(s, isMax, i), sub, !isMax)
  {
    SubtreesAt(arity, child, leaf, eval, s, depth, isMax, arity(s, isMax), i);
  }

  /** A game whose evaluations are bounded and whose inner positions always have a move
      unfolds to well-formed trees. */
  lemma {:induction false} UnfoldWellFormed<S>(arity: (S, bool) -> nat, child: (S, bool, int) -> S, leaf: S -> bool,
                                               eval: S -> int, s: S, depth: nat, isMax: bool)
    requires forall x :: -EVAL_BOUND <= eval(x) <= EVAL_BOUND
    requires forall x, b :: !leaf(x) ==> arity(x, b) >= 1
    ensures WellFormed(Unfold(arity, child, leaf, eval, s, depth, isMax))
    decreases depth
  {
    if !(depth == 0 || leaf(s)) {
      var t := Unfold(arity, child, leaf, eval, s, depth, isMax);
      forall i | 0 <= i < |t.children| ensures WellFormed(t.children[i]) {
        SubtreesAt(arity, child, leaf, eval, s, depth, isMax, arity(s, isMax), i);
        UnfoldWellFormed(arity, child, leaf, eval, child(s, isMax, i), depth - 1, !isMax);
      }
    }
  }

  /** The side to move at a node. */
  function Side(isMax: bool, player: string, opp: string): string
  {
    if isMax then player else opp
  }

  /** The state after the i-th generated move of side. */
  function ChildState(s: State, side: string, i: int): (c: State)
    requires Valid(s) && 0 <= i < |PossibleMoves(s, side)|
    ensures Valid(c)
  {
    GeneratedMove(s, side, i);
    Apply(s, PossibleMoves(s, side)[i], side)
  }

  /** The game seen from player against opp. States that break the board invariant never
      occur in the search; they are leaves worth 0 so that these functions are total. */
  function Arity(player: string, opp: string): ((State, bool) -> nat)
  {
    (s: State, isMax: bool) => if Valid(s) then |PossibleMoves(s, Side(isMax, player, opp))| else 0
  }

  function Child(player: string, opp: string): ((State, bool, int) -> State)
  {
    (s: State, isMax: bool, i: int) =>
      if Valid(s) && 0 <= i < |PossibleMoves(s, Side(isMax, player, opp))| then ChildState(s, Side(isMax, player, opp), i) else s
  }

  function Terminal(player: string, opp: string): (State -> bool)
  {
    (s: State) => !Valid(s) || IsTerminal(s, player, opp)
  }

  function Heuristic(player: string, opp: string): (State -> int)
  {
    (s: State) => if Valid(s) then Evaluate(s, player, opp) else 0
  }

  /** The three functions agree with the rules on valid states. */
  lemma ArityAt(s: State, isMax: bool, player: string, opp: string)
    requires Valid(s)
    ensures Arity(player, opp)(s, isMax) == |PossibleMoves(s, Side(isMax, player, opp))|
  {
  }

  lemma ChildAt(s: State, isMax: bool, player: string, opp: string, i: int)
    requires Valid(s) && 0 <= i < |PossibleMoves(s, Side(isMax, player, opp))|
    ensures Child(player, opp)(s, isMax, i) == ChildState(s, Side(isMax, player, opp), i)
  {
  }

  lemma TerminalAt(s: State, player: string, opp: string)
    requires Valid(s)
    ensures Terminal(player, opp)(s) == IsTerminal(s, player, opp)
    ensures Heuristic(player, opp)(s) == Evaluate(s, player, opp)
  {
  }

  /** The tree minimaxValue explores below s, depth plies deep, the side to move being player
      when isMax holds and opp otherwise. */
  function GameTree(s: State, depth: nat, isMax: bool, player: string, opp: string): Tree
  {
    Unfold(Arity(player, opp), Child(player, opp), Terminal(player, opp), Heuristic(player, opp), s, depth, isMax)
  }

  /** The tree one level down: at depth 0 or in a terminal state a leaf holding the
      evaluation, otherwise one subtree per generated move. */
  lemma GameTreeLeaf(s: State, depth: nat, isMax: bool, player: string, opp: string)
    requires Valid(s) && (depth == 0 || IsTerminal(s, player, opp))
    ensures GameTree(s, depth, isMax, player, opp) == Leaf(Evaluate(s, player, opp))
  {
    TerminalAt(s, player, opp);
  }

  lemma GameTreeNode(s: State, depth: nat, sub: nat, isMax: bool, player: string, opp: string, i: int)
    requires Valid(s) && depth == sub + 1 && !IsTerminal(s, player, opp)
    requires 0 <= i < |PossibleMoves(s, Side(isMax, player, opp))|
    ensures var t := GameTree(s, depth, isMax, player, opp);
      t.Node? && |t.children| == |PossibleMoves(s, Side(isMax, player, opp))|
      && t.children[i] == GameTree(ChildState(s, Side(isMax, player, opp), i), sub, !isMax, player, opp)
  {
    var arity, child, leaf, eval := Arity(player, opp), Child(player, opp), Terminal(player, opp), Heuristic(player, opp);
    TerminalAt(s, player, opp);
    ArityAt(s, isMax, player, opp);
    ChildAt(s, isMax, player, opp, i);
    UnfoldNode(arity, child, leaf, eval, s, depth, sub, isMax, i);
  }

  /** Above a non-terminal position the tree is a node with one subtree per generated move. */
  lemma GameTreeShape(s: State, depth: nat, isMax: bool, player: string, opp: string)
    requires Valid(s) && depth > 0 && !IsTerminal(s, player, opp)
    ensures var t := GameTree(s, depth, isMax, player, opp);
      t.Node? && |t.children| == |PossibleMoves(s, Side(isMax, player, opp))|
  {
    TerminalAt(s, player, opp);
    ArityAt(s, isMax, player, opp);
    UnfoldShape(Arity(player, opp), Child(player, opp), Terminal(player, opp), Heuristic(player, opp), s, depth, isMax);
  }

  /** Above a non-terminal position the tree is a node whose j-th subtree is the tree of the
      state after the j-th generated move, one ply shallower, the other side to move. */
  lemma GameTreeChildren(s: State, depth: nat, sub: nat, isMax: bool, player: string, opp: string)
    requires Valid(s) && depth == sub + 1 && !IsTerminal(s, player, opp)
    ensures var t := GameTree(s, depth, isMax, player, opp);
      t.Node? && |t.children| == |PossibleMoves(s, Side(isMax, player, opp))|
      && forall j {:trigger ChildState(s, Side(isMax, player, opp), j)} :: 0 <= j < |t.children| ==>
           t.children[j] == GameTree(ChildState(s, Side(isMax, player, opp), j), sub, !isMax, player, opp)
  {
    var t := GameTree(s, depth, isMax, player, opp);
    GameTreeShape(s, depth, isMax, player, opp);
    forall j | 0 <= j < |t.children|
      ensures t.children[j] == GameTree(ChildState(s, Side(isMax, player, opp), j), sub, !isMax, player, opp)
    {
      GameTreeNode(s, depth, sub, isMax, player, opp, j);
    }
  }

  /** The game's trees are well formed. */
  lemma GameTreeWellFormed(s: State, depth: nat, isMax: bool, player: string, opp: string)
    ensures WellFormed(GameTree(s, depth, isMax, player, opp))
  {
    var arity, child, leaf, eval := Arity(player, opp), Child(player, opp), Terminal(player, opp), Heuristic(player, opp);
    assert forall x :: -EVAL_BOUND <= eval(x) <= EVAL_BOUND;
    UnfoldWellFormed(arity, child, leaf, eval, s, depth, isMax);
  }

  // ---------------------------------------------------------------- the root

  /** The score the root gives its i-th move: the opponent's reply searched reply plies deep
      (one less than the root) with the full window. */
  function RootScore(s: State, me: string, opp: string, reply: nat, i: int): int
    requires Valid(s) && 0 <= i < |PossibleMoves(s, me)|
  {
    AlphaBeta(GameTree(ChildState(s, me, i), reply, false, me, opp), false, MINUS_INF, PLUS_INF)
  }

  /** The minimax value of the opponent's reply to the i-th move, reply plies deep. */
  function ReplyValue(s: State, me: string, opp: string, reply: nat, i: int): int
    requires Valid(s) && 0 <= i < |PossibleMoves(s, me)|
  {
    Minimax(GameTree(ChildState(s, me, i), reply, false, me, opp), false)
  }

  /** With the full window, minimaxValue on the game's trees is minimax, strictly between
      the sentinels. */
  lemma GameTreeFullWindow(c: State, depth: nat, isMax: bool, player: string, opp: string)
    ensures var t := GameTree(c, depth, isMax, player, opp);
      AlphaBeta(t, isMax, MINUS_INF, PLUS_INF) == Minimax(t, isMax)
      && MINUS_INF < Minimax(t, isMax) < PLUS_INF
  {
    var t := GameTree(c, depth, isMax, player, opp);
    GameTreeWellFormed(c, depth, isMax, player, opp);
    FullWindowIsMinimax(t, isMax);
    MinimaxBounded(t, isMax);
  }

  /** Each root score is the minimax value of the opponent's reply, strictly above the
      initial -infinity of the root. */
  lemma RootScoreIsMinimax(s: State, me: string, opp: string, reply: nat, i: int)
    requires Valid(s) && 0 <= i < |PossibleMoves(s, me)|
    ensures RootScore(s, me, opp, reply, i) == ReplyValue(s, me, opp, reply, i)
    ensures MINUS_INF < RootScore(s, me, opp, reply, i) < PLUS_INF
  {
    GameTreeFullWindow(ChildState(s, me, i), reply, false, me, opp);
  }

  /** Every root score beats the -infinity the root starts from. */
  lemma RootScoreBounded(s: State, me: string, opp: string, reply: nat, i: int)
    requires Valid(s) && 0 <= i < |PossibleMoves(s, me)|
    ensures MINUS_INF < RootScore(s, me, opp, reply, i) < PLUS_INF
  {
    RootScoreIsMinimax(s, me, opp, reply, i);
  }

  /** The trees of the replies to the root's moves, in the order of the moves. */
  function RootReplies(s: State, me: string, opp: string, reply: nat): (rs: seq<Tree>)
    requires Valid(s)
    ensures |rs| == |PossibleMoves(s, me)|
  {
    Subtrees(Arity(me, opp), Child(me, opp), Terminal(me, opp), Heuristic(me, opp), s, reply + 1, true, |PossibleMoves(s, me)|)
  }

  lemma RootRepliesAt(s: State, me: string, opp: string, reply: nat, i: int)
    requires Valid(s) && 0 <= i < |PossibleMoves(s, me)|
    ensures RootReplies(s, me, opp, reply)[i] == GameTree(ChildState(s, me, i), reply, false, me, opp)
  {
    var arity, child, leaf, eval := Arity(me, opp), Child(me, opp), Terminal(me, opp), Heuristic(me, opp);
    ChildAt(s, true, me, opp, i);
    SubtreeAt(arity, child, leaf, eval, s, reply + 1, reply, true, |PossibleMoves(s, me)|, i);
  }

  /** The scores of reply trees searched with the full window, in the order of the trees. */
  function TreeScores(rs: seq<Tree>): (xs: seq<int>)
  {
    seq(|rs|, i requires 0 <= i < |rs| => AlphaBeta(rs[i], false, MINUS_INF, PLUS_INF))
  }

  /** The root's scores, in the order of the moves. */
  function RootScores(s: State, me: string, opp: string, reply: nat): (xs: seq<int>)
    requires Valid(s)
    ensures |xs| == |PossibleMoves(s, me)|
  {
    TreeScores(RootReplies(s, me, opp, reply))
  }

  /** The index the root keeps after the first n scores: a later score replaces the best only
      when it is strictly greater. */
  function FirstMax(score: seq<int>, n: int): (k: int)
    requires 1 <= n <= |score|
    ensures 0 <= k < n
  {
    if n == 1 then 0
    else
      var k := FirstMax(score, n - 1);
      if score[n - 1] > score[k] then n - 1 else k
  }

  /** The kept index is the first one with the greatest score. */
  lemma {:induction false} FirstMaxIsFirstMaximum(score: seq<int>, n: int)
    requires 1 <= n <= |score|
    ensures forall j :: 0 <= j < n ==> score[j] <= score[FirstMax(score, n)]
    ensures forall j :: 0 <= j < FirstMax(score, n) ==> score[j] < score[FirstMax(score, n)]
  {
    if n > 1 {
      FirstMaxIsFirstMaximum(score, n - 1);
    }
  }

  /** The index of the move minimax(reply + 1) returns: the pass when it is the only move,
      otherwise the first generated move with the greatest score. */
  function ChoiceIndex(s: State, me: string, opp: string, reply: nat): (k: int)
    requires Valid(s)
    ensures 0 <= k < |PossibleMoves(s, me)|
  {
    if PossibleMoves(s, me) == [Pass] then 0
    else FirstMax(RootScores(s, me, opp, reply), |PossibleMoves(s, me)|)
  }

  /** The move minimax(reply + 1) returns. It is a generated move, hence one play accepts,
      and it is the pass exactly when no step is available. */
  function Choice(s: State, me: string, opp: string, reply: nat): (m: Move)
    requires Valid(s)
    ensures m in PossibleMoves(s, me)
    ensures InBoundsMove(m) && ValidMove(s, m, me) && (m.Pass? || m.Step?)
    ensures m.Pass? <==> PossibleMoves(s, me) == [Pass]
  {
    GeneratedMove(s, me, ChoiceIndex(s, me, opp, reply));
    PossibleMoves(s, me)[ChoiceIndex(s, me, opp, reply)]
  }

  /** The root's scores are the scores of the replies to its moves. */
  lemma RootScoresAt(s: State, me: string, opp: string, reply: nat)
    requires Valid(s)
    ensures forall j {:trigger RootScore(s, me, opp, reply, j)} :: 0 <= j < |PossibleMoves(s, me)| ==>
      RootScores(s, me, opp, reply)[j] == RootScore(s, me, opp, reply, j)
  {
    forall j | 0 <= j < |PossibleMoves(s, me)|
      ensures RootScores(s, me, opp, reply)[j] == RootScore(s, me, opp, reply, j)
    {
      RootRepliesAt(s, me, opp, reply, j);
    }
  }

  /** The forced pass is chosen when it is the only move. */
  lemma ChoiceIsPass(s: State, me: string, opp: string, reply: nat)
    requires Valid(s) && PossibleMoves(s, me) == [Pass]
    ensures Choice(s, me, opp, reply) == Pass
  {
  }

  /** The root's scores are the replies' minimax values. */
  lemma RootScoresAreReplyValues(s: State, me: string, opp: string, reply: nat)
    requires Valid(s)
    ensures forall j :: 0 <= j < |PossibleMoves(s, me)| ==> RootScores(s, me, opp, reply)[j] == ReplyValue(s, me, opp, reply, j)
  {
    forall j | 0 <= j < |PossibleMoves(s, me)| ensures RootScores(s, me, opp, reply)[j] == ReplyValue(s, me, opp, reply, j) {
      RootRepliesAt(s, me, opp, reply, j);
      RootScoreIsMinimax(s, me, opp, reply, j);
    }
  }

  /** Unless it is the forced pass, the choice is the first move whose reply has the greatest minimax value. */
  lemma ChoiceIsBest(s: State, me: string, opp: string, reply: nat)
    requires Valid(s) && PossibleMoves(s, me) != [Pass]
    ensures var k := ChoiceIndex(s, me, opp, reply);
      (forall j :: 0 <= j < |PossibleMoves(s, me)| ==> ReplyValue(s, me, opp, reply, j) <= ReplyValue(s, me, opp, reply, k))
      && (forall j :: 0 <= j < k ==> ReplyValue(s, me, opp, reply, j) < ReplyValue(s, me, opp, reply, k))
  {
    var xs, n, k := RootScores(s, me, opp, reply), |PossibleMoves(s, me)|, ChoiceIndex(s, me, opp, reply);
    assert k == FirstMax(xs, n);
    FirstMaxIsFirstMaximum(xs, n);
    RootScoresAreReplyValues(s, me, opp, reply);
    forall j | 0 <= j < n
      ensures ReplyValue(s, me, opp, reply, j) <= ReplyValue(s, me, opp, reply, k)
      ensures j < k ==> ReplyValue(s, me, opp, reply, j) < ReplyValue(s, me, opp, reply, k)
    {
      assert xs[j] == ReplyValue(s, me, opp, reply, j) && xs[k] == ReplyValue(s, me, opp, reply, k);
    }
  }
}
