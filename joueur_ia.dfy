/** escampe/JoueurIA.java: the agent keeps its own engine, plays a fixed placement first, and
    afterwards searches with minimax and alpha-beta cut-offs, playing each candidate on its
    own board and restoring the board from a snapshot after each one. Every search method is
    proved equal to the corresponding function of Search on the state it started from. */
module Agent {
  import opened Wrappers
  import opened Position
  import opened Pieces
  import opened Board
  import opened MoveText
  import opened EscampeRules
  import opened Search
  import opened Escampe

  /** The two values of IJoueur the agent distinguishes. */
  datatype Colour = Noir | Blanc

  /** The name the engine uses for a colour. */
  function NameOf(c: Colour): (name: string)
    ensures IsColour(name)
  {
    if c == Noir then NOIR else BLANC
  }

  /** The name of the other colour. */
  function OtherOf(c: Colour): (name: string)
    ensures IsColour(name) && name != NameOf(c) && name == OpponentOf(NameOf(c))
  {
    if c == Noir then BLANC else NOIR
  }

  /** Random.nextInt: some index below bound; which one is left open. */
  method NextInt(bound: int) returns (r: int)
    requires bound > 0
    ensures 0 <= r < bound
  {
    r :| 0 <= r < bound;
  }

  class JoueurIA {
    const colour: Colour
    const board: EscampeBoard
    var ouvertureNoir: bool
    var ouvertureBlanc: bool

    ghost predicate Valid()
      reads board, board.board
    {
      board.Valid()
    }

    /** The side the agent plays and the side it plays against. */
    function Me(): string { NameOf(colour) }

    function Opp(): string { OtherOf(colour) }

    /** initJoueur: a fresh engine and both opening flags raised. */
    constructor (mycolour: Colour)
      ensures Valid() && fresh(board) && fresh(board.board)
      ensures colour == mycolour && board.Model() == Initial()
      ensures ouvertureNoir && ouvertureBlanc
    {
      colour := mycolour;
      board := new EscampeBoard();
      ouvertureNoir := true;
      ouvertureBlanc := true;
    }

    /** choixMouvement. The first call for each colour plays that colour's fixed placement
        and clears its flag; ok is false exactly when the engine refuses the placement (the
        source then throws). Every later call plays the move minimax(MAX_DEPTH) returns,
        which the engine always accepts. */
    method ChooseMove() returns (move: Move, ok: bool)
      requires Valid()
      modifies this, board, board.board
      ensures Valid()
      ensures old(colour == Noir && ouvertureNoir) ==>
        move == OPENING_NOIR && !ouvertureNoir && ouvertureBlanc == old(ouvertureBlanc)
      ensures old(colour == Blanc && ouvertureBlanc) ==>
        move == OPENING_BLANC && !ouvertureBlanc && ouvertureNoir == old(ouvertureNoir)
      ensures old((colour == Noir && ouvertureNoir) || (colour == Blanc && ouvertureBlanc)) ==>
        ok == ValidMove(old(board.Model()), move, Me())
        && board.Model() == (if ok then Apply(old(board.Model()), move, Me()) else old(board.Model()))
      ensures !old((colour == Noir && ouvertureNoir) || (colour == Blanc && ouvertureBlanc)) ==>
        ok && move == Choice(old(board.Model()), Me(), Opp(), MAX_DEPTH - 1)
        && ouvertureNoir == old(ouvertureNoir) && ouvertureBlanc == old(ouvertureBlanc)
        && board.Model() == Apply(old(board.Model()), move, Me())
    {
      var me := Me();
      if colour == Noir && ouvertureNoir {
        ouvertureNoir := false;
        move := OPENING_NOIR;
        ok := board.Play(move, me);
        return;
      }
      if colour == Blanc && ouvertureBlanc {
        ouvertureBlanc := false;
        move := OPENING_BLANC;
        ok := board.Play(move, me);
        return;
      }
      ghost var s := board.Model();
      move := Minimax(s, MAX_DEPTH, MAX_DEPTH - 1);
      if !move.Pass? {
        StepAfterReset(s, me, move.from, move.to);
      }
      ok := board.Play(move, me);
    }

    /** minimax: the lone pass when nothing else is possible; otherwise every move is played
        on the board, the reply is searched depth - 1 plies with the full window, the board is
        reloaded, and the first move with the greatest score is kept. The random initial pick
        never survives, since every score beats -infinity. Reloading leaves the board in the
        reset state. */
    method Minimax(ghost s: State, depth: int, ghost sub: nat) returns (best: Move)
      requires Valid() && board.Model() == s && depth == sub + 1
      modifies board, board.board
      ensures Valid()
      ensures best == Choice(s, Me(), Opp(), sub)
      ensures board.Model() == if best.Pass? then s else Reset(s)
    {
      var me, opp := Me(), Opp();
      var reply: nat := depth - 1;
      var myMoves := board.PossiblesMoves(me);
      assert (|myMoves| == 1 && myMoves[0] == Pass) <==> myMoves == [Pass];
      if |myMoves| == 1 && myMoves[0] == Pass {
        ChoiceIsPass(s, me, opp, reply);
        return Pass;
      }
      best := RootSearch(s, myMoves, reply, me, opp);
    }

    /** The part of minimax past the forced pass: the snapshot is taken and the loop over the
        root's moves runs. */
    method RootSearch(ghost s: State, myMoves: seq<Move>, reply: nat, me: string, opp: string) returns (best: Move)
      requires board.Valid() && board.Model() == s && EscampeRules.Valid(s)
      requires myMoves == PossibleMoves(s, me) && myMoves != [Pass]
      modifies board, board.board
      ensures board.Valid() && board.Model() == Reset(s)
      ensures best == Choice(s, me, opp, reply) && best.Step?
    {
      var snapshot := board.SaveToRows();
      ghost var scores := RootScores(s, me, opp, reply);
      RootScoresAt(s, me, opp, reply);
      ghost var k;
      best, k := RootLoop(s, scores, snapshot, myMoves, reply, me, opp);
      assert k == ChoiceIndex(s, me, opp, reply);
    }

    /** The loop of minimax over the root's moves, whose scores are scores: each move is
        explored in turn and replaces the held one when its score is strictly greater, so the
        loop ends on the first move with the greatest score. */
    method RootLoop(ghost s: State, ghost scores: seq<int>, snapshot: seq<string>, myMoves: seq<Move>,
                    reply: nat, me: string, opp: string) returns (best: Move, ghost k: int)
      requires board.Valid() && board.Model() == s && EscampeRules.Valid(s)
      requires myMoves == PossibleMoves(s, me) && snapshot == SaveRows(s.grid) && |scores| == |myMoves|
      requires forall j {:trigger RootScore(s, me, opp, reply, j)} :: 0 <= j < |scores| ==> scores[j] == RootScore(s, me, opp, reply, j)
      modifies board, board.board
      ensures board.Valid() && board.Model() == Reset(s)
      ensures 0 <= k < |myMoves| && best == myMoves[k] && k == FirstMax(scores, |myMoves|)
    {
      var bestScore := MINUS_INF;
      var pick := NextInt(|myMoves|);
      best := myMoves[pick];
      best, bestScore, k := RootStep(s, scores, snapshot, myMoves, 0, reply, me, opp, best, bestScore, 0);
      var i := 1;
      while i < |myMoves|
        invariant 1 <= i <= |myMoves| == |scores|
        invariant board.Valid() && board.Model() == Reset(s)
        invariant k == FirstMax(scores, i) && best == myMoves[k] && bestScore == scores[k]
      {
        best, bestScore, k := RootStep(s, scores, snapshot, myMoves, i, reply, me, opp, best, bestScore, k);
        i := i + 1;
      }
    }

    /** One turn of the loop of minimax: the i-th move is explored, and it replaces the held
        move when its score is strictly greater than the held score, which keeps the held
        move on the first move with the greatest score so far. */
    method RootStep(ghost s: State, ghost scores: seq<int>, snapshot: seq<string>, myMoves: seq<Move>, i: int,
                    reply: nat, me: string, opp: string, best: Move, bestScore: int, ghost k: int)
      returns (best': Move, bestScore': int, ghost k': int)
      requires board.Valid() && EscampeRules.Valid(s)
      requires myMoves == PossibleMoves(s, me) && 0 <= i < |myMoves| == |scores| && snapshot == SaveRows(s.grid)
      requires forall j {:trigger RootScore(s, me, opp, reply, j)} :: 0 <= j < |scores| ==> scores[j] == RootScore(s, me, opp, reply, j)
      requires board.Model() == if i == 0 then s else Reset(s)
      requires i == 0 ==> bestScore == MINUS_INF
      requires i > 0 ==> k == FirstMax(scores, i) && bestScore == scores[k] && best == myMoves[k]
      modifies board, board.board
      ensures board.Valid() && board.Model() == Reset(s)
      ensures k' == FirstMax(scores, i + 1) && bestScore' == scores[k'] && best' == myMoves[k']
    {
      var x := ExploreChild(s, snapshot, myMoves, i, me, reply, false, MINUS_INF, PLUS_INF, me, opp);
      RootScoreBounded(s, me, opp, reply, i);
      best', bestScore', k' := best, bestScore, k;
      if x > bestScore {
        bestScore' := x;
        best' := myMoves[i];
        k' := i;
      }
    }

    /** minimaxValue: the evaluation at depth 0 or in a terminal position; otherwise the
        alpha-beta loop over the side to move's generated moves. The result is alpha-beta on
        the game tree of the starting state; the board ends as it started at a leaf and in
        the reset state otherwise. */
    method MinimaxValue(depth: nat, isMax: bool, alpha: int, beta: int, player: string, opp: string) returns (v: int)
      requires board.Valid()
      modifies board, board.board
      ensures board.Valid()
      ensures v == AlphaBeta(GameTree(old(board.Model()), depth, isMax, player, opp), isMax, alpha, beta)
      ensures board.Model() == old(board.Model()) || board.Model() == Reset(old(board.Model()))
      decreases depth, 2
    {
      ghost var s := board.Model();
      var terminal := IsTerminal(player, opp);
      if depth == 0 || terminal {
        v := EvaluateBoard(player, opp);
        GameTreeLeaf(s, depth, isMax, player, opp);
        return;
      }
      var moves := board.PossiblesMoves(Side(isMax, player, opp));
      var snapshot := board.SaveToRows();
      var sub: nat := depth - 1;
      GameTreeChildren(s, depth, sub, isMax, player, opp);
      ghost var cs := GameTree(s, depth, isMax, player, opp).children;
      v := SearchNode(s, cs, snapshot, moves, sub, isMax, alpha, beta, player, opp);
    }

    /** The loop of minimaxValue over the moves of an inner position s, whose subtrees are cs:
        each child is explored in turn, best and the window are updated, and the loop stops
        once beta <= alpha. */
    method SearchNode(ghost s: State, ghost cs: seq<Tree>, snapshot: seq<string>, moves: seq<Move>, sub: nat,
                      isMax: bool, alpha: int, beta: int, player: string, opp: string) returns (v: int)
      requires board.Valid() && board.Model() == s && EscampeRules.Valid(s)
      requires moves == PossibleMoves(s, Side(isMax, player, opp)) && snapshot == SaveRows(s.grid) && |cs| == |moves|
      requires forall j {:trigger ChildState(s, Side(isMax, player, opp), j)} :: 0 <= j < |cs| ==>
                 cs[j] == GameTree(ChildState(s, Side(isMax, player, opp), j), sub, !isMax, player, opp)
      modifies board, board.board
      ensures board.Valid() && board.Model() == Reset(s)
      ensures v == AlphaBetaFrom(cs, isMax, 0, Worst(isMax), alpha, beta)
      decreases sub + 1, 1
    {
      var best := if isMax then MINUS_INF else PLUS_INF;
      var a, b := alpha, beta;
      var i := 0;
      while i < |moves|
        invariant 0 <= i <= |moves|
        invariant board.Valid()
        invariant i == 0 ==> board.Model() == s
        invariant i > 0 ==> board.Model() == Reset(s)
        invariant AlphaBetaFrom(cs, isMax, i, best, a, b) == AlphaBetaFrom(cs, isMax, 0, Worst(isMax), alpha, beta)
        decreases |moves| - i
      {
        ghost var best0, a0, b0 := best, a, b;
        best, a, b := SearchStep(s, cs, snapshot, moves, i, sub, isMax, best, a, b, player, opp);
        if b <= a {
          return best;
        }
        assert AlphaBetaFrom(cs, isMax, i, best0, a0, b0) == AlphaBetaFrom(cs, isMax, i + 1, best, a, b);
        i := i + 1;
      }
      AlphaBetaFromDone(cs, isMax, best, a, b);
      v := best;
    }

    /** One turn of the loop of minimaxValue: child i is explored, the maximiser raises best
        and alpha, the minimiser lowers best and beta. */
    method SearchStep(ghost s: State, ghost cs: seq<Tree>, snapshot: seq<string>, moves: seq<Move>, i: int,
                      sub: nat, isMax: bool, best: int, a: int, b: int, player: string, opp: string)
      returns (best': int, a': int, b': int)
      requires board.Valid() && EscampeRules.Valid(s)
      requires moves == PossibleMoves(s, Side(isMax, player, opp)) && 0 <= i < |moves| == |cs| && snapshot == SaveRows(s.grid)
      requires cs[i] == GameTree(ChildState(s, Side(isMax, player, opp), i), sub, !isMax, player, opp)
      requires board.Model() == if i == 0 then s else Reset(s)
      modifies board, board.board
      ensures board.Valid() && board.Model() == Reset(s)
      ensures b' <= a' ==> AlphaBetaFrom(cs, isMax, i, best, a, b) == best'
      ensures b' > a' ==> AlphaBetaFrom(cs, isMax, i, best, a, b) == AlphaBetaFrom(cs, isMax, i + 1, best', a', b')
      decreases sub + 1, 0
    {
      var x := ExploreChild(s, snapshot, moves, i, Side(isMax, player, opp), sub, !isMax, a, b, player, opp);
      best', a', b' := best, a, b;
      if isMax {
        best' := Max(best, x);
        a' := Max(a, x);
      } else {
        best' := Min(best, x);
        b' := Min(b, x);
      }
      AlphaBetaFromNext(cs, isMax, i, best, a, b, x, best', a', b');
    }

    /** One child of a search loop: the i-th move of side is played on the board (which holds
        s before the first child and the reloaded s after the others), the resulting position
        is searched sub plies deep, and the snapshot of s is loaded back. */
    method ExploreChild(ghost s: State, snapshot: seq<string>, moves: seq<Move>, i: int, side: string, sub: nat,
                        childIsMax: bool, a: int, b: int, player: string, opp: string) returns (x: int)
      requires board.Valid() && EscampeRules.Valid(s)
      requires moves == PossibleMoves(s, side) && 0 <= i < |moves| && snapshot == SaveRows(s.grid)
      requires board.Model() == if i == 0 then s else Reset(s)
      modifies board, board.board
      ensures board.Valid() && board.Model() == Reset(s)
      ensures x == AlphaBeta(GameTree(ChildState(s, side, i), sub, childIsMax, player, opp), childIsMax, a, b)
      decreases sub, 3
    {
      GeneratedMove(s, side, i);
      if i > 0 {
        StepAfterReset(s, side, moves[i].from, moves[i].to);
      }
      var played := board.Play(moves[i], side);
      assert board.Model() == ChildState(s, side, i);
      x := MinimaxValue(sub, childIsMax, a, b, player, opp);
      ghost var g := board.Grid();
      var loaded := board.SetFromRows(snapshot);
      SaveThenLoad(s.grid, g);
    }

    /** isTerminal: both sides reduced to the pass, or one of the two piece counts at zero. */
    method IsTerminal(player: string, opp: string) returns (terminal: bool)
      requires board.Valid()
      ensures terminal == Search.IsTerminal(board.Model(), player, opp)
    {
      var pMoves := board.PossiblesMoves(player);
      var oMoves := board.PossiblesMoves(opp);
      if |pMoves| == 1 && pMoves[0] == Pass && |oMoves| == 1 && oMoves[0] == Pass {
        return true;
      }
      var countP, countO := CountPieces(player);
      terminal := countP == 0 || countO == 0;
    }

    /** evaluateBoard, times ten: mobility plus material. */
    method EvaluateBoard(me: string, opp: string) returns (v: int)
      requires board.Valid()
      ensures v == Evaluate(board.Model(), me, opp)
    {
      var myMoves := board.PossiblesMoves(me);
      var oppMoves := board.PossiblesMoves(opp);
      var mobility := |myMoves| - |oppMoves|;
      var myCount, oppCount := CountPieces(me);
      v := 10 * mobility + (myCount - oppCount);
    }

    /** The counting loops of isTerminal and evaluateBoard: every piece counts for the player
        when it has the player's colour and for the other side otherwise. */
    method CountPieces(player: string) returns (mine: nat, others: nat)
      requires board.Valid()
      ensures mine == GridCount(board.Grid(), player, true, SIZE)
      ensures others == GridCount(board.Grid(), player, false, SIZE)
    {
      ghost var g := board.Grid();
      mine, others := 0, 0;
      for r := 0 to SIZE
        invariant mine == GridCount(g, player, true, r)
        invariant others == GridCount(g, player, false, r)
      {
        for c := 0 to SIZE
          invariant mine == GridCount(g, player, true, r) + RowCount(g[r][..c], player, true)
          invariant others == GridCount(g, player, false, r) + RowCount(g[r][..c], player, false)
        {
          var pc := board.board[r, c];
          assert pc == g[r][c] by {
            assert At(g, Pos(r, c)) == pc;
          }
          if pc != None {
            if pc.value.color == player {
              mine := mine + 1;
            } else {
              others := others + 1;
            }
          }
          assert g[r][..c + 1][..c] == g[r][..c];
        }
        assert g[r][..SIZE] == g[r];
      }
    }

    /** mouvementEnnemi: "E" and "PASSE" are the pass; any other string is played as it is,
        for the opponent. ok is false where the source throws, and then nothing changes. */
    method NotifyOpponentMove(coup: string) returns (ok: bool)
      requires Valid()
      modifies board, board.board
      ensures Valid()
      ensures var text := if coup == "E" || coup == "PASSE" then "E" else coup;
        var m := Decode(text);
        ok == (m.Some? && InBoundsMove(m.value) && ValidMove(old(board.Model()), m.value, Opp()))
        && board.Model() == if ok then Apply(old(board.Model()), m.value, Opp()) else old(board.Model())
    {
      var adv := Opp();
      var text := if coup == "E" || coup == "PASSE" then "E" else coup;
      ok := board.PlayText(text, adv);
    }
  }
}
