/** A piece: src/Piece.java. The packaged escampe.Piece is not part of this model; it is assumed to have the same two fields.
    Both fields are strings in the source and are compared with String.equals. */
module Pieces {

  const LICORNE: string := "licorne"
  const PALADIN: string := "paladin"
  const NOIR: string := "noir"
  const BLANC: string := "blanc"

  /** `kind` is the Java field `type` ("licorne" or "paladin"), `color` is "noir" or "blanc". */
  datatype Piece = Piece(kind: string, color: string)

  /** The pieces the rules engines ever create: a licorne or a paladin of one of the two
      colours. */
  predicate WellFormed(p: Piece)
  {
    (p.kind == LICORNE || p.kind == PALADIN) && (p.color == NOIR || p.color == BLANC)
  }

  /** Piece.toString: the first character of the colour, then 'L' for a licorne and 'P' for
      anything else. charAt(0) throws on an empty colour, hence the precondition. */
  function ToString(p: Piece): (s: string)
    requires |p.color| >= 1
    ensures |s| == 2
    ensures s[0] == p.color[0]
    ensures s[1] == 'L' <==> p.kind == LICORNE
    ensures s[1] == 'P' <==> p.kind != LICORNE
  {
    [p.color[0]] + (if p.kind == LICORNE then "L" else "P")
  }

  lemma ToStringExamples()
    ensures ToString(Piece(LICORNE, NOIR)) == "nL"
    ensures ToString(Piece(PALADIN, BLANC)) == "bP"
  {
  }

  /** Distinct well-formed pieces print differently: the two characters determine the piece. */
  lemma ToStringInjective(p: Piece, q: Piece)
    requires WellFormed(p) && WellFormed(q) && ToString(p) == ToString(q)
    ensures p == q
  {
    assert ToString(p)[0] == ToString(q)[0];
    assert ToString(p)[1] == ToString(q)[1];
  }
}
