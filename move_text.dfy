/** Moves and the move-string grammar both rules engines parse:
    "E" is a pass, "C6/A6/B5/D5/E6/F5" a placement (first cell gets the licorne),
    "A1-B2" a step. The engines split the string with String.split("/") or
    String.split("-") and read each token with Position.fromString. */
module MoveText {
  import opened Wrappers
  import opened Position

  /** A decoded move string. `Malformed` is a string that is not "E", has no '/', and does
      not split into exactly two tokens around '-': both engines answer "invalid" to it. */
  datatype Move = Pass | Placement(cells: seq<Pos>) | Step(from: Pos, to: Pos) | Malformed

  function IndexOf(s: string, ch: char): (i: nat)
    requires ch in s
    ensures i < |s| && s[i] == ch && ch !in s[..i]
  {
    if s[0] == ch then 0 else 1 + IndexOf(s[1..], ch)
  }

  /** Cutting at every separator, keeping empty pieces. */
  function RawSplit(s: string, sep: char): (parts: seq<string>)
    ensures |parts| >= 1
    ensures forall i :: 0 <= i < |parts| ==> sep !in parts[i]
    decreases |s|
  {
    if sep !in s then [s]
    else
      var i := IndexOf(s, sep);
      [s[..i]] + RawSplit(s[i + 1..], sep)
  }

  function DropTrailingEmpty(parts: seq<string>): (r: seq<string>)
    ensures |r| <= |parts| && r == parts[..|r|]
    ensures |r| > 0 ==> r[|r| - 1] != ""
  {
    if |parts| > 0 && parts[|parts| - 1] == "" then DropTrailingEmpty(parts[..|parts| - 1]) else parts
  }

  /** Java's String.split with a one-character separator and no limit: a string without the
      separator is returned whole; otherwise the pieces, without trailing empty strings. */
  function JavaSplit(s: string, sep: char): (parts: seq<string>)
    ensures sep !in s ==> parts == [s]
    ensures forall i :: 0 <= i < |parts| ==> sep !in parts[i]
    ensures sep in s && |parts| > 0 ==> parts[|parts| - 1] != ""
  {
    if sep !in s then [s] else DropTrailingEmpty(RawSplit(s, sep))
  }

  /** Position.fromString on one token; None where it throws (empty token, missing or
      non-digit row number). */
  function DecodeCell(token: string): Option<Pos>
  {
    if Parsable(token) then Some(FromString(token)) else None
  }

  function DecodeCells(tokens: seq<string>): (r: Option<seq<Pos>>)
    ensures r.Some? ==> |r.value| == |tokens|
  {
    if |tokens| == 0 then Some([])
    else match (DecodeCell(tokens[0]), DecodeCells(tokens[1..]))
      case (Some(p), Some(ps)) => Some([p] + ps)
      case _ => None
  }

  /** How both engines read a move string; None where Position.fromString would throw. */
  function Decode(s: string): (r: Option<Move>)
    ensures r == Some(Pass) <==> s == "E"
    ensures r.Some? && r.value.Placement? ==> '/' in s && |r.value.cells| == |JavaSplit(s, '/')|
    ensures r.Some? && (r.value.Step? || r.value.Malformed?) ==> s != "E" && '/' !in s
    ensures r.Some? && r.value.Step? ==> '-' in s
  {
    if s == "E" then Some(Pass)
    else if '/' in s then
      match DecodeCells(JavaSplit(s, '/'))
      case Some(cells) => Some(Placement(cells))
      case None => None
    else
      var parts := JavaSplit(s, '-');
      if |parts| != 2 then Some(Malformed)
      else match (DecodeCell(parts[0]), DecodeCell(parts[1]))
        case (Some(f), Some(t)) => Some(Step(f, t))
        case _ => None
  }

  function Join(tokens: seq<string>, sep: char): string
    requires |tokens| >= 1
  {
    if |tokens| == 1 then tokens[0] else tokens[0] + [sep] + Join(tokens[1..], sep)
  }

  function CellNames(cells: seq<Pos>): (r: seq<string>)
    requires forall i :: 0 <= i < |cells| ==> Printable(cells[i])
    ensures |r| == |cells| && forall i :: 0 <= i < |cells| ==> r[i] == ToString(cells[i])
  {
    if |cells| == 0 then [] else [ToString(cells[0])] + CellNames(cells[1..])
  }

  /** The moves that have a string form: a placement needs two cells or more to contain a
      '/', and every cell must print as a letter and a number. */
  predicate Encodable(m: Move)
  {
    match m
    case Pass => true
    case Placement(cells) => |cells| >= 2 && forall i :: 0 <= i < |cells| ==> Printable(cells[i])
    case Step(f, t) => Printable(f) && Printable(t)
    case Malformed => false
  }

  /** The string the engines and the agent write for a move (possiblesMoves builds
      toString(from) + "-" + toString(to)). */
  function Encode(m: Move): string
    requires Encodable(m)
  {
    match m
    case Pass => "E"
    case Placement(cells) => Join(CellNames(cells), '/')
    case Step(f, t) => ToString(f) + "-" + ToString(t)
  }

  lemma {:induction false} IndexOfJoin(a: string, b: string, sep: char)
    requires sep !in a
    ensures sep in a + [sep] + b && IndexOf(a + [sep] + b, sep) == |a|
    decreases |a|
  {
    assert (a + [sep] + b)[|a|] == sep;
    if |a| > 0 {
      assert (a + [sep] + b)[1..] == a[1..] + [sep] + b;
      IndexOfJoin(a[1..], b, sep);
    }
  }

  /** Cutting a + [sep] + b, where a has no separator, yields a and then the pieces of b. */
  lemma RawSplitCons(a: string, b: string, sep: char)
    requires sep !in a
    ensures RawSplit(a + [sep] + b, sep) == [a] + RawSplit(b, sep)
  {
    var s := a + [sep] + b;
    IndexOfJoin(a, b, sep);
    assert s[..|a|] == a;
    assert s[|a| + 1..] == b;
  }

  lemma {:induction false} RawSplitJoin(tokens: seq<string>, sep: char)
    requires |tokens| >= 1
    requires forall i :: 0 <= i < |tokens| ==> sep !in tokens[i]
    ensures RawSplit(Join(tokens, sep), sep) == tokens
    ensures |tokens| >= 2 ==> sep in Join(tokens, sep)
    decreases |tokens|
  {
    if |tokens| == 1 {
      assert sep !in tokens[0];
    } else {
      var a, rest := tokens[0], tokens[1..];
      assert sep !in a;
      var b := Join(rest, sep);
      assert Join(tokens, sep) == a + [sep] + b;
      assert (a + [sep] + b)[|a|] == sep;
      RawSplitCons(a, b, sep);
      assert forall i :: 0 <= i < |rest| ==> rest[i] == tokens[i + 1];
      RawSplitJoin(rest, sep);
      assert tokens == [a] + rest;
    }
  }

  lemma {:induction false} DecodeCellNames(cells: seq<Pos>)
    requires forall i :: 0 <= i < |cells| ==> Printable(cells[i])
    ensures DecodeCells(CellNames(cells)) == Some(cells)
    decreases |cells|
  {
    if |cells| > 0 {
      var names, rest := CellNames(cells), cells[1..];
      assert Printable(cells[0]) && names[0] == ToString(cells[0]);
      FromStringOfToString(cells[0]);
      assert DecodeCell(names[0]) == Some(cells[0]);
      assert forall i :: 0 <= i < |rest| ==> rest[i] == cells[i + 1];
      assert names[1..] == CellNames(rest);
      DecodeCellNames(rest);
      assert cells == [cells[0]] + rest;
    }
  }

  /** A printed cell contains neither separator. */
  lemma TokenHasNoSeparator(p: Pos)
    requires Printable(p)
    ensures '/' !in ToString(p) && '-' !in ToString(p) && ToString(p) != ""
  {
    var s := ToString(p);
    assert s == [s[0]] + s[1..];
  }

  /** Round trip of the move grammar: decoding the string written for a move gives the move
      back. */
  lemma DecodeEncode(m: Move)
    requires Encodable(m)
    ensures Decode(Encode(m)) == Some(m)
  {
    match m
    case Pass =>
    case Placement(cells) =>
      var names := CellNames(cells);
      forall i | 0 <= i < |names| ensures '/' !in names[i] && names[i] != "" {
        TokenHasNoSeparator(cells[i]);
      }
      RawSplitJoin(names, '/');
      assert JavaSplit(Join(names, '/'), '/') == names;
      DecodeCellNames(cells);
      assert Encode(m) != "E" by {
        assert |Join(names, '/')| >= 2 by { assert names[0] != ""; }
      }
    case Step(f, t) =>
      TokenHasNoSeparator(f);
      TokenHasNoSeparator(t);
      var s := ToString(f) + "-" + ToString(t);
      assert s == ToString(f) + ['-'] + ToString(t);
      RawSplitJoin([ToString(f), ToString(t)], '-');
      assert Join([ToString(f), ToString(t)], '-') == s;
      assert '/' !in s;
      FromStringOfToString(f);
      FromStringOfToString(t);
      assert s != "E" by { assert |s| >= 5; }
  }

  /** The agent's fixed opening placements (escampe/JoueurIA.java): licorne first, then the
      five paladins. */
  const OPENING_NOIR: Move := Placement([Pos(5, 2), Pos(5, 0), Pos(4, 1), Pos(4, 3), Pos(5, 4), Pos(4, 5)])
  const OPENING_BLANC: Move := Placement([Pos(0, 2), Pos(2, 0), Pos(1, 2), Pos(4, 2), Pos(0, 5), Pos(3, 5)])

  /** The opening placements print as "C6/A6/B5/D5/E6/F5" and "C1/A3/C2/C5/F1/F4", the
      strings escampe/JoueurIA.java sends. */
  lemma OpeningNoirText()
    ensures Encodable(OPENING_NOIR)
    ensures Encode(OPENING_NOIR) == "C6" + "/" + "A6" + "/" + "B5" + "/" + "D5" + "/" + "E6" + "/" + "F5"
  {
    EncodeSix(OPENING_NOIR.cells);
    assert ToString(Pos(5, 2)) == "C6" by { BoardCellToken(Pos(5, 2)); }
    assert ToString(Pos(5, 0)) == "A6" by { BoardCellToken(Pos(5, 0)); }
    assert ToString(Pos(4, 1)) == "B5" by { BoardCellToken(Pos(4, 1)); }
    assert ToString(Pos(4, 3)) == "D5" by { BoardCellToken(Pos(4, 3)); }
    assert ToString(Pos(5, 4)) == "E6" by { BoardCellToken(Pos(5, 4)); }
    assert ToString(Pos(4, 5)) == "F5" by { BoardCellToken(Pos(4, 5)); }
  }

  lemma OpeningBlancText()
    ensures Encodable(OPENING_BLANC)
    ensures Encode(OPENING_BLANC) == "C1" + "/" + "A3" + "/" + "C2" + "/" + "C5" + "/" + "F1" + "/" + "F4"
  {
    EncodeSix(OPENING_BLANC.cells);
    assert ToString(Pos(0, 2)) == "C1" by { BoardCellToken(Pos(0, 2)); }
    assert ToString(Pos(2, 0)) == "A3" by { BoardCellToken(Pos(2, 0)); }
    assert ToString(Pos(1, 2)) == "C2" by { BoardCellToken(Pos(1, 2)); }
    assert ToString(Pos(4, 2)) == "C5" by { BoardCellToken(Pos(4, 2)); }
    assert ToString(Pos(0, 5)) == "F1" by { BoardCellToken(Pos(0, 5)); }
    assert ToString(Pos(3, 5)) == "F4" by { BoardCellToken(Pos(3, 5)); }
  }

  /** A placement of six board cells prints as their six names joined with '/'. */
  lemma EncodeSix(cells: seq<Pos>)
    requires |cells| == 6 && forall i :: 0 <= i < 6 ==> 0 <= cells[i].row < 6 && 0 <= cells[i].col < 6
    ensures Encodable(Placement(cells))
    ensures Encode(Placement(cells)) == ToString(cells[0]) + "/" + ToString(cells[1]) + "/" + ToString(cells[2])
      + "/" + ToString(cells[3]) + "/" + ToString(cells[4]) + "/" + ToString(cells[5])
  {
    var names := CellNames(cells);
    assert names == [names[0], names[1], names[2], names[3], names[4], names[5]];
    JoinSix(names[0], names[1], names[2], names[3], names[4], names[5]);
  }

  /** Six tokens joined with '/'. */
  lemma JoinSix(a: string, b: string, c: string, d: string, e: string, f: string)
    ensures Join([a, b, c, d, e, f], '/') == a + "/" + b + "/" + c + "/" + d + "/" + e + "/" + f
  {
    var ts := [a, b, c, d, e, f];
    assert Join(ts[5..], '/') == f by { assert ts[5..] == [f]; }
    assert Join(ts[4..], '/') == e + "/" + f by { assert ts[4..][1..] == ts[5..]; }
    assert Join(ts[3..], '/') == d + "/" + e + "/" + f by { assert ts[3..][1..] == ts[4..]; }
    assert Join(ts[2..], '/') == c + "/" + d + "/" + e + "/" + f by { assert ts[2..][1..] == ts[3..]; }
    assert Join(ts[1..], '/') == b + "/" + c + "/" + d + "/" + e + "/" + f by { assert ts[1..][1..] == ts[2..]; }
  }
}
