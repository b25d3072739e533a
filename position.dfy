/** Board coordinates and their text form: escampe/Position.java.
    A cell token is a column letter followed by a 1-based row number: "C3" is row 2, column 2. */
module Position {

  /** A cell, 0-based. The fields are unbounded integers because `fromString` does no range
      check: "G1" or "A0" decode to cells off the 6x6 board. */
  datatype Pos = Pos(row: int, col: int)

  predicate IsDigit(ch: char) { '0' <= ch <= '9' }

  predicate IsDigits(s: string) { forall i :: 0 <= i < |s| ==> IsDigit(s[i]) }

  function DigitValue(ch: char): (d: nat)
    requires IsDigit(ch)
    ensures d < 10
  {
    ch as int - '0' as int
  }

  function DigitChar(d: nat): (ch: char)
    requires d < 10
    ensures IsDigit(ch) && DigitValue(ch) == d
  {
    ('0' as int + d) as char
  }

  /** The value of a string of decimal digits, as Integer.parseInt reads it. */
  function DigitsValue(s: string): nat
    requires IsDigits(s)
    decreases |s|
  {
    if |s| == 0 then 0 else 10 * DigitsValue(s[..|s| - 1]) + DigitValue(s[|s| - 1])
  }

  /** The decimal form of a non-negative int, as Java's string concatenation writes it. */
  function Decimal(n: nat): (s: string)
    ensures |s| >= 1 && IsDigits(s)
    decreases n
  {
    if n < 10 then [DigitChar(n)] else Decimal(n / 10) + [DigitChar(n % 10)]
  }

  /** A digit string without superfluous leading zeros: the form `Decimal` produces. */
  predicate Canonical(s: string) { |s| >= 1 && IsDigits(s) && (|s| == 1 || s[0] != '0') }

  lemma {:induction false} DecimalThenValue(n: nat)
    ensures DigitsValue(Decimal(n)) == n
    decreases n
  {
    if n >= 10 {
      var s := Decimal(n);
      assert s[..|s| - 1] == Decimal(n / 10);
      DecimalThenValue(n / 10);
    }
  }

  lemma {:induction false} DecimalIsCanonical(n: nat)
    ensures Canonical(Decimal(n))
    ensures n >= 10 ==> |Decimal(n)| >= 2
    decreases n
  {
    if n >= 10 {
      DecimalIsCanonical(n / 10);
      if n / 10 < 10 {
        assert Decimal(n)[0] == DigitChar(n / 10);
      } else {
        assert Decimal(n)[0] == Decimal(n / 10)[0];
      }
    }
  }

  lemma {:induction false} LeadingDigitPositive(s: string)
    requires Canonical(s) && s[0] != '0'
    ensures DigitsValue(s) >= 1
    ensures |s| >= 2 ==> DigitsValue(s) >= 10
    decreases |s|
  {
    if |s| >= 2 {
      var p := s[..|s| - 1];
      assert p[0] == s[0];
      LeadingDigitPositive(p);
    }
  }

  lemma {:induction false} ValueThenDecimal(s: string)
    requires Canonical(s)
    ensures Decimal(DigitsValue(s)) == s
    decreases |s|
  {
    if |s| >= 2 {
      var p := s[..|s| - 1];
      assert p[0] == s[0];
      LeadingDigitPositive(s);
      LeadingDigitPositive(p);
      ValueThenDecimal(p);
      var n := DigitsValue(s);
      assert n / 10 == DigitsValue(p) && n % 10 == DigitValue(s[|s| - 1]);
      assert s == p + [s[|s| - 1]];
    }
  }

  /** What Position.fromString accepts without throwing: a first character and a digit
      string. */
  predicate Parsable(s: string) { |s| >= 2 && IsDigits(s[1..]) }

  /** Position.fromString: column from the letter, row from the number minus one. No range
      check is made. */
  function FromString(s: string): (p: Pos)
    requires Parsable(s)
    ensures p.row >= -1
  {
    Pos(DigitsValue(s[1..]) - 1, s[0] as int - 'A' as int)
  }

  /** The cells Position.toString can print as a letter A..Z followed by a number. */
  predicate Printable(p: Pos) { 0 <= p.col < 26 && p.row >= -1 }

  /** Position.toString: the column letter 'A' + col followed by the decimal row + 1. */
  function ToString(p: Pos): (s: string)
    requires Printable(p)
    ensures Parsable(s)
  {
    [('A' as int + p.col) as char] + Decimal(p.row + 1)
  }

  /** The static Position.toString(row, col) builds a Position and prints it. */
  function CellName(row: int, col: int): (s: string)
    requires Printable(Pos(row, col))
    ensures s == ToString(Pos(row, col))
    ensures s[0] == ('A' as int + col) as char && DigitsValue(s[1..]) == row + 1
  {
    DecimalThenValue(row + 1);
    ToString(Pos(row, col))
  }

  /** Position.equals on two positions: both coordinates agree. */
  predicate Equals(p: Pos, q: Pos)
    ensures Equals(p, q) <==> p == q
  {
    p.row == q.row && p.col == q.col
  }

  lemma EqualsIsEquivalence(p: Pos, q: Pos, r: Pos)
    ensures Equals(p, p)
    ensures Equals(p, q) == Equals(q, p)
    ensures Equals(p, q) && Equals(q, r) ==> Equals(p, r)
  {
  }

  /** Printing a cell and reading the token back gives the same cell. */
  lemma FromStringOfToString(p: Pos)
    requires Printable(p)
    ensures FromString(ToString(p)) == p
  {
    var s := ToString(p);
    assert s[1..] == Decimal(p.row + 1);
    DecimalThenValue(p.row + 1);
  }

  /** A token whose number is written without leading zeros is printed back unchanged. */
  lemma ToStringOfFromString(s: string)
    requires Parsable(s) && 'A' <= s[0] <= 'Z' && Canonical(s[1..]) && s[1] != '0'
    ensures Printable(FromString(s)) && ToString(FromString(s)) == s
  {
    var d := s[1..];
    assert d[0] == s[1];
    LeadingDigitPositive(d);
    ValueThenDecimal(d);
    assert s == [s[0]] + d;
  }

  /** Every cell of the 6x6 board prints as a two-character token "A1".."F6". */
  lemma BoardCellToken(p: Pos)
    requires 0 <= p.row < 6 && 0 <= p.col < 6
    ensures Printable(p)
    ensures ToString(p) == [('A' as int + p.col) as char, ('1' as int + p.row) as char]
    ensures 'A' <= ToString(p)[0] <= 'F' && '1' <= ToString(p)[1] <= '6'
  {
  }

  lemma ExampleC3()
    ensures FromString("C3") == Pos(2, 2)
    ensures ToString(Pos(2, 2)) == "C3"
  {
    assert "C3"[1..] == "3";
  }
}
