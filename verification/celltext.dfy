/**
 * How the text of a cell entry becomes a grid value (get_grid_values) and
 * which texts an entry accepts while the user types (validate_input). A
 * digit string here is a non-empty string of the ASCII digits 0-9; its value
 * is read in base 10, leading zeros allowed, as Python's int does.
 */
module CellText {
  import opened Grid

  predicate IsDigit(ch: char) {
    '0' <= ch <= '9'
  }

  /** str.isdigit: non-empty, and every character a digit. */
  predicate IsDigits(s: string) {
    |s| > 0 && forall k :: 0 <= k < |s| ==> IsDigit(s[k])
  }

  /** int(s) for a string of digits: the base-10 value, most significant digit first. */
  function DigitsValue(s: string): (v: nat)
    requires forall k :: 0 <= k < |s| ==> IsDigit(s[k])
  {
    if s == [] then 0
    else
      assert IsDigit(s[|s| - 1]);
      DigitsValue(s[..|s| - 1]) * 10 + (s[|s| - 1] as int - '0' as int)
  }

  function DigitChar(d: nat): (ch: char)
    requires d < 10
    ensures IsDigit(ch) && ch as int - '0' as int == d
  {
    (d + '0' as int) as char
  }

  /** str(v): the decimal numeral of `v`, without leading zeros. */
  function DecimalString(v: nat): (s: string)
    ensures IsDigits(s)
    ensures s[0] != '0' || v == 0
    decreases v
  {
    if v < 10 then [DigitChar(v)] else DecimalString(v / 10) + [DigitChar(v % 10)]
  }

  /** Reading back the numeral of `v` gives `v`. */
  lemma {:induction false} DecimalStringValue(v: nat)
    ensures DigitsValue(DecimalString(v)) == v
    decreases v
  {
    if v >= 10 {
      var s := DecimalString(v);
      DecimalStringValue(v / 10);
      assert s[..|s| - 1] == DecimalString(v / 10);
    }
  }

  /** A digit string that does not start with 0 has a positive value. */
  lemma {:induction false} LeadingDigitPositive(s: string)
    requires IsDigits(s) && s[0] != '0'
    ensures DigitsValue(s) >= 1
    decreases |s|
  {
    if |s| > 1 {
      LeadingDigitPositive(s[..|s| - 1]);
    }
  }

  /** A digit string without leading zeros is the numeral of its value. */
  lemma {:induction false} ValueDecimalString(s: string)
    requires IsDigits(s) && (s[0] != '0' || |s| == 1)
    ensures DecimalString(DigitsValue(s)) == s
    decreases |s|
  {
    if |s| > 1 {
      var front := s[..|s| - 1];
      LeadingDigitPositive(front);
      ValueDecimalString(front);
      var v := DigitsValue(s);
      assert v / 10 == DigitsValue(front) && v % 10 == (s[|s| - 1] as int - '0' as int);
    }
  }

  /**
   * The value get_grid_values reads from the text of a cell: the integer the
   * text spells when it is a digit string with value in 1..N, and 0 (empty)
   * for anything else.
   */
  function CellValue(text: string, n: int): (v: int)
    ensures v == 0 || 1 <= v <= n
  {
    if text == "" || !IsDigits(text) || !(1 <= DigitsValue(text) <= n) then 0 else DigitsValue(text)
  }

  /** A run of `z` zeros. */
  function Zeros(z: nat): (s: string)
    ensures |s| == z && forall k :: 0 <= k < z ==> s[k] == '0'
  {
    seq(z, _ => '0')
  }

  /** A run of zeros reads as 0. */
  lemma {:induction false} ZerosValue(z: nat)
    ensures DigitsValue(Zeros(z)) == 0
    decreases z
  {
    if z > 0 {
      assert Zeros(z)[..z - 1] == Zeros(z - 1);
      ZerosValue(z - 1);
    }
  }

  /** int ignores leading zeros: zeros put before a digit string leave its value unchanged. */
  lemma {:induction false} ZerosPrefixValue(z: nat, s: string)
    requires forall k :: 0 <= k < |s| ==> IsDigit(s[k])
    ensures DigitsValue(Zeros(z) + s) == DigitsValue(s)
    decreases |s|
  {
    if s == [] {
      assert Zeros(z) + s == Zeros(z);
      ZerosValue(z);
    } else {
      var t := Zeros(z) + s;
      assert t[..|t| - 1] == Zeros(z) + s[..|s| - 1];
      ZerosPrefixValue(z, s[..|s| - 1]);
    }
  }

  /** A digit string with a positive value is some zeros followed by the numeral of that value. */
  lemma {:induction false} StripLeadingZeros(s: string)
    requires IsDigits(s) && DigitsValue(s) >= 1
    ensures exists z: nat :: s == Zeros(z) + DecimalString(DigitsValue(s))
    decreases |s|
  {
    if s[0] != '0' {
      ValueDecimalString(s);
      assert s == Zeros(0) + s;
    } else {
      var t, v := s[1..], DigitsValue(s);
      assert s == Zeros(1) + t;
      ZerosPrefixValue(1, t);
      StripLeadingZeros(t);
      var z: nat :| t == Zeros(z) + DecimalString(v);
      OneMoreZero(z, DecimalString(v));
    }
  }

  lemma OneMoreZero(z: nat, w: string)
    ensures Zeros(1) + (Zeros(z) + w) == Zeros(z + 1) + w
  {
    assert Zeros(1) + Zeros(z) == Zeros(z + 1);
  }

  /**
   * The cell rule in both directions: a cell reads as the value v in 1..N
   * exactly when its text is str(v), possibly after some leading zeros.
   */
  lemma CellValueCases(text: string, n: int, v: int)
    requires v >= 1
    ensures CellValue(text, n) == v <==> v <= n && exists z: nat :: text == Zeros(z) + DecimalString(v)
  {
    if CellValue(text, n) == v {
      StripLeadingZeros(text);
    }
    if v <= n && exists z: nat :: text == Zeros(z) + DecimalString(v) {
      var z: nat :| text == Zeros(z) + DecimalString(v);
      DecimalStringValue(v);
      ZerosPrefixValue(z, DecimalString(v));
    }
  }

  /** A value in 1..N shown with str is read back as the same value. */
  lemma CellValueRoundTrip(v: int, n: int)
    requires 1 <= v <= n
    ensures CellValue(DecimalString(v), n) == v
  {
    DecimalStringValue(v);
  }

  /** A cell the reader does not reject is the numeral of its value once leading zeros are dropped. */
  lemma CellValueText(text: string, n: int)
    requires CellValue(text, n) != 0 && text[0] != '0'
    ensures text == DecimalString(CellValue(text, n))
  {
    ValueDecimalString(text);
  }

  /**
   * get_grid_values: the N x N board read from the texts of the cell
   * entries, row by row. Every cell of it is 0 or a value in 1..N.
   */
  method GetGridValues(texts: seq<seq<string>>, n: nat) returns (grid: Board)
    requires |texts| == n && forall i :: 0 <= i < n ==> |texts[i]| == n
    ensures IsSquare(grid) && |grid| == n && InRange(grid)
    ensures forall i, j :: InGrid(n, i, j) ==> grid[i][j] == CellValue(texts[i][j], n)
  {
    grid := [];
    for i := 0 to n
      invariant |grid| == i
      invariant forall a :: 0 <= a < i ==> |grid[a]| == n
      invariant forall a, c :: 0 <= a < i && 0 <= c < n ==> grid[a][c] == CellValue(texts[a][c], n)
    {
      var row := [];
      for j := 0 to n
        invariant |row| == j
        invariant forall c :: 0 <= c < j ==> row[c] == CellValue(texts[i][c], n)
      {
        row := row + [CellValue(texts[i][j], n)];
      }
      grid := grid + [row];
    }
  }

  /**
   * validate_input: an entry accepts the empty text and a digit string with
   * value in 1..9, whatever the grid size.
   */
  function ValidateInput(value: string): (ok: bool)
    ensures ok <==> value == "" || CellValue(value, 9) != 0
  {
    if value == "" then true
    else if IsDigits(value) && 1 <= DigitsValue(value) <= 9 then true
    else false
  }

  /**
   * On a grid smaller than 9 x 9 an entry accepts digits that the grid then
   * reads as an empty cell: str(v) for n < v <= 9 passes the check but reads
   * as 0.
   */
  lemma AcceptedButReadAsEmpty(n: int, v: int)
    requires 1 <= v <= 9 && n < v
    ensures ValidateInput(DecimalString(v)) && CellValue(DecimalString(v), n) == 0
  {
    DecimalStringValue(v);
  }

  /**
   * The check lets leading zeros through: any run of zeros before a digit
   * 1..9, such as "07", is accepted and read as that digit, although it is
   * not a single digit.
   */
  lemma LeadingZeroAccepted(z: nat, v: int)
    requires 1 <= v <= 9
    ensures ValidateInput(Zeros(z) + DecimalString(v)) && CellValue(Zeros(z) + DecimalString(v), 9) == v
  {
    CellValueCases(Zeros(z) + DecimalString(v), 9, v);
  }
}
