/** Spreadsheet cell values as the searcher sees them after a values-only read,
    and Python's `str()` conversion of them. */
module Cells {

  /** A cell of a worksheet row: text, a whole number, a boolean or an empty cell. */
  datatype Cell = Str(text: string) | Int(number: int) | Bool(flag: bool) | Null

  /** A worksheet row, as a tuple of cells. */
  type Row = seq<Cell>

  predicate IsDigit(c: char) {
    '0' <= c <= '9'
  }

  function DigitChar(d: nat): (c: char)
    requires d < 10
    ensures IsDigit(c) && c as int - '0' as int == d
  {
    (d + '0' as int) as char
  }

  /** Decimal digits of `n`, most significant first, without leading zeros. */
  function NatText(n: nat): (s: string)
    ensures |s| >= 1
    ensures forall i :: 0 <= i < |s| ==> IsDigit(s[i])
    ensures s[0] == '0' ==> n == 0
  {
    if n < 10 then [DigitChar(n)] else NatText(n / 10) + [DigitChar(n % 10)]
  }

  /** The number a string of decimal digits denotes. */
  function DigitsValue(s: string): nat
    requires forall i :: 0 <= i < |s| ==> IsDigit(s[i])
  {
    if s == [] then 0
    else
      assert IsDigit(s[|s| - 1]);
      DigitsValue(s[..|s| - 1]) * 10 + (s[|s| - 1] as int - '0' as int)
  }

  /** Python's `str()` of an integer: an optional minus sign, then decimal digits. */
  function IntText(i: int): (s: string)
    ensures |s| >= 1
    ensures (s[0] == '-') == (i < 0)
  {
    if i < 0 then "-" + NatText(-i) else NatText(i)
  }

  /** Reads back the text `IntText` writes. */
  function IntValue(s: string): int
    requires |s| >= 1
    requires forall i :: 1 <= i < |s| ==> IsDigit(s[i])
    requires s[0] == '-' || IsDigit(s[0])
  {
    if s[0] == '-' then -(DigitsValue(s[1..]) as int) else DigitsValue(s)
  }

  lemma {:induction false} NatTextRoundTrip(n: nat)
    ensures DigitsValue(NatText(n)) == n
  {
    if n >= 10 {
      var s := NatText(n);
      assert s[..|s| - 1] == NatText(n / 10);
      NatTextRoundTrip(n / 10);
    }
  }

  /** `str()` of an integer loses nothing: the number can be read back from it. */
  lemma IntTextRoundTrip(i: int)
    ensures IntValue(IntText(i)) == i
  {
    var s := IntText(i);
    if i < 0 {
      assert s[1..] == NatText(-i);
      NatTextRoundTrip(-i);
    } else {
      NatTextRoundTrip(i);
    }
  }

  /** Python's `str()` of a cell value. */
  function ToStr(c: Cell): (s: string)
    ensures c.Str? ==> s == c.text
    ensures s == "" <==> c == Str("")
  {
    match c
    case Str(t) => t
    case Int(i) => IntText(i)
    case Bool(b) => if b then "True" else "False"
    case Null => "None"
  }
}
