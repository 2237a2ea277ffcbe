/**
 * The arithmetic of the result table: the column widths, the dashed cell under each
 * column (`buildSeparator`), the `+`-joined row separator and the width of the rank column.
 */
module Layout {
  import opened Strings

  /** Width of each of the four score columns. */
  const COL_WIDTH_SCORE: int := 7

  /** The header labels: rank, Jaccard, Jaro, LCS, Fuzzy, File 1, File 2. */
  const HEADER_LABELS: seq<string> := ["", "Jaccard", "Jaro", "LCS", "Fuzzy", "File 1", "File 2"]

  /** `ARR_COL_WIDTHS` as initialised: rank and both path widths are filled in later. */
  const INITIAL_COL_WIDTHS: seq<int> :=
    [0, COL_WIDTH_SCORE, COL_WIDTH_SCORE, COL_WIDTH_SCORE, COL_WIDTH_SCORE, 0, 0]

  function Repeat(c: char, n: nat): (r: string)
    ensures |r| == n
    ensures forall k :: 0 <= k < n ==> r[k] == c
  {
    if n == 0 then "" else Repeat(c, n - 1) + [c]
  }

  /** `String.format("%" + width + "s", s)` for width >= 1: right-justified, padded with spaces. */
  function PadLeft(s: string, width: nat): (r: string)
    ensures |r| == if |s| >= width then |s| else width
    ensures r[|r| - |s|..] == s
    ensures forall k :: 0 <= k < |r| - |s| ==> r[k] == ' '
  {
    if |s| >= width then s else Repeat(' ', width - |s|) + s
  }

  /** `s.replaceAll(" ", "-")` with `from` = ' ' and `to` = '-': replaces every `from`. */
  function ReplaceChar(s: string, from: char, to: char): (r: string)
    ensures |r| == |s|
    ensures forall k :: 0 <= k < |s| ==> r[k] == if s[k] == from then to else s[k]
  {
    if s == [] then "" else ReplaceChar(s[..|s| - 1], from, to) + [if s[|s| - 1] == from then to else s[|s| - 1]]
  }

  /** `buildSeparator(colWidth)`: exactly colWidth + 2 dashes (a space either side of the cell). */
  function BuildSeparator(colWidth: int): (r: string)
    requires colWidth >= 0
    ensures |r| == colWidth + 2
    ensures forall k :: 0 <= k < |r| ==> r[k] == '-'
  {
    ReplaceChar(PadLeft(" ", colWidth + 2), ' ', '-')
  }

  predicate NonNegative(widths: seq<int>)
  {
    forall k :: 0 <= k < |widths| ==> widths[k] >= 0
  }

  /** The dashed cell of every column, in column order. */
  function Separators(widths: seq<int>): (r: seq<string>)
    requires NonNegative(widths)
    ensures |r| == |widths|
    ensures forall k :: 0 <= k < |widths| ==> r[k] == BuildSeparator(widths[k])
  {
    if widths == [] then [] else Separators(widths[..|widths| - 1]) + [BuildSeparator(widths[|widths| - 1])]
  }

  /** `"+" + stream(ARR_COL_WIDTHS).map(buildSeparator).collect(joining("+")) + "+"`. */
  function RowSeparator(widths: seq<int>): string
    requires NonNegative(widths)
  {
    "+" + Join(Separators(widths), "+") + "+"
  }

  /** Each column's dashes followed by a closing '+'. */
  function Cells(widths: seq<int>): string
    requires NonNegative(widths)
  {
    if widths == [] then "" else Cells(widths[..|widths| - 1]) + BuildSeparator(widths[|widths| - 1]) + "+"
  }

  /** The number of occurrences of `c` in `s`. */
  function Count(c: char, s: string): nat
  {
    if s == [] then 0 else Count(c, s[..|s| - 1]) + (if s[|s| - 1] == c then 1 else 0)
  }

  /** The total printed width of a row separator: one '+' and, per column, width + 2 dashes and a '+'. */
  function TableWidth(widths: seq<int>): int
  {
    if widths == [] then 1 else TableWidth(widths[..|widths| - 1]) + widths[|widths| - 1] + 3
  }

  lemma {:induction false} JoinedSeparatorsAreCells(widths: seq<int>)
    requires NonNegative(widths) && widths != []
    ensures Join(Separators(widths), "+") + "+" == Cells(widths)
  {
    var init, sep := widths[..|widths| - 1], BuildSeparator(widths[|widths| - 1]);
    assert NonNegative(init);
    var seps, initSeps := Separators(widths), Separators(init);
    assert seps == initSeps + [sep];
    assert seps[..|seps| - 1] == initSeps;
    assert Cells(widths) == Cells(init) + sep + "+";
    if |widths| > 1 {
      var j := Join(initSeps, "+");
      assert Join(seps, "+") == j + "+" + sep;
      JoinedSeparatorsAreCells(init);
      assert (j + "+" + sep) + "+" == (j + "+") + sep + "+";
    }
  }

  /** For at least one column, the row separator is an opening '+' and then every column's cell. */
  lemma RowSeparatorIsCells(widths: seq<int>)
    requires NonNegative(widths) && widths != []
    ensures RowSeparator(widths) == "+" + Cells(widths)
  {
    var j := Join(Separators(widths), "+");
    JoinedSeparatorsAreCells(widths);
    assert "+" + j + "+" == "+" + (j + "+");
  }

  lemma {:induction false} CountAppend(c: char, x: string, y: string)
    ensures Count(c, x + y) == Count(c, x) + Count(c, y)
    decreases |y|
  {
    if y == [] {
      assert x + y == x;
    } else {
      assert (x + y)[..|x + y| - 1] == x + y[..|y| - 1];
      CountAppend(c, x, y[..|y| - 1]);
    }
  }

  lemma {:induction false} CountDashes(n: nat)
    ensures Count('+', Repeat('-', n)) == 0
  {
    if n > 0 {
      CountDashes(n - 1);
      CountAppend('+', Repeat('-', n - 1), "-");
    }
  }

  /** Every cell holds exactly one '+', and it closes the cell. */
  lemma {:induction false} CellsShape(widths: seq<int>)
    requires NonNegative(widths)
    ensures Count('+', Cells(widths)) == |widths|
    ensures |Cells(widths)| == TableWidth(widths) - 1
    ensures widths != [] ==> Cells(widths)[|Cells(widths)| - 1] == '+'
    ensures forall k :: 0 <= k < |Cells(widths)| ==> Cells(widths)[k] in "+-"
  {
    if widths != [] {
      var init, w := widths[..|widths| - 1], widths[|widths| - 1];
      CellsShape(init);
      var sep := BuildSeparator(w);
      assert sep == Repeat('-', w + 2);
      CountDashes(w + 2);
      CountAppend('+', Cells(init), sep);
      CountAppend('+', Cells(init) + sep, "+");
    }
  }

  /**
   * A row separator over at least one column starts and ends with '+', has one '+' more
   * than there are columns, and is otherwise made of dashes; its length is the table width.
   */
  lemma RowSeparatorShape(widths: seq<int>)
    requires NonNegative(widths) && widths != []
    ensures var r := RowSeparator(widths);
      && r[0] == '+' && r[|r| - 1] == '+'
      && Count('+', r) == |widths| + 1
      && |r| == TableWidth(widths)
      && forall k :: 0 <= k < |r| ==> r[k] in "+-"
  {
    RowSeparatorIsCells(widths);
    CellsShape(widths);
    CountAppend('+', "+", Cells(widths));
    var r := RowSeparator(widths);
    forall k | 0 <= k < |r|
      ensures r[k] in "+-"
    {
      if k > 0 {
        assert r[k] == Cells(widths)[k - 1];
      }
    }
  }

  /** The seven-column table's separator has eight '+' characters. */
  lemma SevenColumnSeparator(widths: seq<int>)
    requires NonNegative(widths) && |widths| == |HEADER_LABELS|
    ensures Count('+', RowSeparator(widths)) == 8
  {
    RowSeparatorShape(widths);
  }

  /**
   * After the updates of the constructor to the widths as initialised (rank width r, both
   * path widths w), a row separator is r + 2w + 50 characters wide: 8 '+', 4 score columns
   * of 7 + 2 dashes, and r + 2 and twice w + 2 dashes.
   */
  lemma UpdatedInitialWidth(r: nat, w: nat)
    ensures var widths := INITIAL_COL_WIDTHS[0 := r][5 := w][6 := w];
      NonNegative(widths) && |RowSeparator(widths)| == r + 2 * w + 50
  {
    var widths := INITIAL_COL_WIDTHS[0 := r][5 := w][6 := w];
    assert widths == [r, 7, 7, 7, 7, w, w];
    RowSeparatorShape(widths);
    assert TableWidth([r]) == r + 4 by { assert [r][..0] == []; }
    assert TableWidth([r, 7]) == r + 14 by { assert [r, 7][..1] == [r]; }
    assert TableWidth([r, 7, 7]) == r + 24 by { assert [r, 7, 7][..2] == [r, 7]; }
    assert TableWidth([r, 7, 7, 7]) == r + 34 by { assert [r, 7, 7, 7][..3] == [r, 7, 7]; }
    assert TableWidth([r, 7, 7, 7, 7]) == r + 44 by { assert [r, 7, 7, 7, 7][..4] == [r, 7, 7, 7]; }
    assert TableWidth([r, 7, 7, 7, 7, w]) == r + w + 47 by { assert [r, 7, 7, 7, 7, w][..5] == [r, 7, 7, 7, 7]; }
    assert widths[..6] == [r, 7, 7, 7, 7, w];
  }

  predicate IsDigit(c: char)
  {
    '0' <= c <= '9'
  }

  function DigitChar(d: int): (c: char)
    requires 0 <= d < 10
    ensures IsDigit(c)
  {
    "0123456789"[d]
  }

  function DigitValue(c: char): int
    requires IsDigit(c)
  {
    c as int - '0' as int
  }

  /** The decimal digits of `m`, no leading zero: what `String.format("%.0f", m)` prints. */
  function DecimalString(m: nat): (r: string)
    ensures |r| >= 1
    ensures forall k :: 0 <= k < |r| ==> IsDigit(r[k])
    decreases m
  {
    if m < 10 then [DigitChar(m)] else DecimalString(m / 10) + [DigitChar(m % 10)]
  }

  /** The value of a string of decimal digits. */
  function ParseDecimal(s: string): nat
    requires forall k :: 0 <= k < |s| ==> IsDigit(s[k])
  {
    if s == [] then 0 else 10 * ParseDecimal(s[..|s| - 1]) + DigitValue(s[|s| - 1])
  }

  function Pow10(e: nat): nat
  {
    if e == 0 then 1 else 10 * Pow10(e - 1)
  }

  /** Reading the digits back gives the number. */
  lemma {:induction false} DecimalRoundTrip(m: nat)
    ensures ParseDecimal(DecimalString(m)) == m
    decreases m
  {
    var r := DecimalString(m);
    if m >= 10 {
      DecimalRoundTrip(m / 10);
      assert r[..|r| - 1] == DecimalString(m / 10);
    }
  }

  /** The number of digits is the exponent of the least power of ten above `m`, and 1 for 0. */
  lemma {:induction false} DecimalLength(m: nat)
    ensures m < Pow10(|DecimalString(m)|)
    ensures |DecimalString(m)| == 1 || Pow10(|DecimalString(m)| - 1) <= m
    ensures DecimalString(m)[0] != '0' || m == 0
    decreases m
  {
    if m >= 10 {
      DecimalLength(m / 10);
      var d := |DecimalString(m / 10)|;
      assert |DecimalString(m)| == d + 1;
      assert DecimalString(m)[0] == DecimalString(m / 10)[0];
    }
  }

  /** The rank column is as wide as the number n * n of ordered pairs has decimal digits. */
  function RankColumnWidth(n: nat): (w: nat)
    ensures w >= 1
    ensures n * n < Pow10(w)
    ensures w == 1 || Pow10(w - 1) <= n * n
  {
    DecimalLength(n * n);
    |DecimalString(n * n)|
  }
}
