/** The 9x9 board: its constants, the cursor-to-cell arithmetic of getPos, the
    row/column/block relation that check inspects, and what a solved board is. */
module Sudoku {
  import opened Counting

  /** BOARD_SIZE: the side of the board. */
  const BoardSize := 9
  /** LEVEL, the integer square root of BOARD_SIZE: the side of a block. */
  const Level := 3
  /** Math.pow(BOARD_SIZE, 2): the number of cells the cursor runs over. */
  const CellCount := 81

  /** Java's `/` on int: the quotient truncated toward zero. */
  function JavaDiv(a: int, b: int): int
    requires b > 0
  {
    if a >= 0 then a / b else -((-a) / b)
  }

  /** Java's `%` on int: the remainder has the sign of the dividend. */
  function JavaRem(a: int, b: int): int
    requires b > 0
  {
    a - b * JavaDiv(a, b)
  }

  /** getPos: the (row, column) of the linear cursor n, with Java's arithmetic. */
  function GetPos(n: int): (p: (int, int))
    ensures BoardSize * p.0 + p.1 == n
    ensures 0 <= n ==> p == (n / BoardSize, n % BoardSize)
    ensures 0 <= n < CellCount ==> 0 <= p.0 < BoardSize && 0 <= p.1 < BoardSize
    ensures n < 0 ==> p.0 <= 0 && -BoardSize < p.1 <= 0
  {
    (JavaDiv(n, BoardSize), JavaRem(n, BoardSize))
  }

  /** The cursor of cell (i, j) in row-major order. */
  function Index(i: int, j: int): int
  {
    BoardSize * i + j
  }

  /** Every cell of the board has exactly one cursor: getPos inverts Index. */
  lemma GetPosIndex(i: int, j: int)
    requires 0 <= i < BoardSize && 0 <= j < BoardSize
    ensures 0 <= Index(i, j) < CellCount
    ensures GetPos(Index(i, j)) == (i, j)
  {
  }

  /** Distinct cursors on the board give distinct cells. */
  lemma GetPosInjective(n: int, m: int)
    requires 0 <= n < CellCount && 0 <= m < CellCount
    requires GetPos(n) == GetPos(m)
    ensures n == m
  {
  }

  /** The cursor one before the first cell decomposes to the column -1, which is
      outside the mask: this is where the source's retreat loop fails. */
  lemma GetPosBeforeFirstCell()
    ensures GetPos(-1) == (0, -1)
  {
  }

  function Row(n: int): int { n / BoardSize }
  function Col(n: int): int { n % BoardSize }

  /** Cells n and m share a row, a column or a Level x Level block. */
  predicate SameUnit(n: int, m: int)
  {
    Row(n) == Row(m) || Col(n) == Col(m) ||
    (Row(n) / Level == Row(m) / Level && Col(n) / Level == Col(m) / Level)
  }

  /** No other cell in the row, column or block of cell n holds the value of cell n. */
  predicate Consistent(s: seq<int>, n: int)
    requires |s| == CellCount && 0 <= n < CellCount
  {
    forall m :: 0 <= m < CellCount && m != n && SameUnit(n, m) ==> s[m] != s[n]
  }

  /** Every cursor on the board is the cursor of its own row and column. */
  lemma CellOfCursor(n: int)
    requires 0 <= n
    ensures Index(Row(n), Col(n)) == n
  {
  }

  /** The first scan of check: no other cell of row i or of column j holds the value of (i, j). */
  predicate RowColumnClear(s: seq<int>, i: int, j: int)
    requires |s| == CellCount && 0 <= i < BoardSize && 0 <= j < BoardSize
  {
    forall k :: 0 <= k < BoardSize ==>
      (k == j || s[Index(i, k)] != s[Index(i, j)]) && (k == i || s[Index(k, j)] != s[Index(i, j)])
  }

  /** The second scan of check: no other cell of the block whose top-left cell is
      (i / Level * Level, j / Level * Level) holds the value of (i, j). */
  predicate BlockClear(s: seq<int>, i: int, j: int)
    requires |s| == CellCount && 0 <= i < BoardSize && 0 <= j < BoardSize
  {
    forall r, c ::
      (i / Level * Level <= r < i / Level * Level + Level &&
       j / Level * Level <= c < j / Level * Level + Level) ==>
      (r == i && c == j) || s[Index(r, c)] != s[Index(i, j)]
  }

  /** A clash found by the first scan of check: cell (i, j) is not consistent. */
  lemma LineClash(s: seq<int>, i: int, j: int, k: int)
    requires |s| == CellCount && 0 <= i < BoardSize && 0 <= j < BoardSize && 0 <= k < BoardSize
    requires (k != j && s[Index(i, k)] == s[Index(i, j)]) || (k != i && s[Index(k, j)] == s[Index(i, j)])
    ensures !Consistent(s, Index(i, j))
  {
    RowCol(i, j);
    RowCol(i, k);
    RowCol(k, j);
    var m := if k != j && s[Index(i, k)] == s[Index(i, j)] then Index(i, k) else Index(k, j);
    assert m != Index(i, j) && SameUnit(Index(i, j), m) && s[m] == s[Index(i, j)];
  }

  /** A clash found by the second scan of check: cell (i, j) is not consistent. */
  lemma BlockClash(s: seq<int>, i: int, j: int, r: int, c: int)
    requires |s| == CellCount && 0 <= i < BoardSize && 0 <= j < BoardSize
    requires i / Level * Level <= r < i / Level * Level + Level
    requires j / Level * Level <= c < j / Level * Level + Level
    requires (r != i || c != j) && s[Index(r, c)] == s[Index(i, j)]
    ensures !Consistent(s, Index(i, j))
  {
    RowCol(i, j);
    RowCol(r, c);
    var m := Index(r, c);
    assert m != Index(i, j) && SameUnit(Index(i, j), m) && s[m] == s[Index(i, j)];
  }

  /** When neither scan of check finds a clash, cell (i, j) is consistent: the scans
      visit every peer of (i, j). */
  lemma ScansClear(s: seq<int>, i: int, j: int)
    requires |s| == CellCount && 0 <= i < BoardSize && 0 <= j < BoardSize
    requires RowColumnClear(s, i, j) && BlockClear(s, i, j)
    ensures Consistent(s, Index(i, j))
  {
    var n := Index(i, j);
    RowCol(i, j);
    forall m | 0 <= m < CellCount && m != n && SameUnit(n, m)
      ensures s[m] != s[n]
    {
      CellOfCursor(m);
      if Row(m) == i {
        assert s[Index(i, Col(m))] != s[n];
      } else if Col(m) == j {
        assert s[Index(Row(m), j)] != s[n];
      } else {
        assert s[Index(Row(m), Col(m))] != s[n];
      }
    }
  }

  /** A solved board: every cell holds a digit and none repeats in a row, column or block. */
  predicate IsValidSudoku(s: seq<int>)
  {
    |s| == CellCount &&
    forall n :: 0 <= n < CellCount ==> 1 <= s[n] <= BoardSize && Consistent(s, n)
  }

  /** The clue mask: a cell is fixed iff its initial value is nonzero. */
  function Mask(init: seq<int>): seq<bool>
  {
    seq(|init|, n requires 0 <= n < |init| => init[n] != 0)
  }

  /** Every clue of init is kept in s. */
  predicate KeepsClues(f: seq<bool>, init: seq<int>, s: seq<int>)
    requires |f| == CellCount && |init| == CellCount && |s| == CellCount
  {
    forall n :: 0 <= n < CellCount && f[n] ==> s[n] == init[n]
  }

  /** t is a solution of the puzzle init. */
  predicate IsSolutionOf(init: seq<int>, t: seq<int>)
  {
    |init| == CellCount && IsValidSudoku(t) && KeepsClues(Mask(init), init, t)
  }

  /** Every cell holds 0 (empty) or a digit. */
  predicate CellsInRange(s: seq<int>)
  {
    forall n :: 0 <= n < |s| ==> 0 <= s[n] <= BoardSize
  }

  /** No clue of init repeats in a row, column or block: the clues do not contradict
      each other. */
  predicate CluesAgree(init: seq<int>)
    requires |init| == CellCount
  {
    forall n :: 0 <= n < CellCount && init[n] != 0 ==> Consistent(init, n)
  }

  /** Two clues that clash leave the puzzle without a solution. */
  lemma ClashUnsolvable(init: seq<int>)
    requires |init| == CellCount && !CluesAgree(init)
    ensures forall t :: !IsSolutionOf(init, t)
  {
    var n :| 0 <= n < CellCount && init[n] != 0 && !Consistent(init, n);
    var m :| 0 <= m < CellCount && m != n && SameUnit(n, m) && init[m] == init[n];
  }

  /** The three kinds of group that must each hold every digit once. */
  datatype Group = RowGroup(r: int) | ColumnGroup(c: int) | BlockGroup(b: int)

  predicate ValidGroup(g: Group)
  {
    match g
    case RowGroup(r) => 0 <= r < BoardSize
    case ColumnGroup(c) => 0 <= c < BoardSize
    case BlockGroup(b) => 0 <= b < BoardSize
  }

  /** The k-th cell of group g: left to right in a row, top to bottom in a column,
      row-major inside a block (blocks are numbered row-major too). */
  function GroupCell(g: Group, k: int): (n: int)
    requires ValidGroup(g) && 0 <= k < BoardSize
    ensures 0 <= n < CellCount
  {
    match g
    case RowGroup(r) => Index(r, k)
    case ColumnGroup(c) => Index(k, c)
    case BlockGroup(b) => Index(b / Level * Level + k / Level, b % Level * Level + k % Level)
  }

  /** Row and column of the cell at (i, j). */
  lemma RowCol(i: int, j: int)
    requires 0 <= j < BoardSize
    ensures Row(Index(i, j)) == i && Col(Index(i, j)) == j
  {
  }

  /** Splitting Level * a + x with 0 <= x < Level. */
  lemma DivLevel(a: int, x: int)
    requires 0 <= x < Level
    ensures (Level * a + x) / Level == a && (Level * a + x) % Level == x
  {
  }

  /** The nine cells of a group are distinct and pairwise share that group. */
  lemma GroupCellsArePeers(g: Group, k1: int, k2: int)
    requires ValidGroup(g) && 0 <= k1 < BoardSize && 0 <= k2 < BoardSize
    ensures k1 != k2 ==> GroupCell(g, k1) != GroupCell(g, k2)
    ensures SameUnit(GroupCell(g, k1), GroupCell(g, k2))
  {
    match g
    case RowGroup(r) =>
      RowCol(r, k1);
      RowCol(r, k2);
    case ColumnGroup(c) =>
      RowCol(k1, c);
      RowCol(k2, c);
    case BlockGroup(b) =>
      BlockCellPosition(b, k1);
      BlockCellPosition(b, k2);
      DivLevel(b / Level, k1 / Level);
      DivLevel(b / Level, k2 / Level);
      DivLevel(b % Level, k1 % Level);
      DivLevel(b % Level, k2 % Level);
  }

  /** The k-th cell of block b lies k / Level rows below and k % Level columns right of
      the block's top-left cell. */
  lemma BlockCellPosition(b: int, k: int)
    requires 0 <= b < BoardSize && 0 <= k < BoardSize
    ensures Row(GroupCell(BlockGroup(b), k)) == Level * (b / Level) + k / Level
    ensures Col(GroupCell(BlockGroup(b), k)) == Level * (b % Level) + k % Level
  {
    RowCol(Level * (b / Level) + k / Level, Level * (b % Level) + k % Level);
  }

  /** In a solved board every row, column and block holds each digit exactly once. */
  lemma {:induction false} EachDigitOnce(s: seq<int>, g: Group, d: int)
    requires IsValidSudoku(s) && ValidGroup(g) && 1 <= d <= BoardSize
    ensures exists k :: 0 <= k < BoardSize && s[GroupCell(g, k)] == d
    ensures forall k1, k2 ::
      0 <= k1 < BoardSize && 0 <= k2 < BoardSize && s[GroupCell(g, k1)] == d && s[GroupCell(g, k2)] == d
      ==> k1 == k2
  {
    var v := seq(BoardSize, k requires 0 <= k < BoardSize => s[GroupCell(g, k)]);
    forall k1, k2 | 0 <= k1 < k2 < BoardSize
      ensures v[k1] != v[k2]
    {
      GroupCellsArePeers(g, k1, k2);
    }
    forall k1, k2 | 0 <= k1 < BoardSize && 0 <= k2 < BoardSize &&
      s[GroupCell(g, k1)] == d && s[GroupCell(g, k2)] == d
      ensures k1 == k2
    {
      GroupCellsArePeers(g, k1, k2);
    }
    AllValuesTaken(v, 1, BoardSize + 1);
    assert d in v;
    var k :| 0 <= k < |v| && v[k] == d;
    assert s[GroupCell(g, k)] == d;
  }

  /** The digit at (r, c) of a fixed solved board: each row is the one above shifted by
      three places, and every third row by one place more. */
  function WitnessDigit(r: int, c: int): int
  {
    (Level * (r % Level) + r / Level + c) % BoardSize + 1
  }

  /** That board in row-major order. */
  function Witness(): (w: seq<int>)
    ensures |w| == CellCount
  {
    seq(CellCount, n => WitnessDigit(Row(n), Col(n)))
  }

  /** Two distinct cells of the witness that share a row, a column or a block hold
      different digits. */
  lemma WitnessPeersDiffer(r: int, c: int, r2: int, c2: int)
    requires 0 <= r < BoardSize && 0 <= c < BoardSize && 0 <= r2 < BoardSize && 0 <= c2 < BoardSize
    requires r != r2 || c != c2
    requires r == r2 || c == c2 || (r / Level == r2 / Level && c / Level == c2 / Level)
    ensures WitnessDigit(r, c) != WitnessDigit(r2, c2)
  {
    var a, p, a2, p2 := r % Level, r / Level, r2 % Level, r2 / Level;
    assert 0 <= a < Level && 0 <= p < Level && 0 <= a2 < Level && 0 <= p2 < Level;
    assert r == Level * p + a && r2 == Level * p2 + a2;
    var x, y := Level * a + p + c, Level * a2 + p2 + c2;
    if r == r2 {
      assert x - y == c - c2;
    } else if c == c2 {
      assert x - y == Level * (a - a2) + (p - p2);
    } else {
      var b, b2 := c % Level, c2 % Level;
      assert c - c2 == b - b2 && 0 <= b < Level && 0 <= b2 < Level;
      assert x - y == Level * (a - a2) + (b - b2);
    }
    DigitsDiffer(x, y);
  }

  /** Two different naturals less than BoardSize apart leave different remainders. */
  lemma DigitsDiffer(x: int, y: int)
    requires 0 <= x && 0 <= y && x != y && -BoardSize < x - y < BoardSize
    ensures x % BoardSize != y % BoardSize
  {
  }

  /** The empty puzzle has a solution. */
  lemma EmptyGridSolvable()
    ensures IsSolutionOf(seq(CellCount, n => 0), Witness())
  {
    var w := Witness();
    forall n | 0 <= n < CellCount
      ensures 1 <= w[n] <= BoardSize && Consistent(w, n)
    {
      forall m | 0 <= m < CellCount && m != n && SameUnit(n, m)
        ensures w[m] != w[n]
      {
        CellOfCursor(n);
        CellOfCursor(m);
        WitnessPeersDiffer(Row(n), Col(n), Row(m), Col(m));
      }
    }
  }
}
