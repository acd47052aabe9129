/** The solver inside SudokuBot.run(): the loop that derives the fixed-cell mask, the
    backtracking loop over the 9 x 9 board it mutates in place, and the helpers check
    and getPos.  Each method is proved against the pure model in Backtracking. */
module SudokuBot {
  import opened Sudoku
  import opened Backtracking

  predicate IsBoard<T>(a: array2<T>)
  {
    a.Length0 == BoardSize && a.Length1 == BoardSize
  }

  /** The row-major view of a board: cell n is a[n / 9][n % 9]. */
  ghost function Flatten<T>(a: array2<T>): (s: seq<T>)
    reads a
    requires IsBoard(a)
    ensures |s| == CellCount
    ensures forall n :: 0 <= n < CellCount ==> s[n] == a[Row(n), Col(n)]
    ensures forall i, j {:trigger s[Index(i, j)]} :: 0 <= i < BoardSize && 0 <= j < BoardSize ==>
      s[Index(i, j)] == a[i, j]
  {
    seq(CellCount, n requires 0 <= n < CellCount reads a => a[Row(n), Col(n)])
  }

  /** A row-major view that differs from s at most in cell (i, j) is s updated there. */
  lemma OneCellChanged(s: seq<int>, t: seq<int>, i: int, j: int)
    requires |s| == CellCount && |t| == CellCount && 0 <= i < BoardSize && 0 <= j < BoardSize
    requires forall r, c :: 0 <= r < BoardSize && 0 <= c < BoardSize && (r != i || c != j) ==>
      t[Index(r, c)] == s[Index(r, c)]
    ensures t == s[Index(i, j) := t[Index(i, j)]]
  {
    RowCol(i, j);
    forall n | 0 <= n < CellCount
      ensures t[n] == s[Index(i, j) := t[Index(i, j)]][n]
    {
      CellOfCursor(n);
      assert t[Index(Row(n), Col(n))] == s[Index(i, j) := t[Index(i, j)]][Index(Row(n), Col(n))];
    }
  }

  /** The mask loop of run(): isFixed[i][j] is set exactly where the board is nonzero;
      every other entry keeps Java's default false. */
  method FixedMask(board: array2<int>) returns (isFixed: array2<bool>)
    requires IsBoard(board)
    ensures fresh(isFixed) && IsBoard(isFixed)
    ensures forall i, j :: 0 <= i < BoardSize && 0 <= j < BoardSize ==>
      (isFixed[i, j] <==> board[i, j] != 0)
    ensures Flatten(isFixed) == Mask(Flatten(board))
  {
    isFixed := new bool[BoardSize, BoardSize]((_, _) => false);
    for i := 0 to BoardSize
      invariant forall i', j' :: 0 <= i' < BoardSize && 0 <= j' < BoardSize ==>
        (isFixed[i', j'] <==> i' < i && board[i', j'] != 0)
    {
      for j := 0 to BoardSize
        invariant forall i', j' :: 0 <= i' < BoardSize && 0 <= j' < BoardSize ==>
          (isFixed[i', j'] <==> (i' < i || (i' == i && j' < j)) && board[i', j'] != 0)
      {
        if board[i, j] != 0 {
          isFixed[i, j] := true;
        }
      }
    }
    assert forall n :: 0 <= n < CellCount ==> Flatten(isFixed)[n] == Mask(Flatten(board))[n];
  }

  /** The first loop of check: scan row i and column j together, stopping at the first
      other cell that holds arr[i][j]. */
  method ScanLines(i: int, j: int, arr: array2<int>) returns (ok: bool)
    requires IsBoard(arr) && 0 <= i < BoardSize && 0 <= j < BoardSize
    ensures ok <==> RowColumnClear(Flatten(arr), i, j)
    ensures !ok ==> !Consistent(Flatten(arr), Index(i, j))
  {
    ghost var s := Flatten(arr);
    for k := 0 to BoardSize
      invariant forall k' :: 0 <= k' < k ==>
        (k' == j || arr[i, k'] != arr[i, j]) && (k' == i || arr[k', j] != arr[i, j])
    {
      if (k != j && arr[i, k] == arr[i, j]) || (k != i && arr[k, j] == arr[i, j]) {
        assert s[Index(i, k)] == arr[i, k] && s[Index(k, j)] == arr[k, j] && s[Index(i, j)] == arr[i, j];
        LineClash(s, i, j, k);
        return false;
      }
    }
    return true;
  }

  /** The second loop of check: scan the block of (i, j), whose top-left cell is
      (i / LEVEL * LEVEL, j / LEVEL * LEVEL), row by row. */
  method ScanBlock(i: int, j: int, arr: array2<int>) returns (ok: bool)
    requires IsBoard(arr) && 0 <= i < BoardSize && 0 <= j < BoardSize
    ensures ok <==> BlockClear(Flatten(arr), i, j)
    ensures !ok ==> !Consistent(Flatten(arr), Index(i, j))
  {
    ghost var s := Flatten(arr);
    var i0, j0 := i / Level * Level, j / Level * Level;
    for k := 0 to Level
      invariant forall r, c :: i0 <= r < i0 + k && j0 <= c < j0 + Level ==>
        (r == i && c == j) || arr[r, c] != arr[i, j]
    {
      for l := 0 to Level
        invariant forall r, c :: i0 <= r <= i0 + k && j0 <= c < j0 + Level && (r < i0 + k || c < j0 + l) ==>
          (r == i && c == j) || arr[r, c] != arr[i, j]
      {
        if (i0 + k != i || j0 + l != j) && arr[i0 + k, j0 + l] == arr[i, j] {
          assert s[Index(i0 + k, j0 + l)] == arr[i0 + k, j0 + l] && s[Index(i, j)] == arr[i, j];
          BlockClash(s, i, j, i0 + k, j0 + l);
          return false;
        }
      }
    }
    return true;
  }

  /** check: no other cell in row i, column j or the block of (i, j) holds arr[i][j]. */
  method Check(i: int, j: int, arr: array2<int>) returns (ok: bool)
    requires IsBoard(arr) && 0 <= i < BoardSize && 0 <= j < BoardSize
    ensures ok <==> Consistent(Flatten(arr), Index(i, j))
  {
    ok := ScanLines(i, j, arr);
    if ok {
      ok := ScanBlock(i, j, arr);
      if ok {
        ScansClear(Flatten(arr), i, j);
      }
    }
  }

  /** The retreat of run(): step the cursor back until it reaches a cell that is not
      fixed.  Where the source steps past the first cell, getPos(-1) is (0, -1) and
      isFixed[0][-1] fails; this returns -1 there instead. */
  method Retreat(isFixed: array2<bool>, pos: int) returns (q: int)
    requires IsBoard(isFixed) && 0 <= pos < CellCount
    ensures q == PrevFree(Flatten(isFixed), pos - 1)
  {
    ghost var f := Flatten(isFixed);
    q := pos;
    while true
      invariant 0 <= q <= pos
      invariant PrevFree(f, q - 1) == PrevFree(f, pos - 1)
      decreases q
    {
      q := q - 1;
      if q < 0 {
        return;
      }
      var x := GetPos(q);
      if !isFixed[x.0, x.1] {
        return;
      }
    }
  }

  /** One turn of the backtracking loop of run() at cursor pos: a fixed cell is skipped;
      otherwise the cell is incremented, and on overflow it is reset and the cursor
      retreats, on a consistent digit the cursor advances, and on a conflict it stays.
      The new board and cursor are those of Step. */
  method Advance(board: array2<int>, isFixed: array2<bool>, pos: int) returns (next: int)
    requires IsBoard(board) && IsBoard(isFixed) && 0 <= pos < CellCount
    modifies board
    ensures (Flatten(board), next) == Step(Flatten(isFixed), old(Flatten(board)), pos)
  {
    ghost var s := Flatten(board);
    next := pos;
    var x := GetPos(pos);
    if !isFixed[x.0, x.1] {
      board[x.0, x.1] := board[x.0, x.1] + 1;
      OneCellChanged(s, Flatten(board), x.0, x.1);
      if board[x.0, x.1] > BoardSize {
        board[x.0, x.1] := 0;
        OneCellChanged(s, Flatten(board), x.0, x.1);
        next := Retreat(isFixed, pos);
      } else {
        var ok := Check(x.0, x.1, board);
        if ok {
          next := pos + 1;
        }
      }
    } else {
      next := pos + 1;
    }
  }

  /** The backtracking loop of run(), from cursor 0 until the cursor passes the last
      cell.  Where the source's retreat runs off the front of the board (and fails on
      isFixed[0][-1]), this returns false with the board as it was given. */
  method Backtrack(board: array2<int>, isFixed: array2<bool>) returns (solved: bool)
    requires IsBoard(board) && IsBoard(isFixed)
    requires forall i, j :: 0 <= i < BoardSize && 0 <= j < BoardSize && !isFixed[i, j] ==>
      board[i, j] == 0
    modifies board
    ensures WellFormed(Flatten(isFixed), old(Flatten(board)), 0)
    ensures solved <==> Search(Flatten(isFixed), old(Flatten(board)), 0).Some?
    ensures solved ==> Flatten(board) == Search(Flatten(isFixed), old(Flatten(board)), 0).value
    ensures !solved ==> Flatten(board) == old(Flatten(board))
  {
    ghost var f, init := Flatten(isFixed), Flatten(board);
    assert WellFormed(f, init, 0);
    var pos := 0;
    while pos < CellCount
      invariant OnClues(f, init, Flatten(board), pos)
      invariant Search(f, Flatten(board), pos) == Search(f, init, 0)
      decreases Measure(f, Flatten(board), pos)
    {
      ghost var s, p0 := Flatten(board), pos;
      pos := Advance(board, isFixed, pos);
      StepKeepsSearch(f, init, s, p0);
      if pos < 0 {
        ExhaustedRestores(f, init, s, p0);
        return false;
      }
    }
    solved := true;
  }

  // ---------------------------------------------------------------------------
  // The solver with its input checked.  run() reads the board from the screen and
  // goes straight into the loop; here the board is a parameter, and two passes before
  // the loop reject what the loop would not handle.

  /** The result of Solve. */
  datatype Outcome = Solved | NoSolution | InvalidInput

  /** Every cell of the board is 0 or a digit. */
  method ValuesInRange(board: array2<int>) returns (ok: bool)
    requires IsBoard(board)
    ensures ok <==> CellsInRange(Flatten(board))
  {
    ghost var s := Flatten(board);
    for n := 0 to CellCount
      invariant forall m :: 0 <= m < n ==> 0 <= s[m] <= BoardSize
    {
      var x := GetPos(n);
      CellOfCursor(n);
      assert s[n] == board[x.0, x.1];
      if board[x.0, x.1] < 0 || board[x.0, x.1] > BoardSize {
        return false;
      }
    }
    return true;
  }

  /** Every clue passes check: no two clues clash. */
  method CluesConsistent(board: array2<int>) returns (ok: bool)
    requires IsBoard(board)
    ensures ok <==> CluesAgree(Flatten(board))
  {
    ghost var s := Flatten(board);
    for n := 0 to CellCount
      invariant forall m :: 0 <= m < n && s[m] != 0 ==> Consistent(s, m)
    {
      var x := GetPos(n);
      CellOfCursor(n);
      assert s[n] == board[x.0, x.1];
      if board[x.0, x.1] != 0 {
        ok := Check(x.0, x.1, board);
        if !ok {
          return;
        }
      }
    }
    return true;
  }

  /** The solver of run() on a given board.  InvalidInput exactly when a cell is outside
      [0, 9]; otherwise Solved, with the least solution in row-major order written into
      the board, exactly when the puzzle has a solution, and NoSolution otherwise.  The
      board is left as given unless it is solved. */
  method Solve(board: array2<int>) returns (outcome: Outcome, isFixed: array2<bool>)
    requires IsBoard(board)
    modifies board
    ensures fresh(isFixed) && IsBoard(isFixed)
    ensures Flatten(isFixed) == Mask(old(Flatten(board)))
    ensures outcome == InvalidInput <==> !CellsInRange(old(Flatten(board)))
    ensures outcome == Solved <==>
      CellsInRange(old(Flatten(board))) && exists t :: IsSolutionOf(old(Flatten(board)), t)
    ensures outcome == Solved ==> IsSolutionOf(old(Flatten(board)), Flatten(board))
    ensures outcome == Solved ==> forall t :: IsSolutionOf(old(Flatten(board)), t) ==>
      !LexBelow(Flatten(isFixed), t, Flatten(board))
    ensures outcome != Solved ==> Flatten(board) == old(Flatten(board))
  {
    ghost var init := Flatten(board);
    isFixed := FixedMask(board);
    var valid := ValuesInRange(board);
    if !valid {
      outcome := InvalidInput;
      return;
    }
    var agree := CluesConsistent(board);
    if !agree {
      ClashUnsolvable(init);
      outcome := NoSolution;
      return;
    }
    ghost var f := Flatten(isFixed);
    SearchFromClues(f, init);
    var solved := Backtrack(board, isFixed);
    if solved {
      CompletionIsSolution(init, Flatten(board));
      forall t | IsSolutionOf(init, t)
        ensures !LexBelow(f, t, Flatten(board))
      {
        SolutionIsCompletion(init, t);
      }
      outcome := Solved;
    } else {
      forall t | IsSolutionOf(init, t)
        ensures false
      {
        SolutionIsCompletion(init, t);
      }
      outcome := NoSolution;
    }
  }
}
