/** The backtracking loop of SudokuBot.run() as a pure state machine.

    The board is viewed row-major: cell n of the sequence s is board[n / 9][n % 9],
    and f[n] says whether that cell is a clue.  One turn of the source's while loop is
    Step; the whole loop is Search.  The lemmas below prove that Search stops, never
    touches a clue, and returns the lexicographically least way of filling the empty
    cells consistently, or None exactly when there is no such filling. */
module Backtracking {
  import opened Sudoku

  datatype Option<T> = None | Some(value: T)

  /** The shape of the search state at the head of the loop: cells before the cursor
      hold digits, cells after it are still empty, every empty-or-guessed cell is in
      [0, BoardSize]. */
  predicate WellFormed(f: seq<bool>, s: seq<int>, pos: int)
  {
    |f| == CellCount && |s| == CellCount && 0 <= pos <= CellCount &&
    (forall n :: 0 <= n < CellCount && !f[n] ==> 0 <= s[n] <= BoardSize) &&
    (forall n :: 0 <= n < pos && !f[n] ==> 1 <= s[n]) &&
    (forall n :: pos < n < CellCount && !f[n] ==> s[n] == 0)
  }

  /** The do-while retreat: the nearest cell at or before p that is not fixed, or -1
      when every cell from 0 to p is fixed. */
  function PrevFree(f: seq<bool>, p: int): (q: int)
    requires -1 <= p < |f|
    ensures -1 <= q <= p
    ensures 0 <= q ==> !f[q]
    ensures forall n :: q < n <= p ==> f[n]
    decreases p + 1
  {
    if p < 0 then -1
    else if f[p] then PrevFree(f, p - 1)
    else p
  }

  /** One turn of the loop at cursor pos: skip a fixed cell; otherwise try the next
      digit, and on overflow reset the cell and retreat, on a consistent digit advance,
      and on a conflict stay. A returned cursor of -1 is the retreat past the first cell. */
  function Step(f: seq<bool>, s: seq<int>, pos: int): (r: (seq<int>, int))
    requires |f| == CellCount && |s| == CellCount && 0 <= pos < CellCount
    ensures |r.0| == CellCount && -1 <= r.1 <= pos + 1
    ensures forall n :: 0 <= n < CellCount && (n != pos || f[n]) ==> r.0[n] == s[n]
  {
    if f[pos] then (s, pos + 1)
    else
      var v := s[pos] + 1;
      if v > BoardSize then (s[pos := 0], PrevFree(f, pos - 1))
      else if Consistent(s[pos := v], pos) then (s[pos := v], pos + 1)
      else (s[pos := v], pos)
  }

  // ---------------------------------------------------------------------------
  // Termination.  The state (s, pos) is read as a word of CellCount digits: a cell
  // before the cursor counts 2 * value (a fixed one 2), the cursor cell
  // 2 * value + 1 (a fixed one 1), a cell after the cursor 0.  Every step makes this
  // word lexicographically larger, so the complement word, read as a number in base
  // Radix, gets smaller.

  const Radix := 2 * BoardSize + 2

  function Digit(f: seq<bool>, s: seq<int>, pos: int, n: int): int
    requires |f| == CellCount && |s| == CellCount && 0 <= n < CellCount
  {
    if n < pos then (if f[n] then 2 else 2 * s[n])
    else if n == pos then (if f[n] then 1 else 2 * s[n] + 1)
    else 0
  }

  /** The complement word of the state. */
  function Remaining(f: seq<bool>, s: seq<int>, pos: int): (ds: seq<int>)
    requires WellFormed(f, s, pos)
    ensures |ds| == CellCount
    ensures forall n :: 0 <= n < CellCount ==> 0 <= ds[n] < Radix
  {
    seq(CellCount, n requires 0 <= n < CellCount => Radix - 1 - Digit(f, s, pos, n))
  }

  /** The number a word of digits spells in base Radix, most significant digit first. */
  function Value(ds: seq<int>): (v: int)
    ensures (forall k :: 0 <= k < |ds| ==> 0 <= ds[k]) ==> 0 <= v
  {
    if |ds| == 0 then 0 else Value(ds[..|ds| - 1]) * Radix + ds[|ds| - 1]
  }

  /** A word that is lexicographically smaller spells a smaller number. */
  lemma {:induction false} ValueIncreasing(a: seq<int>, b: seq<int>, k: int)
    requires |a| == |b| && 0 <= k < |a|
    requires forall n :: 0 <= n < |a| ==> 0 <= a[n] < Radix && 0 <= b[n] < Radix
    requires forall n :: 0 <= n < k ==> a[n] == b[n]
    requires a[k] < b[k]
    ensures Value(a) < Value(b)
  {
    var last := |a| - 1;
    var va, vb := Value(a[..last]), Value(b[..last]);
    assert Value(a) == va * Radix + a[last] && Value(b) == vb * Radix + b[last];
    if k == last {
      assert a[..last] == b[..last];
    } else {
      ValueIncreasing(a[..last], b[..last], k);
      assert va * Radix + Radix <= vb * Radix;
    }
  }

  /** The termination measure of the search. */
  function Measure(f: seq<bool>, s: seq<int>, pos: int): (m: int)
    requires WellFormed(f, s, pos)
    ensures 0 <= m
  {
    Value(Remaining(f, s, pos))
  }

  /** A step that does not fall off the front keeps the state's shape and lowers the
      measure. */
  lemma StepProgress(f: seq<bool>, s: seq<int>, pos: int)
    requires WellFormed(f, s, pos) && pos < CellCount && Step(f, s, pos).1 >= 0
    ensures WellFormed(f, Step(f, s, pos).0, Step(f, s, pos).1)
    ensures Measure(f, Step(f, s, pos).0, Step(f, s, pos).1) < Measure(f, s, pos)
  {
    var next := Step(f, s, pos);
    var overflow := !f[pos] && s[pos] + 1 > BoardSize;
    var k := if overflow then next.1 else pos;
    assert WellFormed(f, next.0, next.1);
    var a, b := Remaining(f, next.0, next.1), Remaining(f, s, pos);
    assert forall n :: 0 <= n < k ==> a[n] == b[n];
    assert a[k] < b[k];
    ValueIncreasing(a, b, k);
  }

  /** The whole backtracking loop, started at cursor pos: Some(board) when the cursor
      reaches CellCount, None when it retreats past the first cell. */
  function Search(f: seq<bool>, s: seq<int>, pos: int): (r: Option<seq<int>>)
    requires WellFormed(f, s, pos)
    ensures r.Some? ==> |r.value| == CellCount
    ensures r.Some? ==> forall n :: 0 <= n < CellCount && f[n] ==> r.value[n] == s[n]
    ensures r.Some? ==> forall n :: 0 <= n < CellCount && !f[n] ==> 1 <= r.value[n] <= BoardSize
    decreases Measure(f, s, pos)
  {
    if pos == CellCount then Some(s)
    else
      var next := Step(f, s, pos);
      if next.1 < 0 then None
      else
        StepProgress(f, s, pos);
        Search(f, next.0, next.1)
  }

  // ---------------------------------------------------------------------------
  // Correctness.

  /** What the search is looking for: the clues of init kept, and every other cell a
      digit that check accepts.  The clues are not compared with each other. */
  predicate IsCompletion(f: seq<bool>, init: seq<int>, t: seq<int>)
  {
    |f| == CellCount && |init| == CellCount && |t| == CellCount &&
    KeepsClues(f, init, t) &&
    forall n :: 0 <= n < CellCount && !f[n] ==> 1 <= t[n] <= BoardSize && Consistent(t, n)
  }

  /** Every guessed cell before the cursor conflicts with no cell except, possibly, the
      cursor cell while it is being tried. */
  predicate ConsistentBefore(f: seq<bool>, s: seq<int>, pos: int)
    requires |f| == CellCount && |s| == CellCount
  {
    forall n, m ::
      0 <= n < pos && n < CellCount && !f[n] && 0 <= m < CellCount && m != n &&
      SameUnit(n, m) && (m == pos ==> f[m])
      ==> s[m] != s[n]
  }

  /** t and s agree on the guessed cells before k. */
  predicate AgreeBelow(f: seq<bool>, t: seq<int>, s: seq<int>, k: int)
    requires |f| == CellCount && |t| == CellCount && |s| == CellCount && k <= CellCount
  {
    forall n :: 0 <= n < k && !f[n] ==> t[n] == s[n]
  }

  /** t has been passed over by the search in state (s, pos): it agrees with s before
      some guessed cell k at or before the cursor and is smaller there (or equal, at the
      cursor, whose current value has been tried). */
  predicate SkippedBy(f: seq<bool>, t: seq<int>, s: seq<int>, pos: int)
    requires |f| == CellCount && |t| == CellCount && |s| == CellCount
  {
    exists k :: 0 <= k < CellCount && k <= pos && !f[k] && AgreeBelow(f, t, s, k) &&
      (t[k] < s[k] || (k == pos && t[k] == s[k]))
  }

  /** t comes before s in row-major order. */
  predicate LexBelow(f: seq<bool>, t: seq<int>, s: seq<int>)
    requires |f| == CellCount && |t| == CellCount && |s| == CellCount
  {
    exists k :: 0 <= k < CellCount && !f[k] && AgreeBelow(f, t, s, k) && t[k] < s[k]
  }

  /** No completion has been passed over. */
  ghost predicate NothingSkipped(f: seq<bool>, init: seq<int>, s: seq<int>, pos: int)
    requires |f| == CellCount && |s| == CellCount
  {
    forall t :: IsCompletion(f, init, t) ==> !SkippedBy(f, t, s, pos)
  }

  /** The state is well formed and keeps the clues of init. */
  predicate OnClues(f: seq<bool>, init: seq<int>, s: seq<int>, pos: int)
  {
    |init| == CellCount && WellFormed(f, s, pos) && KeepsClues(f, init, s)
  }

  /** The loop invariant of the search. */
  ghost predicate Inv(f: seq<bool>, init: seq<int>, s: seq<int>, pos: int)
  {
    OnClues(f, init, s, pos) && ConsistentBefore(f, s, pos) && NothingSkipped(f, init, s, pos)
  }

  /** A step keeps the guessed cells before the cursor free of conflicts. */
  lemma StepConsistent(f: seq<bool>, s: seq<int>, pos: int)
    requires WellFormed(f, s, pos) && ConsistentBefore(f, s, pos)
    requires pos < CellCount && Step(f, s, pos).1 >= 0
    ensures ConsistentBefore(f, Step(f, s, pos).0, Step(f, s, pos).1)
  {
    var next := Step(f, s, pos);
    var s', p' := next.0, next.1;
    forall n, m |
      0 <= n < p' && n < CellCount && !f[n] && 0 <= m < CellCount && m != n &&
      SameUnit(n, m) && (m == p' ==> f[m])
      ensures s'[m] != s'[n]
    {
      if !f[pos] && s[pos] + 1 <= BoardSize && Consistent(s', pos) && m == pos {
        // The cursor advanced: the tried digit conflicts with no cell.
        assert SameUnit(pos, n);
      }
    }
  }

  /** A digit that check rejects at the cursor is not the cursor's digit in any
      completion that agrees with the state before the cursor. */
  lemma RejectedDigit(f: seq<bool>, init: seq<int>, s: seq<int>, pos: int, t: seq<int>)
    requires OnClues(f, init, s, pos) && pos < CellCount && !f[pos]
    requires !Consistent(s[pos := s[pos] + 1], pos)
    requires IsCompletion(f, init, t) && AgreeBelow(f, t, s, pos)
    ensures t[pos] != s[pos] + 1
  {
    var s' := s[pos := s[pos] + 1];
    var m :| 0 <= m < CellCount && m != pos && SameUnit(pos, m) && s'[m] == s'[pos];
    assert t[m] == s'[m];
  }

  /** Whatever the state after a step has passed over, the state before it had. */
  lemma SkippedEarlier(f: seq<bool>, init: seq<int>, s: seq<int>, pos: int, t: seq<int>, k: int)
    requires OnClues(f, init, s, pos) && pos < CellCount && Step(f, s, pos).1 >= 0
    requires IsCompletion(f, init, t)
    requires var next := Step(f, s, pos);
      0 <= k < CellCount && k <= next.1 && !f[k] && AgreeBelow(f, t, next.0, k) &&
      (t[k] < next.0[k] || (k == next.1 && t[k] == next.0[k]))
    ensures SkippedBy(f, t, s, pos)
  {
    var next := Step(f, s, pos);
    if f[pos] {
      assert AgreeBelow(f, t, s, k) && t[k] < s[k];
    } else if s[pos] + 1 > BoardSize {
      // Overflow: the retreat passed only fixed cells, and every digit at pos was tried.
      if t[k] < s[k] {
        assert AgreeBelow(f, t, s, k);
      } else {
        assert AgreeBelow(f, t, s, pos);
        assert t[pos] <= s[pos];
      }
    } else {
      assert AgreeBelow(f, t, s, k);
      if k == pos && !Consistent(next.0, pos) {
        RejectedDigit(f, init, s, pos, t);
      }
      assert t[k] < s[k] || (k == pos && t[k] == s[k]);
    }
  }

  /** Whatever a step passes over had been passed over before it. */
  lemma StepSkipsNothing(f: seq<bool>, init: seq<int>, s: seq<int>, pos: int)
    requires OnClues(f, init, s, pos) && pos < CellCount && Step(f, s, pos).1 >= 0
    ensures forall t ::
      IsCompletion(f, init, t) && SkippedBy(f, t, Step(f, s, pos).0, Step(f, s, pos).1) ==>
        SkippedBy(f, t, s, pos)
  {
    var next := Step(f, s, pos);
    forall t | IsCompletion(f, init, t) && SkippedBy(f, t, next.0, next.1)
      ensures SkippedBy(f, t, s, pos)
    {
      var k :| 0 <= k < CellCount && k <= next.1 && !f[k] && AgreeBelow(f, t, next.0, k) &&
        (t[k] < next.0[k] || (k == next.1 && t[k] == next.0[k]));
      SkippedEarlier(f, init, s, pos, t, k);
    }
  }

  /** A step that retreats past the first cell has passed over every completion. */
  lemma Exhausted(f: seq<bool>, init: seq<int>, s: seq<int>, pos: int)
    requires OnClues(f, init, s, pos) && pos < CellCount && Step(f, s, pos).1 < 0
    ensures forall t :: IsCompletion(f, init, t) ==> SkippedBy(f, t, s, pos)
  {
    forall t | IsCompletion(f, init, t)
      ensures SkippedBy(f, t, s, pos)
    {
      assert AgreeBelow(f, t, s, pos);
    }
  }

  /** Once the cursor has reached the end, what it has passed over is what lies below
      the board in row-major order. */
  lemma BelowIsSkipped(f: seq<bool>, init: seq<int>, s: seq<int>)
    requires OnClues(f, init, s, CellCount)
    ensures forall t :: IsCompletion(f, init, t) && LexBelow(f, t, s) ==> SkippedBy(f, t, s, CellCount)
  {
  }

  /** One step of the loop keeps the clues, and Search from the new state is Search from
      the old one: the loop body preserves what the loop will return. */
  lemma StepKeepsSearch(f: seq<bool>, init: seq<int>, s: seq<int>, pos: int)
    requires OnClues(f, init, s, pos) && pos < CellCount
    ensures Step(f, s, pos).1 >= 0 ==>
      OnClues(f, init, Step(f, s, pos).0, Step(f, s, pos).1) &&
      Measure(f, Step(f, s, pos).0, Step(f, s, pos).1) < Measure(f, s, pos) &&
      Search(f, Step(f, s, pos).0, Step(f, s, pos).1) == Search(f, s, pos)
    ensures Step(f, s, pos).1 < 0 ==> Search(f, s, pos) == None
  {
    if Step(f, s, pos).1 >= 0 {
      StepProgress(f, s, pos);
    }
  }

  /** A step that retreats past the first cell leaves every guessed cell empty again. */
  lemma ExhaustedRestores(f: seq<bool>, init: seq<int>, s: seq<int>, pos: int)
    requires |init| == CellCount && WellFormed(f, s, pos) && KeepsClues(f, init, s)
    requires forall n :: 0 <= n < CellCount && !f[n] ==> init[n] == 0
    requires pos < CellCount && Step(f, s, pos).1 < 0
    ensures Step(f, s, pos).0 == init
  {
    var s' := Step(f, s, pos).0;
    assert forall n :: 0 <= n < CellCount ==> s'[n] == init[n];
  }

  /** From any state satisfying the invariant, Search returns the least completion, or
      None when there is none. */
  lemma {:induction false} SearchCorrect(f: seq<bool>, init: seq<int>, s: seq<int>, pos: int)
    requires Inv(f, init, s, pos)
    ensures Search(f, s, pos).Some? ==>
      IsCompletion(f, init, Search(f, s, pos).value) &&
      forall t :: IsCompletion(f, init, t) ==> !LexBelow(f, t, Search(f, s, pos).value)
    ensures Search(f, s, pos).None? ==> forall t :: !IsCompletion(f, init, t)
    decreases Measure(f, s, pos)
  {
    if pos == CellCount {
      forall n | 0 <= n < CellCount && !f[n]
        ensures Consistent(s, n)
      {
      }
      BelowIsSkipped(f, init, s);
    } else {
      var next := Step(f, s, pos);
      if next.1 < 0 {
        Exhausted(f, init, s, pos);
      } else {
        StepProgress(f, s, pos);
        StepConsistent(f, s, pos);
        StepSkipsNothing(f, init, s, pos);
        SearchCorrect(f, init, next.0, next.1);
      }
    }
  }

  /** The search started on the clue board at cursor 0 returns the least completion of
      the clues, or None exactly when the clues have no completion. */
  lemma SearchFromClues(f: seq<bool>, init: seq<int>)
    requires |f| == CellCount && |init| == CellCount
    requires forall n :: 0 <= n < CellCount && !f[n] ==> init[n] == 0
    ensures WellFormed(f, init, 0)
    ensures Search(f, init, 0).Some? ==>
      IsCompletion(f, init, Search(f, init, 0).value) &&
      forall t :: IsCompletion(f, init, t) ==> !LexBelow(f, t, Search(f, init, 0).value)
    ensures Search(f, init, 0).None? <==> forall t :: !IsCompletion(f, init, t)
  {
    assert Inv(f, init, init, 0);
    SearchCorrect(f, init, init, 0);
  }

  /** Every solution of the puzzle completes its clues. */
  lemma SolutionIsCompletion(init: seq<int>, t: seq<int>)
    requires IsSolutionOf(init, t)
    ensures IsCompletion(Mask(init), init, t)
  {
  }

  /** When the clues are digits that agree with each other, every completion of them is
      a solution of the puzzle. */
  lemma CompletionIsSolution(init: seq<int>, t: seq<int>)
    requires |init| == CellCount && CellsInRange(init) && CluesAgree(init)
    requires IsCompletion(Mask(init), init, t)
    ensures IsSolutionOf(init, t)
  {
    var f := Mask(init);
    forall n | 0 <= n < CellCount
      ensures 1 <= t[n] <= BoardSize && Consistent(t, n)
    {
      if f[n] {
        forall m | 0 <= m < CellCount && m != n && SameUnit(n, m)
          ensures t[m] != t[n]
        {
          if !f[m] {
            assert SameUnit(m, n) && Consistent(t, m);
          }
        }
      }
    }
  }

  // ---------------------------------------------------------------------------
  // The clues are never checked against each other.

  /** When every cell from pos on is fixed, the loop only skips forward. */
  lemma {:induction false} SkipsToEnd(f: seq<bool>, s: seq<int>, pos: int)
    requires WellFormed(f, s, pos)
    requires forall n :: pos <= n < CellCount ==> f[n]
    ensures Search(f, s, pos) == Some(s)
    decreases CellCount - pos
  {
    if pos < CellCount {
      SkipsToEnd(f, s, pos + 1);
    }
  }

  /** A board whose every cell is a clue is returned as solved, whatever the clues. */
  lemma FullBoardAccepted(init: seq<int>)
    requires |init| == CellCount
    requires forall n :: 0 <= n < CellCount ==> init[n] != 0
    ensures Search(Mask(init), init, 0) == Some(init)
  {
    SkipsToEnd(Mask(init), init, 0);
  }

  /** For instance the board of 81 ones: the search reports it solved, though its first
      row repeats a digit. */
  lemma AllOnesAccepted()
    ensures var ones := seq(CellCount, n => 1);
      Search(Mask(ones), ones, 0) == Some(ones) && !IsValidSudoku(ones)
  {
    var ones := seq(CellCount, n => 1);
    FullBoardAccepted(ones);
    assert SameUnit(0, 1) && ones[1] == ones[0];
    assert !Consistent(ones, 0);
  }

  // ---------------------------------------------------------------------------
  // The retreat past the first cell.

  /** A puzzle whose first cell sees every digit among its clues: 2 to 9 in the rest of
      the first row, 1 below it, every other cell empty.  The clues agree with each other. */
  function BlockedFirstCell(): (b: seq<int>)
    ensures |b| == CellCount && CellsInRange(b)
  {
    seq(CellCount, n => if n == 0 then 0 else if n < BoardSize then n + 1 else if n == BoardSize then 1 else 0)
  }

  /** On that puzzle the loop retreats past the first cell, where the source evaluates
      getPos(-1), a column outside the board. */
  lemma BlockedFirstCellExhausts()
    ensures CluesAgree(BlockedFirstCell())
    ensures Search(Mask(BlockedFirstCell()), BlockedFirstCell(), 0) == None
    ensures GetPos(-1).1 < 0
  {
    var b := BlockedFirstCell();
    var f := Mask(b);
    SearchFromClues(f, b);
    forall t | |t| == CellCount && KeepsClues(f, b, t) && 1 <= t[0] <= BoardSize
      ensures !Consistent(t, 0)
    {
      var m := if t[0] == 1 then BoardSize else t[0] - 1;
      assert SameUnit(0, m) && t[m] == b[m] == t[0];
    }
    forall n | 0 <= n < CellCount && b[n] != 0
      ensures Consistent(b, n)
    {
      forall m | 0 <= m < CellCount && m != n && SameUnit(n, m)
        ensures b[m] != b[n]
      {
      }
    }
  }
}
