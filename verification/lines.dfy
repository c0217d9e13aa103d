/** Line clearing: full rows are removed and empty rows are added on top. */
module Lines {
  import opened Types
  import opened Board

  /** A row is full when none of its cells is empty. */
  predicate IsFull(row: seq<Cell>) {
    forall i :: 0 <= i < |row| ==> row[i] != Empty
  }

  /** Number of full rows of g, counted one by one from the top. */
  function CountFull(g: Grid): nat {
    if |g| == 0 then 0
    else CountFull(g[..|g| - 1]) + (if IsFull(g[|g| - 1]) then 1 else 0)
  }

  /** The rows of g that are not full, in their original order. */
  function NonFullRows(g: Grid): (kept: Grid)
    ensures |kept| + CountFull(g) == |g|
    ensures forall i :: 0 <= i < |kept| ==> !IsFull(kept[i])
  {
    if |g| == 0 then []
    else
      var front := NonFullRows(g[..|g| - 1]);
      if IsFull(g[|g| - 1]) then front else front + [g[|g| - 1]]
  }

  /** Indices of the rows `NonFullRows` keeps, in increasing order. */
  function KeptIndices(g: Grid): (k: seq<int>)
    ensures |k| == |NonFullRows(g)|
    ensures forall i :: 0 <= i < |k| ==> 0 <= k[i] < |g|
  {
    if |g| == 0 then []
    else KeptIndices(g[..|g| - 1]) + (if IsFull(g[|g| - 1]) then [] else [|g| - 1])
  }

  /** The kept indices strictly increase. */
  lemma {:induction false} KeptIndicesIncrease(g: Grid)
    ensures forall i, j :: 0 <= i < j < |KeptIndices(g)| ==> KeptIndices(g)[i] < KeptIndices(g)[j]
  {
    if |g| > 0 {
      KeptIndicesIncrease(g[..|g| - 1]);
    }
  }

  /** The i-th kept row is row `KeptIndices(g)[i]` of the input. */
  lemma {:induction false} KeptRowsAreInputRows(g: Grid)
    ensures forall i :: 0 <= i < |KeptIndices(g)| ==> NonFullRows(g)[i] == g[KeptIndices(g)[i]]
  {
    KeptIndicesIncrease(g);
    if |g| > 0 {
      var last := |g| - 1;
      var front := g[..last];
      KeptRowsAreInputRows(front);
      KeptIndicesIncrease(front);
      var k := KeptIndices(g);
      var kf := KeptIndices(front);
      var kept := NonFullRows(g);
      forall i | 0 <= i < |k|
        ensures kept[i] == g[k[i]]
      {
        if i < |kf| {
          assert k[i] == kf[i];
          assert kept[i] == NonFullRows(front)[i];
          assert front[kf[i]] == g[kf[i]];
        }
      }
    }
  }

  /** A row index is kept iff its row is not full. */
  lemma {:induction false} KeptIndicesExact(g: Grid)
    ensures forall j :: 0 <= j < |g| ==> (!IsFull(g[j]) <==> j in KeptIndices(g))
  {
    if |g| > 0 {
      var last := |g| - 1;
      var front := g[..last];
      KeptIndicesExact(front);
      KeptIndicesIncrease(front);
      var k := KeptIndices(g);
      var kf := KeptIndices(front);
      forall j | 0 <= j < |g|
        ensures !IsFull(g[j]) <==> j in k
      {
        if j < last {
          assert front[j] == g[j];
          assert j in k <==> j in kf;
        } else {
          assert last !in kf;
        }
      }
    }
  }

  /** The kept rows are exactly the non-full input rows, in input order. */
  lemma NonFullRowsInOrder(g: Grid)
    ensures |KeptIndices(g)| == |NonFullRows(g)|
    ensures forall i, j :: 0 <= i < j < |KeptIndices(g)| ==> 0 <= KeptIndices(g)[i] < KeptIndices(g)[j] < |g|
    ensures forall i :: 0 <= i < |KeptIndices(g)| ==> NonFullRows(g)[i] == g[KeptIndices(g)[i]]
    ensures forall j :: 0 <= j < |g| ==> (!IsFull(g[j]) <==> j in KeptIndices(g))
  {
    KeptIndicesIncrease(g);
    KeptRowsAreInputRows(g);
    KeptIndicesExact(g);
  }

  /** Rows kept from a board of N-wide rows are N wide. */
  lemma KeptRowsWidth(g: Grid)
    ensures IsGrid(g) ==> forall i :: 0 <= i < |NonFullRows(g)| ==> |NonFullRows(g)[i]| == N
  {
    KeptIndicesIncrease(g);
    KeptRowsAreInputRows(g);
  }

  /** `count` rows of N empty cells, as inserted on top of the board. */
  function Padding(count: int): (rows: Grid)
    ensures |rows| == if count > 0 then count else 0
    ensures forall i :: 0 <= i < |rows| ==> rows[i] == EmptyRow()
  {
    if count <= 0 then [] else [EmptyRow()] + Padding(count - 1)
  }

  /** Result of clearing lines: the new board and how many rows went. */
  datatype Cleared = Cleared(grid: Grid, linesCleared: nat)

  /** Removes every full row and pads with empty rows on top until the
      board is N rows high again. */
  function ClearLines(g: Grid): (r: Cleared)
    ensures r.linesCleared == CountFull(g)
    ensures && r.linesCleared <= |g|
            && |r.grid| == (if |g| - r.linesCleared < N then N else |g| - r.linesCleared)
            && (forall i :: 0 <= i < |r.grid| - (|g| - r.linesCleared) ==> r.grid[i] == EmptyRow())
            && r.grid[|r.grid| - (|g| - r.linesCleared)..] == NonFullRows(g)
    ensures forall i :: 0 <= i < |r.grid| ==> !IsFull(r.grid[i])
    ensures IsGrid(g) ==> IsGrid(r.grid) && r.linesCleared <= |r.grid| && r.grid[..r.linesCleared] == Padding(r.linesCleared)
  {
    var kept := NonFullRows(g);
    var rows := Padding(N - |kept|) + kept;
    assert forall i :: 0 <= i < |rows| - |kept| ==> rows[i] == EmptyRow() && !IsFull(rows[i]) by {
      assert EmptyRow()[0] == Empty;
    }
    assert forall i :: |rows| - |kept| <= i < |rows| ==> rows[i] == kept[i - (|rows| - |kept|)];
    KeptRowsWidth(g);
    Cleared(rows, |g| - |kept|)
  }

  /** Clearing is idempotent: the result has no full row left, so a second
      pass clears nothing and changes nothing. */
  lemma ClearLinesIdempotent(g: Grid)
    ensures ClearLines(ClearLines(g).grid) == Cleared(ClearLines(g).grid, 0)
  {
    var once := ClearLines(g).grid;
    NonFullRowsKeepsAll(once);
  }

  /** A board without full rows is left alone by `NonFullRows`. */
  lemma {:induction false} NonFullRowsKeepsAll(g: Grid)
    requires forall i :: 0 <= i < |g| ==> !IsFull(g[i])
    ensures NonFullRows(g) == g
  {
    if |g| > 0 {
      NonFullRowsKeepsAll(g[..|g| - 1]);
      assert g[..|g| - 1] + [g[|g| - 1]] == g;
    }
  }

  /** The clearing pass as the hook performs it: filter the rows, counting
      the full ones, then insert empty rows at the top while the board is
      shorter than N. */
  method ClearLinesLoop(g: Grid) returns (newGrid: Grid, linesCleared: nat)
    ensures Cleared(newGrid, linesCleared) == ClearLines(g)
  {
    newGrid := [];
    linesCleared := 0;
    var i := 0;
    while i < |g|
      invariant 0 <= i <= |g|
      invariant newGrid == NonFullRows(g[..i])
      invariant linesCleared == CountFull(g[..i])
    {
      assert g[..i + 1][..i] == g[..i];
      if IsFull(g[i]) {
        linesCleared := linesCleared + 1;
      } else {
        newGrid := newGrid + [g[i]];
      }
      i := i + 1;
    }
    assert g[..|g|] == g;
    ghost var kept := newGrid;
    while |newGrid| < N
      invariant |kept| <= |newGrid|
      invariant |newGrid| <= N || |newGrid| == |kept|
      invariant newGrid == Padding(|newGrid| - |kept|) + kept
      decreases N - |newGrid|
    {
      newGrid := [EmptyRow()] + newGrid;
    }
    assert |newGrid| - |kept| == if N - |kept| > 0 then N - |kept| else 0;
  }
}
