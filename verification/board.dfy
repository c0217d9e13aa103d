/** The N×N board: construction and the periodic whole-board rotation. */
module Board {
  import opened Types

  /** A well-shaped board: N rows of N cells each. */
  predicate IsGrid(g: Grid) {
    |g| == N && forall y :: 0 <= y < N ==> |g[y]| == N
  }

  predicate InField(x: int, y: int) {
    0 <= x < N && 0 <= y < N
  }

  function EmptyRow(): (row: seq<Cell>)
    ensures |row| == N
    ensures forall x :: 0 <= x < N ==> row[x] == Empty
  {
    seq(N, _ => Empty)
  }

  /** The board a new game starts from. */
  function EmptyGrid(): (g: Grid)
    ensures IsGrid(g)
    ensures forall y, x :: InField(x, y) ==> g[y][x] == Empty
  {
    seq(N, _ => EmptyRow())
  }

  /** The board turned 90° clockwise: the cell at row y, column x moves to
      row x, column N-1-y. */
  function RotateGrid(g: Grid): (r: Grid)
    requires IsGrid(g)
    ensures IsGrid(r)
    ensures forall y, x :: InField(x, y) ==> r[x][N - 1 - y] == g[y][x]
  {
    seq(N, i requires 0 <= i < N => seq(N, j requires 0 <= j < N => g[N - 1 - j][i]))
  }

  /** The coordinate map of `RotateGrid` on (row, column) pairs. */
  function Turn(c: (int, int)): (int, int) {
    (c.1, N - 1 - c.0)
  }

  /** A (row, column) position inside the field. */
  predicate OnBoard(c: (int, int)) {
    InField(c.1, c.0)
  }

  /** `Turn` is a bijection of the field onto itself. */
  lemma TurnIsBijection()
    ensures forall c :: OnBoard(c) ==> OnBoard(Turn(c))
    ensures forall c, d :: Turn(c) == Turn(d) ==> c == d
    ensures forall d :: OnBoard(d) ==> exists c :: OnBoard(c) && Turn(c) == d
  {
    forall d | OnBoard(d)
      ensures exists c :: OnBoard(c) && Turn(c) == d
    {
      var c := (N - 1 - d.1, d.0);
      assert Turn(c) == d;
    }
  }

  /** Two quarter turns send row y, column x to row N-1-y, column N-1-x. */
  lemma HalfTurn(g: Grid)
    requires IsGrid(g)
    ensures IsGrid(RotateGrid(RotateGrid(g)))
    ensures forall y, x :: InField(x, y) ==> RotateGrid(RotateGrid(g))[N - 1 - y][N - 1 - x] == g[y][x]
  {
    var r1 := RotateGrid(g);
    var r2 := RotateGrid(r1);
    forall y, x | InField(x, y)
      ensures r2[N - 1 - y][N - 1 - x] == g[y][x]
    {
      assert r1[x][N - 1 - y] == g[y][x];
      assert r2[N - 1 - y][N - 1 - x] == r1[x][N - 1 - y];
    }
  }

  /** Four quarter turns give back the original board. */
  lemma RotateGridOrderFour(g: Grid)
    requires IsGrid(g)
    ensures RotateGrid(RotateGrid(RotateGrid(RotateGrid(g)))) == g
  {
    var h := RotateGrid(RotateGrid(g));
    HalfTurn(g);
    HalfTurn(h);
    var r := RotateGrid(RotateGrid(h));
    forall y | 0 <= y < N
      ensures r[y] == g[y]
    {
      forall x | 0 <= x < N
        ensures r[y][x] == g[y][x]
      {
        assert h[N - 1 - y][N - 1 - x] == g[y][x];
        assert r[N - 1 - (N - 1 - y)][N - 1 - (N - 1 - x)] == h[N - 1 - y][N - 1 - x];
      }
    }
  }

  /** Rotating the empty board gives the empty board. */
  lemma RotateEmptyGrid()
    ensures RotateGrid(EmptyGrid()) == EmptyGrid()
  {
    var e := EmptyGrid();
    var r := RotateGrid(e);
    forall y | 0 <= y < N
      ensures r[y] == e[y]
    {
      forall x | 0 <= x < N
        ensures r[y][x] == e[y][x]
      {
        assert r[y][x] == e[N - 1 - x][y];
      }
    }
  }

  /** The set of positions (row, column) holding the value c. */
  function CellsWith(g: Grid, c: Cell): set<(int, int)>
    requires IsGrid(g)
  {
    set y, x | 0 <= y < N && 0 <= x < N && g[y][x] == c :: (y, x)
  }

  /** How many cells of g hold the value c: the board's multiset of cells. */
  function Occurrences(g: Grid, c: Cell): nat
    requires IsGrid(g)
  {
    |CellsWith(g, c)|
  }

  /** The positions of s moved by `Turn`. */
  function TurnImage(s: set<(int, int)>): set<(int, int)> {
    set d | d in s :: Turn(d)
  }

  lemma {:induction false} TurnImageSize(s: set<(int, int)>)
    ensures |TurnImage(s)| == |s|
    decreases |s|
  {
    if s != {} {
      var c :| c in s;
      var rest := s - {c};
      TurnImageSize(rest);
      assert TurnImage(s) == TurnImage(rest) + {Turn(c)};
      assert Turn(c) !in TurnImage(rest);
    }
  }

  /** Every cell holding c after the turn is the image of one holding c
      before. */
  lemma RotatedCellsAreTurned(g: Grid, c: Cell)
    requires IsGrid(g)
    ensures CellsWith(RotateGrid(g), c) <= TurnImage(CellsWith(g, c))
  {
    var r := RotateGrid(g);
    forall p | p in CellsWith(r, c)
      ensures p in TurnImage(CellsWith(g, c))
    {
      var q := (N - 1 - p.1, p.0);
      assert r[p.0][N - 1 - q.0] == g[q.0][q.1];
      assert q in CellsWith(g, c);
      assert Turn(q) == p;
    }
  }

  /** Every cell holding c before the turn lands on one holding c after. */
  lemma TurnedCellsAreRotated(g: Grid, c: Cell)
    requires IsGrid(g)
    ensures TurnImage(CellsWith(g, c)) <= CellsWith(RotateGrid(g), c)
  {
    var r := RotateGrid(g);
    forall p | p in TurnImage(CellsWith(g, c))
      ensures p in CellsWith(r, c)
    {
      var q :| q in CellsWith(g, c) && Turn(q) == p;
      assert r[q.1][N - 1 - q.0] == g[q.0][q.1];
    }
  }

  /** Rotating the board keeps the multiset of cell values: every value
      occurs exactly as often before as after. */
  lemma RotateGridPreservesOccurrences(g: Grid, c: Cell)
    requires IsGrid(g)
    ensures Occurrences(RotateGrid(g), c) == Occurrences(g, c)
  {
    RotatedCellsAreTurned(g, c);
    TurnedCellsAreRotated(g, c);
    assert CellsWith(RotateGrid(g), c) == TurnImage(CellsWith(g, c));
    TurnImageSize(CellsWith(g, c));
  }
}
