/**
  Grid geometry of the puzzle (main.py, lines 9-31 and 98).

  The 600 x 600 canvas is cut into `rows * cols` square tiles whose side is
  `600 // cols`. Tile `k` belongs, in row-major order, at column `k % cols`
  and row `k // cols`; its correct position is the top-left corner of that
  cell. All arithmetic is on non-negative integers, where Dafny's `/` and
  `%` agree with Python's `//` and `%`.
 */
module Geometry {

  /** Width and height of the puzzle canvas (`SCREEN_WIDTH`, `SCREEN_HEIGHT`). */
  const CanvasSize: nat := 600

  /** A point or a tile's top-left corner on the canvas. */
  datatype Pos = Pos(x: int, y: int)

  /** The grid a game is played on; `cols` must be positive (it is a divisor). */
  datatype Grid = Grid(rows: nat, cols: nat)

  /** Number of tiles (`rows * cols`). */
  function TileCount(g: Grid): nat {
    g.rows * g.cols
  }

  /**
    Side of a tile (`IMAGE_SIZE = SCREEN_WIDTH // cols`): the largest side
    such that `cols` tiles fit across the canvas.
   */
  function TileSize(g: Grid): (s: nat)
    requires g.cols > 0
    ensures s * g.cols <= CanvasSize < (s + 1) * g.cols
    ensures g.cols <= CanvasSize ==> s >= 1
  {
    CanvasSize / g.cols
  }

  /** Tile `k`'s place in the solved picture, in closed form. */
  function CorrectPosition(g: Grid, k: nat): Pos
    requires g.cols > 0
  {
    Pos((k % g.cols) * TileSize(g), (k / g.cols) * TileSize(g))
  }

  /** Row `i` of `correct_positions`: the cells `(j * size, i * size)`, j = 0 .. cols-1. */
  function RowPositions(g: Grid, i: nat): (r: seq<Pos>)
    requires g.cols > 0
    ensures |r| == g.cols
    ensures forall j :: 0 <= j < g.cols ==> r[j] == Pos(j * TileSize(g), i * TileSize(g))
  {
    seq(g.cols, j => Pos(j * TileSize(g), i * TileSize(g)))
  }

  /** The first `n` rows of `correct_positions`, concatenated. */
  function RowsUpTo(g: Grid, n: nat): seq<Pos>
    requires g.cols > 0
  {
    if n == 0 then [] else RowsUpTo(g, n - 1) + RowPositions(g, n - 1)
  }

  /**
    The list `correct_positions`, built as the source builds it: a nested
    comprehension, rows outside and columns inside.
   */
  function CorrectPositions(g: Grid): seq<Pos>
    requires g.cols > 0
  {
    RowsUpTo(g, g.rows)
  }

  /** An integer multiple of `c` strictly between `-c` and `c` is zero. */
  lemma SmallMultipleIsZero(x: int, c: int)
    requires c > 0 && -c < x * c < c
    ensures x == 0
  {
  }

  /** Row-major decomposition: `k = i * c + j` with `0 <= j < c` fixes `k / c` and `k % c`. */
  lemma DivModOfRowMajor(k: nat, c: nat, i: nat, j: nat)
    requires c > 0 && j < c && k == i * c + j
    ensures k / c == i && k % c == j
  {
    var q, r := k / c, k % c;
    assert (i - q) * c == r - j;
    SmallMultipleIsZero(i - q, c);
  }

  lemma {:induction false} RowsUpToRowMajor(g: Grid, n: nat)
    requires g.cols > 0
    ensures |RowsUpTo(g, n)| == n * g.cols
    ensures forall k :: 0 <= k < n * g.cols ==> RowsUpTo(g, n)[k] == CorrectPosition(g, k)
  {
    if n > 0 {
      RowsUpToRowMajor(g, n - 1);
      var prefix := RowsUpTo(g, n - 1);
      var row := RowPositions(g, n - 1);
      assert |prefix| == (n - 1) * g.cols;
      assert n * g.cols == (n - 1) * g.cols + g.cols;
      forall k | 0 <= k < n * g.cols
        ensures RowsUpTo(g, n)[k] == CorrectPosition(g, k)
      {
        if k >= (n - 1) * g.cols {
          var j := k - (n - 1) * g.cols;
          DivModOfRowMajor(k, g.cols, n - 1, j);
          assert RowsUpTo(g, n)[k] == row[j];
        } else {
          assert RowsUpTo(g, n)[k] == prefix[k];
        }
      }
    }
  }

  /**
    The list `correct_positions` has one entry per tile and entry `k` is
    the closed form: column `k % cols`, row `k // cols`, scaled by the tile
    side.
   */
  lemma CorrectPositionsRowMajor(g: Grid)
    requires g.cols > 0
    ensures |CorrectPositions(g)| == TileCount(g)
    ensures forall k :: 0 <= k < TileCount(g) ==> CorrectPositions(g)[k] == CorrectPosition(g, k)
  {
    RowsUpToRowMajor(g, g.rows);
  }

  /** Every tile's row and column lie inside the grid and give the tile back in row-major order. */
  lemma CorrectPositionOnGrid(g: Grid, k: nat)
    requires g.cols > 0 && k < TileCount(g)
    ensures k / g.cols < g.rows && k % g.cols < g.cols
    ensures k == (k / g.cols) * g.cols + k % g.cols
  {
  }

  /** Every grid cell `(i, j)` is the correct position of tile `i * cols + j`, which is a real tile. */
  lemma CellHasTile(g: Grid, i: nat, j: nat)
    requires g.cols > 0 && i < g.rows && j < g.cols
    ensures i * g.cols + j < TileCount(g)
    ensures CorrectPosition(g, i * g.cols + j) == Pos(j * TileSize(g), i * TileSize(g))
  {
    DivModOfRowMajor(i * g.cols + j, g.cols, i, j);
    assert i * g.cols + j < (i + 1) * g.cols <= g.rows * g.cols;
  }

  /**
    As long as tiles have a positive side (at most 600 columns), different
    tiles have different correct positions.
   */
  lemma CorrectPositionInjective(g: Grid, k1: nat, k2: nat)
    requires 0 < g.cols <= CanvasSize
    requires CorrectPosition(g, k1) == CorrectPosition(g, k2)
    ensures k1 == k2
  {
    var s := TileSize(g);
    assert (k1 % g.cols) * s == (k2 % g.cols) * s;
    assert (k1 / g.cols) * s == (k2 / g.cols) * s;
    ScaleCancels(k1 % g.cols, k2 % g.cols, s);
    ScaleCancels(k1 / g.cols, k2 / g.cols, s);
    assert k1 == (k1 / g.cols) * g.cols + k1 % g.cols;
    assert k2 == (k2 / g.cols) * g.cols + k2 % g.cols;
  }

  lemma ScaleCancels(a: nat, b: nat, s: nat)
    requires s > 0 && a * s == b * s
    ensures a == b
  {
    assert (a - b) * s == 0;
  }

  /**
    The image slice drawn for tile `k`, as a (row, column) pair of the
    `pieces` grid, exactly as written: `pieces[k // rows][k % cols]`.
   */
  function PieceCell(g: Grid, k: nat): (nat, nat)
    requires g.rows > 0 && g.cols > 0
  {
    (k / g.rows, k % g.cols)
  }

  /** Top-left corner of the image region cut out as `pieces[i][j]`. */
  function SliceCorner(g: Grid, cell: (nat, nat)): Pos
    requires g.cols > 0
  {
    Pos(cell.1 * TileSize(g), cell.0 * TileSize(g))
  }

  /**
    The slice `pieces[k // cols][k % cols]`: it exists in `pieces`, and it
    is the image region cut from tile `k`'s own correct position.
   */
  function PieceCellIntended(g: Grid, k: nat): (cell: (nat, nat))
    requires g.cols > 0 && k < TileCount(g)
    ensures cell.0 < g.rows && cell.1 < g.cols
    ensures SliceCorner(g, cell) == CorrectPosition(g, k)
  {
    CorrectPositionOnGrid(g, k);
    (k / g.cols, k % g.cols)
  }

  /**
    On a square grid, which every difficulty preset uses, the lookup as
    written selects the intended slice.
   */
  lemma PieceCellSquare(g: Grid, k: nat)
    requires g.rows == g.cols > 0 && k < TileCount(g)
    ensures PieceCell(g, k) == PieceCellIntended(g, k)
    ensures PieceCell(g, k).0 < g.rows && PieceCell(g, k).1 < g.cols
    ensures SliceCorner(g, PieceCell(g, k)) == CorrectPosition(g, k)
  {
  }

  /**
    On a 2 x 3 grid the lookup as written asks tile 5 for row 5 // 2 = 2 of
    a `pieces` grid that has only rows 0 and 1; its correct cell is row 1.
   */
  lemma PieceCellNonSquare()
    ensures var g := Grid(2, 3);
      && 5 < TileCount(g)
      && PieceCell(g, 5).0 >= g.rows
      && PieceCellIntended(g, 5) == (1, 2)
      && PieceCell(g, 5) != PieceCellIntended(g, 5)
  {
  }
}
