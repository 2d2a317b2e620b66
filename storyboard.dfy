/**
 * The contact sheet of get_frames.py (lines 40-54): the collected thumbnails
 * are laid out four to a row, left to right and top to bottom; the last row
 * is filled up with blank tiles so that every row has four tiles.
 *
 * Tiles are opaque values; a row stands for the horizontal concatenation of
 * its tiles and the grid for the vertical concatenation of its rows.
 */
module Storyboard {

  /** Tiles per row. */
  const Cols: nat := 4

  /**
   * A thumbnail of a read frame with the caption drawn on it, or a blank
   * tile of the same size.
   */
  datatype Tile<F> = Thumbnail(frame: F, caption: string) | Blank

  /** The number of rows for `n` tiles: the least number of rows of `Cols` that holds them all. */
  function RowCount(n: nat): (rows: nat)
    ensures n <= rows * Cols
    ensures rows == 0 || (rows - 1) * Cols < n
  {
    (n + Cols - 1) / Cols
  }

  /** `RowCount` is the only row count meeting both bounds: it is the ceiling of `n / Cols`. */
  lemma RowCountUnique(n: nat, rows: nat)
    requires n <= rows * Cols
    requires rows == 0 || (rows - 1) * Cols < n
    ensures rows == RowCount(n)
  {
  }

  function Blanks<F>(k: nat): seq<Tile<F>> {
    seq(k, _ => Blank)
  }

  /**
   * The tiles followed by the blank tiles that complete the last row: the
   * tiles keep their places, fewer than `Cols` blanks are added, and only at
   * the end.
   */
  function Padded<F>(tiles: seq<Tile<F>>): (p: seq<Tile<F>>)
    ensures |p| == RowCount(|tiles|) * Cols
    ensures p[..|tiles|] == tiles
    ensures |p| - |tiles| < Cols
    ensures forall k :: |tiles| <= k < |p| ==> p[k] == Blank
  {
    tiles + Blanks(RowCount(|tiles|) * Cols - |tiles|)
  }

  /** Cuts `s` into consecutive rows of `Cols` tiles. */
  function Chunks<F>(s: seq<Tile<F>>): (rows: seq<seq<Tile<F>>>)
    requires |s| % Cols == 0
    ensures |rows| * Cols == |s|
    ensures forall r :: 0 <= r < |rows| ==> rows[r] == s[r * Cols..r * Cols + Cols]
    decreases |s|
  {
    if s == [] then []
    else
      var rest := Chunks(s[Cols..]);
      assert forall r :: 1 <= r <= |rest| ==> s[Cols..][(r - 1) * Cols..(r - 1) * Cols + Cols] == s[r * Cols..r * Cols + Cols];
      [s[..Cols]] + rest
  }

  /** The grid of the contact sheet, row by row. */
  function Layout<F>(tiles: seq<Tile<F>>): seq<seq<Tile<F>>> {
    Chunks(Padded(tiles))
  }

  /** The rows put back one after the other. */
  function Concat<F>(rows: seq<seq<Tile<F>>>): seq<Tile<F>> {
    if rows == [] then [] else rows[0] + Concat(rows[1..])
  }

  lemma {:induction false} ChunksConcat<F>(s: seq<Tile<F>>)
    requires |s| % Cols == 0
    ensures Concat(Chunks(s)) == s
    decreases |s|
  {
    if s != [] {
      ChunksConcat(s[Cols..]);
    }
  }

  /**
   * The grid has `RowCount` rows of `Cols` tiles each; read row after row it
   * gives back the padded tiles.
   */
  lemma LayoutShape<F>(tiles: seq<Tile<F>>)
    ensures |Layout(tiles)| == RowCount(|tiles|)
    ensures forall r :: 0 <= r < |Layout(tiles)| ==> |Layout(tiles)[r]| == Cols
    ensures Concat(Layout(tiles)) == Padded(tiles)
  {
    ChunksConcat(Padded(tiles));
  }

  /** Tile `k` sits in row `k / Cols`, column `k % Cols`: left to right, top to bottom. */
  lemma LayoutCell<F>(tiles: seq<Tile<F>>, k: nat)
    requires k < |tiles|
    ensures k / Cols < |Layout(tiles)| && Layout(tiles)[k / Cols][k % Cols] == tiles[k]
  {
    var r := k / Cols;
    var p := Padded(tiles);
    assert r * Cols + k % Cols == k;
    assert p[k] == tiles[k];
  }

  /** Five tiles make two rows; the second holds the fifth tile and three blanks. */
  lemma FiveTiles<F>(tiles: seq<Tile<F>>)
    requires |tiles| == 5
    ensures Layout(tiles) == [tiles[..4], [tiles[4], Blank, Blank, Blank]]
  {
    var p := Padded(tiles);
    var grid := Layout(tiles);
    assert |p| == 8 && |grid| == 2;
    assert grid[0] == p[0..4] == tiles[..4];
    assert grid[1] == p[4..8] == [tiles[4], Blank, Blank, Blank];
  }

  /**
   * The composition of get_frames.py:43-54: pad the tiles with blanks up to
   * whole rows, then cut the padded list into rows of `Cols`.
   */
  method Compose<F>(tiles: seq<Tile<F>>) returns (grid: seq<seq<Tile<F>>>)
    requires tiles != []
    ensures grid == Layout(tiles)
  {
    var rows := RowCount(|tiles|);
    var padded := tiles;
    while |padded| < rows * Cols
      invariant |tiles| <= |padded| <= rows * Cols
      invariant padded == tiles + Blanks(|padded| - |tiles|)
      decreases rows * Cols - |padded|
    {
      padded := padded + [Blank];
    }
    grid := [];
    for r := 0 to rows
      invariant |grid| == r
      invariant forall q :: 0 <= q < r ==> grid[q] == padded[q * Cols..q * Cols + Cols]
    {
      grid := grid + [padded[r * Cols..r * Cols + Cols]];
    }
  }
}
