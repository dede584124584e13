/** The procedural heightmap of isovoxel.cpp (sampleHeightmap): a ground-plane
    point is folded onto a coarse hmap_res_x x hmap_res_y grid and a Gaussian
    bump is evaluated at the cell's lower corner. Arithmetic is exact over the
    reals; the exponential is a parameter. */
module Heightmap {

  /** hmap_res_x, hmap_res_y and hmap_height of isovoxel.cpp. */
  const HMAP_RES_X: int := 32
  const HMAP_RES_Y: int := 32
  const HMAP_HEIGHT: real := 0.8

  /** floor(0.25 * coord * res): the grid cell a coordinate falls in. */
  function Cell(coord: real, res: int): (c: int)
    ensures c as real <= 0.25 * coord * res as real < c as real + 1.0
  {
    (0.25 * coord * res as real).Floor
  }

  /** 2 * (i / res) - 1: cell index i mapped onto [-1, 1]. */
  function Centred(i: int, res: int): (r: real)
    requires res != 0
    ensures res > 0 && 0 <= i <= res ==> -1.0 <= r <= 1.0
    ensures res > 0 && i <= res / 2 ==> r <= 0.0
  {
    2.0 * (i as real / res as real) - 1.0
  }

  /** -(a * a + b * b), the value sampleHeightmap hands to exp. */
  function ExpArgument(x: real, y: real): real
  {
    var a := Centred(Cell(x, HMAP_RES_X), HMAP_RES_X);
    var b := Centred(Cell(y, HMAP_RES_Y), HMAP_RES_Y);
    -(a * a + b * b)
  }

  /** sampleHeightmap(x, y), with exp supplied by the caller. */
  function SampleHeightmap(exp: real -> real, x: real, y: real): real
  {
    exp(ExpArgument(x, y))
  }

  /** Cell k of the x axis is the interval [k / 8, (k + 1) / 8). */
  lemma CellOf(coord: real, k: int)
    requires k as real <= 8.0 * coord < k as real + 1.0
    ensures Cell(coord, HMAP_RES_X) == k && Cell(coord, HMAP_RES_Y) == k
  {
    assert 0.25 * coord * HMAP_RES_X as real == 8.0 * coord;
    assert 0.25 * coord * HMAP_RES_Y as real == 8.0 * coord;
  }

  /** Two points in the same grid cell get the same height: the input matters
      only through the cell indices. */
  lemma SameCellSameHeight(exp: real -> real, x1: real, y1: real, x2: real, y2: real, i: int, j: int)
    requires i as real <= 8.0 * x1 < i as real + 1.0 && i as real <= 8.0 * x2 < i as real + 1.0
    requires j as real <= 8.0 * y1 < j as real + 1.0 && j as real <= 8.0 * y2 < j as real + 1.0
    ensures SampleHeightmap(exp, x1, y1) == SampleHeightmap(exp, x2, y2)
  {
    CellOf(x1, i);
    CellOf(x2, i);
    CellOf(y1, j);
    CellOf(y2, j);
  }

  /** Every point takes the height of its cell's lower-left corner. */
  lemma CornerHeight(exp: real -> real, x: real, y: real)
    ensures SampleHeightmap(exp, x, y) ==
      SampleHeightmap(exp, Cell(x, HMAP_RES_X) as real / 8.0, Cell(y, HMAP_RES_Y) as real / 8.0)
  {
    var xi, yi := Cell(x, HMAP_RES_X), Cell(y, HMAP_RES_Y);
    var cx, cy := xi as real / 8.0, yi as real / 8.0;
    assert 8.0 * cx == xi as real && 8.0 * cy == yi as real;
    CellOf(cx, xi);
    CellOf(cy, yi);
    assert ExpArgument(x, y) == ExpArgument(cx, cy);
  }

  /** Over the ground tile [0, 4] x [0, 4] the cells run from 0 to 32 and exp
      is only ever asked for a value in [-2, 0]. */
  lemma TileArgumentRange(x: real, y: real)
    requires 0.0 <= x <= 4.0 && 0.0 <= y <= 4.0
    ensures 0 <= Cell(x, HMAP_RES_X) <= 32 && 0 <= Cell(y, HMAP_RES_Y) <= 32
    ensures -2.0 <= ExpArgument(x, y) <= 0.0
  {
    var a := Centred(Cell(x, HMAP_RES_X), HMAP_RES_X);
    var b := Centred(Cell(y, HMAP_RES_Y), HMAP_RES_Y);
    assert -1.0 <= a <= 1.0 && -1.0 <= b <= 1.0;
    SquareAtMostOne(a);
    SquareAtMostOne(b);
  }

  lemma SquareAtMostOne(a: real)
    requires -1.0 <= a <= 1.0
    ensures 0.0 <= a * a <= 1.0
  {
    if a >= 0.0 {
      assert a * a <= a * 1.0;
    } else {
      assert a * a <= (-a) * 1.0;
    }
  }
}
