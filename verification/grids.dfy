/** Two-dimensional rasters as row-major sequences of rows, the shape of a
    numpy 2-D array. */
module Grids {

  type Grid<T> = seq<seq<T>>

  function Min(a: int, b: int): int
  {
    if a <= b then a else b
  }

  /** `g.shape == (h, w)`. */
  predicate HasShape<T>(g: Grid<T>, h: nat, w: nat)
  {
    |g| == h && forall i :: 0 <= i < |g| ==> |g[i]| == w
  }

  /** Every row has the length of the first: a genuine 2-D array. */
  predicate IsRectangular<T>(g: Grid<T>)
  {
    forall i :: 0 <= i < |g| ==> |g[i]| == |g[0]|
  }

  /** Number of columns of a rectangular grid (0 for a grid without rows). */
  function Width<T>(g: Grid<T>): nat
  {
    if |g| == 0 then 0 else |g[0]|
  }

  /** The two grids have the same number of rows, and rows of equal index
      have equal length. */
  predicate SameShape<T, U>(a: Grid<T>, b: Grid<U>)
  {
    |a| == |b| && forall i :: 0 <= i < |a| ==> |a[i]| == |b[i]|
  }

  /** `g[:n, :n]`: the top-left block of at most `n` rows and `n` columns. */
  function CropTopLeft<T>(g: Grid<T>, n: nat): (r: Grid<T>)
    ensures |r| == Min(|g|, n)
    ensures forall i :: 0 <= i < |r| ==>
              |r[i]| == Min(|g[i]|, n) && forall j :: 0 <= j < |r[i]| ==> r[i][j] == g[i][j]
  {
    seq(Min(|g|, n), i requires 0 <= i < Min(|g|, n) => g[i][..Min(|g[i]|, n)])
  }

  /** The crop of an `h` by `w` array is `min(h, n)` by `min(w, n)`. */
  lemma CropShape<T>(g: Grid<T>, n: nat, h: nat, w: nat)
    requires HasShape(g, h, w)
    ensures HasShape(CropTopLeft(g, n), Min(h, n), Min(w, n))
  {
  }

  /** Cropping an already cropped array changes nothing. */
  lemma CropIdempotent<T>(g: Grid<T>, n: nat)
    ensures CropTopLeft(CropTopLeft(g, n), n) == CropTopLeft(g, n)
  {
    var once := CropTopLeft(g, n);
    var twice := CropTopLeft(once, n);
    forall i | 0 <= i < |once| ensures twice[i] == once[i] {
      assert |twice[i]| == |once[i]|;
    }
  }

  /** An array within the bound on both axes is left whole by the crop. */
  lemma CropOfSmallGrid<T>(g: Grid<T>, n: nat)
    requires |g| <= n
    requires forall i :: 0 <= i < |g| ==> |g[i]| <= n
    ensures CropTopLeft(g, n) == g
  {
    var r := CropTopLeft(g, n);
    forall i | 0 <= i < |g| ensures r[i] == g[i] {
      assert |r[i]| == |g[i]|;
    }
  }
}
