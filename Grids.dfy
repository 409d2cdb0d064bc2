/**
 * Grid values: the abstract, two-dimensional view of a matrix store.
 * A grid `g` holds row `y` in `g[y]`, so the cell at column `x`, row `y`
 * is `g[y][x]`. The store and the drawing component state their
 * contracts in terms of these values.
 */
module Grids {

  /** `g` has exactly `height` rows of exactly `width` cells each. */
  predicate IsRect<T>(g: seq<seq<T>>, width: nat, height: nat)
  {
    |g| == height && forall y :: 0 <= y < |g| ==> |g[y]| == width
  }

  /** (x, y) addresses a cell of `g`. */
  predicate InGrid<T>(g: seq<seq<T>>, x: nat, y: nat)
  {
    y < |g| && x < |g[y]|
  }

  /** A `width` by `height` grid whose every cell is `d`. */
  function Filled<T>(width: nat, height: nat, d: T): (g: seq<seq<T>>)
    ensures IsRect(g, width, height)
    ensures forall y, x :: 0 <= y < height && 0 <= x < width ==> g[y][x] == d
  {
    seq(height, _ => seq(width, _ => d))
  }

  /** `g` with the single cell (x, y) replaced by `v`. */
  function Updated<T>(g: seq<seq<T>>, x: nat, y: nat, v: T): (r: seq<seq<T>>)
    requires InGrid(g, x, y)
    ensures |r| == |g| && forall j :: 0 <= j < |g| ==> |r[j]| == |g[j]|
    ensures r[y][x] == v
    ensures forall j, i :: 0 <= j < |g| && 0 <= i < |g[j]| && (i != x || j != y) ==> r[j][i] == g[j][i]
  {
    g[y := g[y][x := v]]
  }

  /**
   * The grid of the new dimensions whose cells inside the old grid keep
   * their value, by coordinate, and whose other cells are `d`.
   */
  function Resized<T>(g: seq<seq<T>>, width: nat, height: nat, d: T): (r: seq<seq<T>>)
    ensures IsRect(r, width, height)
  {
    seq(height, y => seq(width, x => if 0 <= y < |g| && 0 <= x < |g[y]| then g[y][x] else d))
  }

  function Min(a: nat, b: nat): (m: nat)
    ensures m <= a && m <= b && (m == a || m == b)
  {
    if a < b then a else b
  }

  /** A cell of the intersection of the old and new rectangles keeps its value. */
  lemma ResizedKeepsIntersection<T>(g: seq<seq<T>>, w: nat, h: nat, nw: nat, nh: nat, d: T, x: nat, y: nat)
    requires IsRect(g, w, h)
    requires x < Min(w, nw) && y < Min(h, nh)
    ensures Resized(g, nw, nh, d)[y][x] == g[y][x]
  {
  }

  /** A cell of the new rectangle outside the old one holds the default value. */
  lemma ResizedFillsOutside<T>(g: seq<seq<T>>, w: nat, h: nat, nw: nat, nh: nat, d: T, x: nat, y: nat)
    requires IsRect(g, w, h)
    requires x < nw && y < nh && !(x < w && y < h)
    ensures Resized(g, nw, nh, d)[y][x] == d
  {
  }

  /** Resizing to the current dimensions changes nothing. */
  lemma ResizedSameSize<T>(g: seq<seq<T>>, w: nat, h: nat, d: T)
    requires IsRect(g, w, h)
    ensures Resized(g, w, h, d) == g
  {
    var r := Resized(g, w, h, d);
    forall y | 0 <= y < h
      ensures r[y] == g[y]
    {
      assert |r[y]| == |g[y]|;
      forall x | 0 <= x < w
        ensures r[y][x] == g[y][x]
      {
        ResizedKeepsIntersection(g, w, h, w, h, d, x, y);
      }
    }
  }

  /** Growing a grid and then shrinking it back to its old size restores it. */
  lemma GrowThenShrink<T>(g: seq<seq<T>>, w: nat, h: nat, bw: nat, bh: nat, d: T)
    requires IsRect(g, w, h)
    requires w <= bw && h <= bh
    ensures Resized(Resized(g, bw, bh, d), w, h, d) == g
  {
    var big := Resized(g, bw, bh, d);
    var r := Resized(big, w, h, d);
    forall y | 0 <= y < h
      ensures r[y] == g[y]
    {
      forall x | 0 <= x < w
        ensures r[y][x] == g[y][x]
      {
        ResizedKeepsIntersection(g, w, h, bw, bh, d, x, y);
        ResizedKeepsIntersection(big, bw, bh, w, h, d, x, y);
      }
    }
  }

  /** Resizing twice is resizing once when the middle grid is no smaller than the last one. */
  lemma ResizedThroughLarger<T>(g: seq<seq<T>>, w: nat, h: nat, mw: nat, mh: nat, nw: nat, nh: nat, d: T)
    requires IsRect(g, w, h)
    requires nw <= mw && nh <= mh
    ensures Resized(Resized(g, mw, mh, d), nw, nh, d) == Resized(g, nw, nh, d)
  {
    var mid := Resized(g, mw, mh, d);
    var r := Resized(mid, nw, nh, d);
    var s := Resized(g, nw, nh, d);
    forall y | 0 <= y < nh
      ensures r[y] == s[y]
    {
      forall x | 0 <= x < nw
        ensures r[y][x] == s[y][x]
      {
        ResizedKeepsIntersection(mid, mw, mh, nw, nh, d, x, y);
        if x < w && y < h {
          ResizedKeepsIntersection(g, w, h, mw, mh, d, x, y);
          ResizedKeepsIntersection(g, w, h, nw, nh, d, x, y);
        } else {
          ResizedFillsOutside(g, w, h, mw, mh, d, x, y);
          ResizedFillsOutside(g, w, h, nw, nh, d, x, y);
        }
      }
    }
  }
}
