/**
 * A resizable matrix of elements of type T, stored row-major in one flat
 * buffer: cell (x, y) lives at offset y * width + x. Every access demands
 * in-range coordinates.
 */
module MatrixStore {
  import opened Grids

  /** Multiplication by the same factor is monotone. */
  lemma MulMonotone(a: nat, b: nat, c: nat)
    requires a <= b
    ensures a * c <= b * c
  {
  }

  /**
   * The row-major offset of cell (x, y) in a buffer of rows `width` long.
   * `height` is ghost: it only states the bound on the result.
   */
  function LinearId(x: nat, y: nat, width: nat, ghost height: nat): (id: nat)
    requires x < width && y < height
    ensures id < width * height
  {
    MulMonotone(y + 1, height, width);
    y * width + x
  }

  /** Two cells of one grid share an offset exactly when they are the same cell. */
  lemma LinearIdInjective(x: nat, y: nat, x': nat, y': nat, width: nat, height: nat)
    requires x < width && x' < width && y < height && y' < height
    ensures LinearId(x, y, width, height) == LinearId(x', y', width, height) <==> x == x' && y == y'
  {
    if y != y' {
      var (lo, hi, xlo) := if y < y' then (y, y', x) else (y', y, x');
      MulMonotone(lo + 1, hi, width);
      assert (lo + 1) * width == lo * width + width;
      assert lo * width + xlo < hi * width;
    }
  }

  class MatrixValueStore<T> {
    var width: nat
    var height: nat
    var values: array<T>
    /** The element type's default value, T(): every fresh cell holds it. */
    const zero: T
    /** The cells as a grid value: `Cells[y][x]` is the element at (x, y). */
    ghost var Cells: seq<seq<T>>

    /** The buffer holds width * height elements, laid out row by row. */
    ghost predicate Valid()
      reads this, values
    {
      values.Length == width * height &&
      IsRect(Cells, width, height) &&
      forall x: nat, y: nat :: x < width && y < height ==>
        values[LinearId(x, y, width, height)] == Cells[y][x]
    }

    constructor (width: nat, height: nat, zero: T)
      ensures Valid() && fresh(values)
      ensures this.width == width && this.height == height && this.zero == zero
      ensures Cells == Filled(width, height, zero)
    {
      this.width, this.height, this.zero := width, height, zero;
      values := new T[width * height](_ => zero);
      Cells := Filled(width, height, zero);
    }

    /** The number of cells in each row. */
    function Width(): (w: nat)
      reads this, values
      requires Valid()
      ensures w == width
      ensures forall y :: 0 <= y < |Cells| ==> |Cells[y]| == w
    {
      width
    }

    /** The number of rows. */
    function Height(): (h: nat)
      reads this, values
      requires Valid()
      ensures h == |Cells|
    {
      height
    }

    /** The element at (x, y). */
    function Get(x: nat, y: nat): (v: T)
      reads this, values
      requires Valid() && x < width && y < height
      ensures v == Cells[y][x]
    {
      values[LinearId(x, y, width, height)]
    }

    /** Writes `v` at (x, y) through the mutable accessor. */
    method Set(x: nat, y: nat, v: T)
      requires Valid() && x < width && y < height
      modifies this`Cells, values
      ensures Valid()
      ensures Cells == Updated(old(Cells), x, y, v)
    {
      values[LinearId(x, y, width, height)] := v;
      Cells := Updated(Cells, x, y, v);
      forall x': nat, y': nat | x' < width && y' < height
        ensures values[LinearId(x', y', width, height)] == Cells[y'][x']
      {
        LinearIdInjective(x, y, x', y', width, height);
      }
    }

    /**
     * Gives the matrix the new dimensions: a fresh buffer of default
     * elements receives, cell by cell, the elements of the intersection
     * of the old and new rectangles.
     */
    method Resize(newWidth: nat, newHeight: nat)
      requires Valid()
      modifies this
      ensures Valid() && fresh(values)
      ensures width == newWidth && height == newHeight
      ensures Cells == Resized(old(Cells), newWidth, newHeight, zero)
    {
      var newValues := new T[newWidth * newHeight](_ => zero);
      var copyWidth := Min(width, newWidth);
      var copyHeight := Min(height, newHeight);
      ghost var target := Resized(Cells, newWidth, newHeight, zero);

      var y := 0;
      while y < copyHeight
        invariant 0 <= y <= copyHeight
        invariant forall x': nat, y': nat :: x' < newWidth && y' < newHeight ==>
          newValues[LinearId(x', y', newWidth, newHeight)] ==
            if x' < copyWidth && y' < y then target[y'][x'] else zero
        modifies newValues
      {
        var x := 0;
        while x < copyWidth
          invariant 0 <= x <= copyWidth
          invariant forall x': nat, y': nat :: x' < newWidth && y' < newHeight ==>
            newValues[LinearId(x', y', newWidth, newHeight)] ==
              if x' < copyWidth && (y' < y || (y' == y && x' < x)) then target[y'][x'] else zero
          modifies newValues
        {
          var oldId := LinearId(x, y, width, height);
          var newId := LinearId(x, y, newWidth, newHeight);
          ResizedKeepsIntersection(Cells, width, height, newWidth, newHeight, zero, x, y);
          newValues[newId] := values[oldId];
          forall x': nat, y': nat | x' < newWidth && y' < newHeight
            ensures newValues[LinearId(x', y', newWidth, newHeight)] ==
              if x' < copyWidth && (y' < y || (y' == y && x' <= x)) then target[y'][x'] else zero
          {
            LinearIdInjective(x, y, x', y', newWidth, newHeight);
          }
          x := x + 1;
        }
        y := y + 1;
      }

      forall x': nat, y': nat | x' < newWidth && y' < newHeight
        ensures newValues[LinearId(x', y', newWidth, newHeight)] == target[y'][x']
      {
        if !(x' < copyWidth && y' < copyHeight) {
          ResizedFillsOutside(Cells, width, height, newWidth, newHeight, zero, x', y');
        }
      }
      values, width, height := newValues, newWidth, newHeight;
      Cells := target;
    }
  }

  /**
   * A 3 by 2 store, one write at (2, 1), then a resize to 2 by 3: the
   * written cell falls outside the new width and is gone, and every cell
   * of the new store, the new row included, holds the default value.
   */
  method ResizeScenario() returns (m: MatrixValueStore<char>)
    ensures m.Valid() && m.width == 2 && m.height == 3
    ensures forall x: nat, y: nat :: x < 2 && y < 3 ==> m.Get(x, y) == 0 as char
  {
    m := new MatrixValueStore<char>(3, 2, 0 as char);
    m.Set(2, 1, 'A');
    assert m.Get(2, 1) == 'A';
    ghost var before := m.Cells;
    m.Resize(2, 3);
    forall x: nat, y: nat | x < 2 && y < 3
      ensures m.Get(x, y) == 0 as char
    {
      if y < 2 {
        ResizedKeepsIntersection(before, 3, 2, 2, 3, 0 as char, x, y);
      } else {
        ResizedFillsOutside(before, 3, 2, 2, 3, 0 as char, x, y);
      }
    }
  }
}
