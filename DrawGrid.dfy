/**
 * The cell-state rules of the grid-drawing component: mouse handlers that
 * write tags into a matrix store of `char`, a drawing mode, and the cell
 * remembered by the hover logic. Handlers receive a flag saying whether the
 * pointer lies inside the component and the cell it maps to.
 */
module DrawGrid {
  import opened Grids
  import opened MatrixStore

  /** The cell tags written into the store (the `char` values 0, 1 and 2). */
  const CellInactive: char := 0 as char
  const CellClicked: char := 1 as char
  const CellMouseOver: char := 2 as char

  datatype DrawingState = Drawing | Erasing

  predicate IsTag(c: char)
  {
    c == CellInactive || c == CellClicked || c == CellMouseOver
  }

  /** Every cell of `g` holds one of the three tags. */
  predicate AllTags(g: seq<seq<char>>)
  {
    forall y, x :: 0 <= y < |g| && 0 <= x < |g[y]| ==> IsTag(g[y][x])
  }

  /** The other drawing mode. */
  function Flipped(s: DrawingState): (r: DrawingState)
    ensures r != s
  {
    if s == Drawing then Erasing else Drawing
  }

  lemma FlippedTwice(s: DrawingState)
    ensures Flipped(Flipped(s)) == s
  {
  }

  /** The grid after a press on cell (x, y): of the same shape, with that cell clicked or hovering. */
  function AfterDown(g: seq<seq<char>>, mode: DrawingState, x: nat, y: nat): (r: seq<seq<char>>)
    requires InGrid(g, x, y)
    ensures |r| == |g| && forall j :: 0 <= j < |g| ==> |r[j]| == |g[j]|
    ensures r[y][x] == CellClicked || r[y][x] == CellMouseOver
  {
    Updated(g, x, y, if mode == Erasing || g[y][x] == CellClicked then CellMouseOver else CellClicked)
  }

  /** The grid after a drag over cell (x, y): of the same shape, with that cell clicked or hovering. */
  function AfterDrag(g: seq<seq<char>>, mode: DrawingState, x: nat, y: nat): (r: seq<seq<char>>)
    requires InGrid(g, x, y)
    ensures |r| == |g| && forall j :: 0 <= j < |g| ==> |r[j]| == |g[j]|
    ensures r[y][x] == CellClicked || r[y][x] == CellMouseOver
  {
    Updated(g, x, y, if mode == Drawing then CellClicked else CellMouseOver)
  }

  /**
   * The grid after the pointer moves to cell (cx, cy) from the remembered
   * cell (px, py): an inactive current cell starts hovering, then a hovering
   * previous cell that is not the current one goes back to inactive. The
   * current cell is never inactive afterwards.
   */
  function AfterMove(g: seq<seq<char>>, cx: nat, cy: nat, px: nat, py: nat): (r: seq<seq<char>>)
    requires InGrid(g, cx, cy) && InGrid(g, px, py)
    ensures |r| == |g| && forall j :: 0 <= j < |g| ==> |r[j]| == |g[j]|
    ensures r[cy][cx] != CellInactive
  {
    var g1 := if g[cy][cx] == CellInactive then Updated(g, cx, cy, CellMouseOver) else g;
    if (cx != px || cy != py) && g1[py][px] == CellMouseOver then Updated(g1, px, py, CellInactive) else g1
  }

  /** A press makes the cell hover when erasing or when it was clicked, and clicked otherwise; no other cell changes. */
  lemma DownRule(g: seq<seq<char>>, mode: DrawingState, x: nat, y: nat)
    requires InGrid(g, x, y)
    ensures var r := AfterDown(g, mode, x, y);
      |r| == |g| && (forall j :: 0 <= j < |g| ==> |r[j]| == |g[j]|) &&
      (r[y][x] == CellMouseOver <==> mode == Erasing || g[y][x] == CellClicked) &&
      (r[y][x] == CellClicked <==> !(mode == Erasing || g[y][x] == CellClicked)) &&
      forall j, i :: 0 <= j < |g| && 0 <= i < |g[j]| && (i != x || j != y) ==> r[j][i] == g[j][i]
  {
  }

  /** In drawing mode, pressing the same cell again alternates it between clicked and hovering. */
  lemma DownAgainAlternates(g: seq<seq<char>>, x: nat, y: nat)
    requires InGrid(g, x, y)
    ensures var r := AfterDown(AfterDown(g, Drawing, x, y), Drawing, x, y);
      InGrid(AfterDown(g, Drawing, x, y), x, y) &&
      r[y][x] != AfterDown(g, Drawing, x, y)[y][x] && r[y][x] != CellInactive
  {
  }

  /** A drag paints the cell clicked when drawing and hovering when erasing; no other cell changes. */
  lemma DragRule(g: seq<seq<char>>, mode: DrawingState, x: nat, y: nat)
    requires InGrid(g, x, y)
    ensures var r := AfterDrag(g, mode, x, y);
      |r| == |g| && (forall j :: 0 <= j < |g| ==> |r[j]| == |g[j]|) &&
      (r[y][x] == CellClicked <==> mode == Drawing) &&
      (r[y][x] == CellMouseOver <==> mode == Erasing) &&
      forall j, i :: 0 <= j < |g| && 0 <= i < |g[j]| && (i != x || j != y) ==> r[j][i] == g[j][i]
  {
  }

  /** The current cell starts hovering exactly when it was inactive, and is otherwise left as it was. */
  lemma MoveCurrentRule(g: seq<seq<char>>, cx: nat, cy: nat, px: nat, py: nat)
    requires InGrid(g, cx, cy) && InGrid(g, px, py)
    ensures var r := AfterMove(g, cx, cy, px, py);
      InGrid(r, cx, cy) &&
      r[cy][cx] == (if g[cy][cx] == CellInactive then CellMouseOver else g[cy][cx])
  {
  }

  /**
   * A previous cell other than the current one goes from hovering back to
   * inactive and is otherwise left as it was; when the pointer stays on one
   * cell, only the current-cell rule applies.
   */
  lemma MovePreviousRule(g: seq<seq<char>>, cx: nat, cy: nat, px: nat, py: nat)
    requires InGrid(g, cx, cy) && InGrid(g, px, py)
    ensures var r := AfterMove(g, cx, cy, px, py);
      InGrid(r, px, py) &&
      ((cx != px || cy != py) ==>
        r[py][px] == (if g[py][px] == CellMouseOver then CellInactive else g[py][px])) &&
      ((cx == px && cy == py) ==> r == if g[cy][cx] == CellInactive then Updated(g, cx, cy, CellMouseOver) else g)
  {
  }

  /** A move touches at most the current and the previous cell. */
  lemma MoveFrame(g: seq<seq<char>>, cx: nat, cy: nat, px: nat, py: nat)
    requires InGrid(g, cx, cy) && InGrid(g, px, py)
    ensures var r := AfterMove(g, cx, cy, px, py);
      |r| == |g| && (forall j :: 0 <= j < |g| ==> |r[j]| == |g[j]|) &&
      forall j, i :: 0 <= j < |g| && 0 <= i < |g[j]| && (i != cx || j != cy) && (i != px || j != py) ==>
        r[j][i] == g[j][i]
  {
  }

  /** Writing a tag keeps a grid of tags a grid of tags. */
  lemma UpdatedKeepsTags(g: seq<seq<char>>, x: nat, y: nat, v: char)
    requires AllTags(g) && InGrid(g, x, y) && IsTag(v)
    ensures AllTags(Updated(g, x, y, v))
  {
    var r := Updated(g, x, y, v);
    forall j, i | 0 <= j < |r| && 0 <= i < |r[j]|
      ensures IsTag(r[j][i])
    {
      if i != x || j != y {
        assert r[j][i] == g[j][i];
      }
    }
  }

  /** Resizing with inactive padding keeps a grid of tags a grid of tags. */
  lemma ResizedKeepsTags(g: seq<seq<char>>, w: nat, h: nat, nw: nat, nh: nat)
    requires AllTags(g) && IsRect(g, w, h)
    ensures AllTags(Resized(g, nw, nh, CellInactive))
  {
    var r := Resized(g, nw, nh, CellInactive);
    forall j, i | 0 <= j < |r| && 0 <= i < |r[j]|
      ensures IsTag(r[j][i])
    {
      if i < w && j < h {
        ResizedKeepsIntersection(g, w, h, nw, nh, CellInactive, i, j);
      } else {
        ResizedFillsOutside(g, w, h, nw, nh, CellInactive, i, j);
      }
    }
  }

  /** The three handlers write only tags. */
  lemma HandlersKeepTags(g: seq<seq<char>>, mode: DrawingState, cx: nat, cy: nat, px: nat, py: nat)
    requires AllTags(g) && InGrid(g, cx, cy) && InGrid(g, px, py)
    ensures AllTags(AfterDown(g, mode, cx, cy))
    ensures AllTags(AfterDrag(g, mode, cx, cy))
    ensures AllTags(AfterMove(g, cx, cy, px, py))
  {
    UpdatedKeepsTags(g, cx, cy, if mode == Erasing || g[cy][cx] == CellClicked then CellMouseOver else CellClicked);
    UpdatedKeepsTags(g, cx, cy, if mode == Drawing then CellClicked else CellMouseOver);
    var g1 := if g[cy][cx] == CellInactive then Updated(g, cx, cy, CellMouseOver) else g;
    if g[cy][cx] == CellInactive {
      UpdatedKeepsTags(g, cx, cy, CellMouseOver);
    }
    if (cx != px || cy != py) && g1[py][px] == CellMouseOver {
      UpdatedKeepsTags(g1, px, py, CellInactive);
    }
  }

  class DrawGridComponent {
    var data: MatrixValueStore<char>
    var drawingState: DrawingState
    /** The cell remembered by the hover logic between moves. */
    var prevX: nat
    var prevY: nat
    /** Whether the remembered cell has been initialised by a first move. */
    var prevSet: bool

    /** The store is valid, defaults to the inactive tag and holds only tags. */
    ghost predicate Valid()
      reads this, data, data.values
    {
      data.Valid() && data.zero == CellInactive && AllTags(data.Cells)
    }

    /** The remembered cell, if any, lies inside the grid. */
    ghost predicate PrevInBounds()
      reads this, data
    {
      prevSet ==> prevX < data.width && prevY < data.height
    }

    constructor (gridWidth: nat, gridHeight: nat)
      ensures Valid() && fresh(data) && fresh(data.values)
      ensures data.width == gridWidth && data.height == gridHeight
      ensures data.Cells == Filled(gridWidth, gridHeight, CellInactive)
      ensures drawingState == Drawing && !prevSet
    {
      data := new MatrixValueStore<char>(gridWidth, gridHeight, CellInactive);
      drawingState := Drawing;
      prevX, prevY, prevSet := 0, 0, false;
    }

    method SetDrawingState(state: DrawingState)
      modifies this`drawingState
      ensures drawingState == state
    {
      drawingState := state;
    }

    /** Switches to the other mode and returns it. */
    method ChangeDrawingState() returns (s: DrawingState)
      modifies this`drawingState
      ensures drawingState == Flipped(old(drawingState)) && s == drawingState
    {
      drawingState := Flipped(drawingState);
      s := drawingState;
    }

    method SetGridSize(newWidth: nat, newHeight: nat)
      requires Valid()
      modifies data
      ensures Valid() && fresh(data.values)
      ensures data.width == newWidth && data.height == newHeight
      ensures data.Cells == Resized(old(data.Cells), newWidth, newHeight, CellInactive)
      ensures PrevInBounds() <==> (prevSet ==> prevX < newWidth && prevY < newHeight)
    {
      ResizedKeepsTags(data.Cells, data.width, data.height, newWidth, newHeight);
      data.Resize(newWidth, newHeight);
    }

    method MouseDown(inside: bool, x: nat, y: nat)
      requires Valid()
      requires inside ==> x < data.width && y < data.height
      modifies data`Cells, data.values
      ensures Valid()
      ensures data.Cells == if inside then AfterDown(old(data.Cells), drawingState, x, y) else old(data.Cells)
    {
      if !inside {
        return;
      }
      var element := data.Get(x, y);
      HandlersKeepTags(data.Cells, drawingState, x, y, x, y);
      if drawingState == Erasing || element == CellClicked {
        data.Set(x, y, CellMouseOver);
      } else {
        data.Set(x, y, CellClicked);
      }
    }

    method MouseDrag(inside: bool, x: nat, y: nat)
      requires Valid()
      requires inside ==> x < data.width && y < data.height
      modifies data`Cells, data.values
      ensures Valid()
      ensures data.Cells == if inside then AfterDrag(old(data.Cells), drawingState, x, y) else old(data.Cells)
    {
      if !inside {
        return;
      }
      HandlersKeepTags(data.Cells, drawingState, x, y, x, y);
      data.Set(x, y, if drawingState == Drawing then CellClicked else CellMouseOver);
    }

    /**
     * Hover handling. The first call, inside the component or not,
     * initialises the remembered cell to that call's cell. A move inside
     * reads the remembered cell, so it demands that cell to be in the grid.
     */
    method MouseMove(inside: bool, cx: nat, cy: nat)
      requires Valid()
      requires inside ==> cx < data.width && cy < data.height && PrevInBounds()
      modifies this`prevX, this`prevY, this`prevSet, data`Cells, data.values
      ensures Valid() && prevSet
      ensures var (px, py) := if old(prevSet) then (old(prevX), old(prevY)) else (cx, cy);
        if inside then
          data.Cells == AfterMove(old(data.Cells), cx, cy, px, py) && prevX == cx && prevY == cy
        else
          data.Cells == old(data.Cells) && prevX == px && prevY == py
    {
      if !prevSet {
        prevX, prevY, prevSet := cx, cy, true;
      }
      if !inside {
        return;
      }
      HandlersKeepTags(data.Cells, drawingState, cx, cy, prevX, prevY);
      ghost var g := data.Cells;

      var current := data.Get(cx, cy);
      if current == CellInactive {
        data.Set(cx, cy, CellMouseOver);
      }

      var prev := data.Get(prevX, prevY);
      if (cx != prevX || cy != prevY) && prev == CellMouseOver {
        data.Set(prevX, prevY, CellInactive);
      }
      assert data.Cells == AfterMove(g, cx, cy, prevX, prevY);

      prevX, prevY := cx, cy;
    }
  }

  /**
   * A 50 by 50 component remembers cell (40, 40) after a move there. A
   * shrink to 10 by 10 leaves that cell outside the grid, a move outside
   * the component keeps it, and so the next move inside the component
   * would read a cell the store does not have.
   */
  method ShrinkThenMoveScenario() returns (c: DrawGridComponent)
    ensures c.Valid() && c.data.width == 10 && c.data.height == 10
    ensures c.prevSet && c.prevX == 40 && c.prevY == 40
    ensures !c.PrevInBounds()
  {
    c := new DrawGridComponent(50, 50);
    c.MouseMove(true, 40, 40);
    c.SetGridSize(10, 10);
    c.MouseMove(false, 1, 1);
  }
}
