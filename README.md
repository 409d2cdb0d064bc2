# Grid-drawing widget: matrix store and cell-state rules

This project models the core of a small grid-drawing widget written in C++
with JUCE. It has two parts:

- `MatrixValueStore<T>` is a resizable two-dimensional matrix. It keeps its
  cells in one flat row-major buffer, so cell `(x, y)` sits at offset
  `y * width + x`. Every access through `operator()` is bounds-asserted, in
  debug builds only; the model turns that assertion into a precondition.
  `resize` fills a fresh buffer
  with default values, then copies the intersection of the old and new
  rectangles into it cell by cell. A cell keeps its coordinates, not its
  offset.
- The mouse handlers of `DrawGridComponent` write one of three `char` tags into
  a `MatrixValueStore<char>`. The tags are inactive (0), clicked (1) and
  mouse-over (2). The handlers follow a drawing mode (drawing or erasing) and
  use the cell that the hover logic remembered from the previous move.

Files:

- `Grids.dfy` (module `Grids`): grid values `seq<seq<T>>` with `g[y][x]` the
  cell at column `x` of row `y`. It defines the filled grid, the single-cell
  update and the resize function, with lemmas about resizing.
- `MatrixStore.dfy` (module `MatrixStore`): the offset function `LinearId`
  and its injectivity. It also holds the class `MatrixValueStore<T>`. The class
  has the fields `width`, `height` and `values: array<T>`. A ghost field
  `Cells` holds the grid value, and an invariant `Valid()` ties the flat buffer
  to it. `ResizeScenario` is a client walk-through: a 3×2 store, a write at
  (2, 1), then a resize to 2×3.
- `DrawGrid.dfy` (module `DrawGrid`): the tags and the drawing mode. The rule
  functions `AfterDown`, `AfterDrag` and `AfterMove` say what each handler does
  to the grid, and lemmas state their effect cell by cell. The class
  `DrawGridComponent` holds the store, the mode and the remembered cell. Its
  invariant says that every cell holds one of the three tags.
  `ShrinkThenMoveScenario` shows how a shrink strands the remembered cell.

Modelling decisions:

- C++'s `T()` has no generic Dafny counterpart. The store therefore receives
  its default element `zero` at construction and keeps it as a `const` field.
  The component passes `0 as char`, which is `char()`. That value is also
  `CELL_INACTIVE`, so a fresh or newly padded grid is all inactive.
- Dimensions are `nat`. The buffer has exactly `width * height` elements.
- A mouse event comes in as a flag `inside` (the result of
  `isMouseEventInComponent`) plus the cell coordinates it converts to. The
  handlers require those coordinates to be in range whenever `inside` holds.
  This is the store's access assertion.
- `mouseMove` keeps `prevX`/`prevY` as function-local statics. They become the
  fields `prevX`, `prevY` and `prevSet`. The source initialises the statics
  from the first event before it checks the event's position. So the first
  call sets the remembered cell even when the pointer is outside the
  component. Every later move outside leaves it alone.
- An in-component `mouseMove` reads the remembered cell through the store's
  checked accessor. `MouseMove` therefore requires `PrevInBounds()`.
  `SetGridSize` states exactly when that still holds afterwards. A shrink that
  excludes the remembered cell breaks it (`ShrinkThenMoveScenario`), because
  `setGridSize` does not touch the remembered cell.

## Model

| member | source | states |
|---|---|---|
| `Grids.Filled` | source/Source/MatrixValueStore.h:27-32 | the default-initialised grid has `height` rows of `width` cells, and every cell is the default value |
| `Grids.Updated` | source/Source/MatrixValueStore.h:56-60 | writing through the mutable accessor: the written cell reads back as `v`, every other cell and both dimensions stay as they were |
| `Grids.Resized` | source/Source/MatrixValueStore.h:85-106 | the resized grid has exactly the new width and height |
| `Grids.ResizedKeepsIntersection` | source/Source/MatrixValueStore.h:91-100 | each cell with `x < min(oldW, nw)` and `y < min(oldH, nh)` keeps its old value, by coordinate |
| `Grids.ResizedFillsOutside` | source/Source/MatrixValueStore.h:79-88 | each cell of the new rectangle that lies outside the old one holds the default value |
| `Grids.ResizedSameSize` | source/Source/MatrixValueStore.h:85-106 | resizing to the current dimensions leaves every cell unchanged |
| `Grids.GrowThenShrink` | source/Source/MatrixValueStore.h:85-106 | growing and then shrinking back to the old dimensions restores the original grid |
| `Grids.ResizedThroughLarger` | source/Source/MatrixValueStore.h:85-106 | two resizes whose middle size is at least the final size act as one resize to the final size |
| `MatrixStore.LinearId` | source/Source/MatrixValueStore.h:130-133 | for `x < width` and `y < height` the offset lies below `width * height`, inside the buffer |
| `MatrixStore.LinearIdInjective` | source/Source/MatrixValueStore.h:130-133 | two in-range cells share an offset if and only if they are the same cell |
| `MatrixStore.MatrixValueStore.constructor` | source/Source/MatrixValueStore.h:27-32 | the new store has the given dimensions and a buffer of `width * height` elements, and every cell holds the default value |
| `MatrixStore.MatrixValueStore.Width` | source/Source/MatrixValueStore.h:67 | `width()` returns the stored width, including for a store with no rows, and it is the number of cells in each row |
| `MatrixStore.MatrixValueStore.Height` | source/Source/MatrixValueStore.h:74 | `height()` is the number of rows |
| `MatrixStore.MatrixValueStore.Get` | source/Source/MatrixValueStore.h:41-47 | the const accessor demands `x < width` and `y < height` and returns the cell `(x, y)` of the grid |
| `MatrixStore.MatrixValueStore.Set` | source/Source/MatrixValueStore.h:56-60 | a write through the mutable accessor demands in-range coordinates, replaces exactly cell `(x, y)` and keeps the buffer, the dimensions and the size invariant |
| `MatrixStore.ResizeScenario` | source/Source/MatrixValueStore.h:85-106 | a 3×2 store written with `'A'` at (2, 1) and then resized to 2×3 is 2×3, and every cell, including the new row, holds the default value; the written cell is gone |
| `MatrixStore.MatrixValueStore.Resize` | source/Source/MatrixValueStore.h:85-106 | afterwards the dimensions are the new ones, the size invariant holds, the buffer is a fresh one, and the cells are the old grid resized with default padding |
| `DrawGrid.Flipped` | source/Source/DrawGridComponent.cpp:79-82 | the mode after a change differs from the mode before it |
| `DrawGrid.FlippedTwice` | source/Source/DrawGridComponent.cpp:79-82 | changing the mode twice restores the original mode |
| `DrawGrid.AfterDown` | source/Source/DrawGridComponent.cpp:113-117 | the grid after a press keeps its shape, and the pressed cell ends up clicked or mouse-over, never inactive |
| `DrawGrid.AfterDrag` | source/Source/DrawGridComponent.cpp:163-164 | the grid after a drag keeps its shape, and the dragged cell ends up clicked or mouse-over, never inactive |
| `DrawGrid.AfterMove` | source/Source/DrawGridComponent.cpp:136-144 | the grid after a move keeps its shape, and the current cell is never inactive afterwards |
| `DrawGrid.DownRule` | source/Source/DrawGridComponent.cpp:113-117 | a press sets the cell to mouse-over exactly when erasing or when it was clicked, and to clicked otherwise; no other cell changes |
| `DrawGrid.DownAgainAlternates` | source/Source/DrawGridComponent.cpp:113-117 | in drawing mode a second press on the same cell changes its tag again, and a pressed cell is never inactive |
| `DrawGrid.DragRule` | source/Source/DrawGridComponent.cpp:163-164 | a drag sets the cell to clicked exactly when drawing and to mouse-over exactly when erasing; no other cell changes |
| `DrawGrid.MoveCurrentRule` | source/Source/DrawGridComponent.cpp:136-138 | a move makes the current cell mouse-over if it was inactive and leaves it unchanged otherwise |
| `DrawGrid.MovePreviousRule` | source/Source/DrawGridComponent.cpp:141-144 | a remembered cell other than the current one goes from mouse-over to inactive and is otherwise unchanged; when the pointer stays on one cell only the current-cell rule applies |
| `DrawGrid.MoveFrame` | source/Source/DrawGridComponent.cpp:131-148 | a move changes no cell except the current and the remembered one |
| `DrawGrid.UpdatedKeepsTags` | source/Source/DrawGridComponent.h:24-29 | writing one of the three tags into a grid of tags gives a grid of tags |
| `DrawGrid.ResizedKeepsTags` | source/Source/DrawGridComponent.cpp:50-53 | resizing with inactive padding keeps the grid a grid of tags |
| `DrawGrid.HandlersKeepTags` | source/Source/DrawGridComponent.cpp:102-167 | press, drag and move all turn a grid of tags into a grid of tags |
| `DrawGrid.DrawGridComponent.constructor` | source/Source/DrawGridComponent.cpp:22-24 | the new component has a fresh all-inactive store of the given size, is in drawing mode, and has no remembered cell yet |
| `DrawGrid.DrawGridComponent.SetDrawingState` | source/Source/DrawGridComponent.h:57 | the mode becomes the given one, and nothing else changes |
| `DrawGrid.DrawGridComponent.ChangeDrawingState` | source/Source/DrawGridComponent.cpp:79-82 | the mode flips, the new mode is returned, and neither the grid nor the remembered cell changes |
| `DrawGrid.DrawGridComponent.SetGridSize` | source/Source/DrawGridComponent.cpp:50-53 | the store is resized with the intersection kept and the rest inactive; the mode and the remembered cell are untouched, and the remembered cell stays in range exactly when it lies inside the new dimensions |
| `DrawGrid.DrawGridComponent.MouseDown` | source/Source/DrawGridComponent.cpp:102-120 | outside the component nothing changes; inside, the grid becomes `AfterDown` of the old grid; the mode and the remembered cell are untouched |
| `DrawGrid.DrawGridComponent.MouseDrag` | source/Source/DrawGridComponent.cpp:153-167 | outside the component nothing changes; inside, the grid becomes `AfterDrag` of the old grid; the mode and the remembered cell are untouched |
| `DrawGrid.ShrinkThenMoveScenario` | source/Source/DrawGridComponent.cpp:50-53 | a 50×50 component that remembers (40, 40), when shrunk to 10×10 and then moved outside, still remembers (40, 40), so `PrevInBounds()` fails and the next move inside the component is excluded |
| `DrawGrid.DrawGridComponent.MouseMove` | source/Source/DrawGridComponent.cpp:122-151 | the first call remembers its cell; a move outside changes nothing else; a move inside needs the remembered cell in range, becomes `AfterMove` of the old grid, and remembers the current cell |

## Left out

- Painting is left out: `paint`, `drawCell`, `cellToRectangle` and the grid-line
  thickness. It is rendering through JUCE's `Graphics` with float rectangles
  and float division.
- `convertMouseXCoordinateToCell`, `convertMouseYCoordinateToCell` and
  `isMouseEventInComponent` are left out. They are float pixel arithmetic on a
  JUCE `MouseEvent`. The handlers receive their results, the `inside` flag and
  the cell coordinates, as parameters.
- The colour mapping, `repaint()`, `setSize`, the empty `resized()` and the JUCE
  `Component` base class are left out. They are foreign library calls.
- The default constructor arguments are left out: the component's
  `DEFAULT_GRID_WIDTH` and `DEFAULT_GRID_HEIGHT` (both 50) and the store's
  `width = 0, height = 0`. The model's constructors always take both sizes.
  No behaviour is lost: `new MatrixValueStore(0, 0, zero)` is the store those
  defaults give.
- `getDrawingState` is left out. The model reads the `drawingState` field
  directly.
- The store's deleted copy constructor, its deleted copy assignment and the
  commented-out `print` are left out. They have no behaviour.
- `size_type` wrap-around of `width * height` is not modelled. Dimensions are
  unbounded `nat`.
- Release builds are left out. There the `assert`s of `operator()` compile
  to nothing, and an out-of-range access goes through unchecked. The copy loop
  of `resize` never checks its indices in any build. The model requires every
  access to be in range (`PrevInBounds()` for the remembered cell), so it does
  not describe what an unchecked access does. Take a 50×50 grid shrunk to
  10×10. A remembered cell at (12, 3) then reaches offset 42, which is cell
  (2, 4) of the new grid. A remembered cell at (40, 40) reaches offset 440,
  which lies past the 100-element buffer.
- The statics `prevX` and `prevY` are one pair shared by every component
  instance. The model gives each component its own pair.
- The cell that the first `mouseMove` remembers for an event outside the
  component comes from converting pixel coordinates outside the widget. It is
  taken as whatever coordinates the caller passes.
- The element type's value-initialised `T()` is not expressible for a generic
  Dafny type. The store's constructor takes it as an argument instead.
