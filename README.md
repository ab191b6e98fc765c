# Floor grid and furniture selection — a Dafny model

This project models the room-planning core of a Unity app. The app shows a
floor made of square cells, and the user places, drags, rotates and deletes
furniture pieces on it. The `Floor` component owns:

- a 2-D grid that maps each cell to the piece occupying it, or null;
- the grid size (`GridSize`);
- at most one selected piece;
- the camera controller's `allowCameraMovement` flag, which it writes.

Each `Furniture` piece has:

- a footprint `Size` in cells;
- a `StartPosition` slot that holds its placement as it was when it was selected.

How a piece moves through the floor:

1. Selecting a piece saves that snapshot and lifts the piece out of the grid.
2. Drag frames move it only to cells that pass the border test and whose
   footprint is free. The grid is not written while dragging.
3. Committing (`CancelSelection`) writes the piece back only if its footprint
   is free. Otherwise the commit is refused and the piece stays selected.
4. Cancelling (`CancelMovement`) restores the snapshot and then commits.

Resizing the room works in two steps. First it evicts and destroys every piece
that crosses the new border. Then it copies the overlap of the old grid into a
new one.

Files:

- `geometry.dfy` (module `Geometry`): footprint rectangles, the border test, and
  the condition under which the grid loops stay inside the array.
- `furniture.dfy` (modules `FurnitureStruct` and `Furnishing`): the
  `StartPosition` record and the `Furniture` class.
- `floor.dfy` (module `Room`): the `Floor` class. The grid is an
  `array2<Furniture?>` that its methods change cell by cell in nested loops, as
  the source does.
- `scenarios.dfy` (module `RoomScenarios`): whole interactions proved from the
  operations' contracts. These are the select–edit–cancel round trip, the
  two-piece placement on a 5 × 5 floor, the eviction by a shrinking resize,
  and the rotated piece that escapes the floor.
- `optional.dfy`: the `Option` type.

`Floor.Valid()` is the invariant that every operation keeps:

- the grid has the dimensions in `GridSize`;
- no cell refers to a destroyed piece;
- a selected piece has a snapshot and occupies no cell.

These operations keep the same grid array and also ensure
`KeepsOccupants(old(grid))`, which means no cell that held a piece ends up
holding a different piece:

- `CancelSelection`, `SelectObject`, `HandleTouchInput`, `Update`;
- `CancelMovement`, `CreateNewObject`, `DestroyObject`, `ClearObjectOnBorder`.

`ChangeRoomSize` makes the matching promise for its new grid: each cell that
existed before holds either its old occupant or null. `DeleteObjectFromGrid`
and `Destroy` only ever clear cells. `SetObjectToGrid` is the one unchecked
write: it overwrites every footprint cell, taken or not. Its only caller,
`CancelSelection`, first makes sure with `CheckCellsForObject` that those cells
are free.

Behaviour worth knowing:

- A rotation negates the footprint width (`Furniture.Rotate`). It does not swap
  width and height. So a rotated piece covers no cell, passes every free-cell
  test, and is written into no cell when it is committed.
- Two rotations restore the footprint but turn the piece by 180 degrees. The
  orientation comes back only after four turns (`Room.FullTurn`).
- The commit checks the footprint's cells but not the floor borders. Suppose
  the footprint leaves the grid. The cell scan runs column by column. If it
  meets a taken cell before any cell outside the grid, the commit is silently
  refused. Otherwise the source indexes outside the array. The model makes the
  footprint staying inside the grid (`Geometry.Fits`) a precondition of the
  commit, and of `CancelMovement` and `CreateNewObject`, which call it. This
  excludes both cases. `DestroyObject` skips the commit in that case instead.
- The free-cell test cannot ignore the piece's own cells. So the selected piece
  is lifted out of the grid while it is selected.
- `CreateNewObject` only tries to commit the previous selection. If that commit
  is refused, the previous piece is left in no cell and is no longer selected.
- Lifting the finger while a piece is selected only releases the camera. The
  piece stays selected where it is.
- The resize does not check the new size itself. A negative size would make
  the source throw, so the model requires non-negative sizes when a resize is
  available.
- The border test compares `x + sizeX` with the width without looking at the
  sign of `sizeX`. A rotated piece can therefore be dragged up to `|sizeX|`
  cells past the right border. Rotating it back then leaves an anchor whose
  footprint the grid cannot hold, and committing it would index outside the
  grid, unless an earlier scanned cell is taken.
  `RoomScenarios.TurnedPieceLeavesFloor` proves this for a 2 × 1 piece on a
  10 × 10 floor.
- A resize while a piece is selected can leave that piece's anchor outside the
  new grid. After that, the commit precondition no longer holds.

## Model

| member | source | states |
|---|---|---|
| `Geometry.FitsIffFootprintInside` | Assets/Scripts/Floor.cs:143-151 | `Fits` holds exactly when every cell of the footprint rectangle lies inside the grid, so the footprint loops never index outside the array |
| `Geometry.WithinBorders` | Assets/Scripts/Floor.cs:298-302 | the border test implies `Fits`; for a positive size it is equivalent to `Fits`; it accepts only non-negative anchors; for a rotated piece (negative width) it accepts anchors up to `w - sizeX`, past the right border |
| `Geometry.RotatedFootprintEmpty` | Assets/Scripts/Classes/Furniture.cs:22-25 | a piece whose width was negated by a rotation covers no cell |
| `Geometry.FootprintCells` | Assets/Scripts/Floor.cs:117-123 | the set of cells written for a piece is exactly its footprint rectangle, and it has `sizeX · sizeY` cells (none when a side is not positive) |
| `Furnishing.Furniture.constructor` | Assets/Scripts/Classes/Furniture.cs:6-8 | a new piece has the default size of one by one cell and no StartPosition yet |
| `Furnishing.Furniture.Instantiate` | Assets/Scripts/Floor.cs:100 | a copy of a prefab has the prefab's anchor, rotation and size, and no StartPosition |
| `Furnishing.Furniture.Rotate` | Assets/Scripts/Classes/Furniture.cs:22-25 | negates the width; keeps the depth, the anchor, the rotation and the StartPosition |
| `Furnishing.RotateTwice` | Assets/Scripts/Classes/Furniture.cs:22-25 | two rotations restore the original size and leave the StartPosition unchanged |
| `Room.NextOrientation` | Assets/Scripts/Floor.cs:215 | the new angle is a quarter turn on (`+90`, or `-270` when it wraps) and stays in `[0, 360)` |
| `Room.FullTurn` | Assets/Scripts/Floor.cs:213-218 | four quarter turns give back the starting orientation |
| `Room.Floor.constructor` | Assets/Scripts/Floor.cs:20-31 | the floor starts with an all-free grid of the configured size, nothing selected and the camera free to move |
| `Room.Floor.DeleteObjectFromGrid` | Assets/Scripts/Floor.cs:126-138 | every cell that held the piece becomes null; every other cell keeps its occupant |
| `Room.Floor.SetObjectToGrid` | Assets/Scripts/Floor.cs:112-124 | sets exactly the cells of the footprint `[x, x+sizeX) × [y, y+sizeY)` to the selected piece and no other cell; does nothing when nothing is selected |
| `Room.Floor.OccupiesFootprint` | Assets/Scripts/Floor.cs:112-124 | when a piece's cells are exactly the in-grid cells of its footprint, as the footprint loops leave them, and the footprint fits, the piece occupies exactly the cell set `FootprintCells` |
| `Room.Floor.CheckCellsForObject` | Assets/Scripts/Floor.cs:140-154 | returns true exactly when every cell of the piece's footprint at the given anchor is free |
| `Room.Floor.CancelSelection` | Assets/Scripts/Floor.cs:164-181 | with nothing selected, nothing changes; if a footprint cell is taken, the grid and the selection stay as they were; otherwise the piece covers exactly its footprint, the other cells are unchanged and nothing is selected |
| `Room.Floor.SavePositionOfSelectedObject` | Assets/Scripts/Floor.cs:183-188 | the selected piece's StartPosition becomes its current anchor, rotation and size; the placement itself is unchanged |
| `Room.Floor.SetStartPositionToSelectedObject` | Assets/Scripts/Floor.cs:190-197 | the selected piece's anchor, rotation and size become those of its StartPosition |
| `Room.Floor.SelectObject` | Assets/Scripts/Floor.cs:199-211 | the piece becomes the selection; its snapshot equals its current placement; it is removed from every cell and the other cells are unchanged |
| `Room.Floor.RotateSelectedObject` | Assets/Scripts/Floor.cs:213-218 | the rotation advances a quarter turn, the width is negated, and the anchor and snapshot are unchanged |
| `Room.Floor.HandleSelectedObjectMovement` | Assets/Scripts/Floor.cs:264-296 | the piece moves to the touched cell exactly when that cell passes the border test and its footprint is free; an accepted move stops the camera; a rejected move changes neither the anchor nor the camera flag; no touch releases the camera; the grid is never written |
| `Room.Floor.HandleTouchInput` | Assets/Scripts/Floor.cs:227-250 | a touch resting on a piece selects it, with the effects of `SelectObject`; any other input changes nothing: not the selection, the grid or the camera flag, nor the placement or snapshot of a piece that is picked without a touch |
| `Room.Floor.Update` | Assets/Scripts/Floor.cs:252-262 | with a selection, the frame is a drag, with the effects of `HandleSelectedObjectMovement`; without one, it may select the touched piece and leaves the camera flag unchanged; a picked piece that does not end up selected keeps its placement and snapshot |
| `Room.Floor.CancelMovement` | Assets/Scripts/Floor.cs:156-162 | the piece's anchor, rotation and size are restored from its snapshot; then it is committed there if that footprint is free, and otherwise it stays selected with the grid unchanged |
| `Room.Floor.CreateNewObject` | Assets/Scripts/Floor.cs:93-101 | a fresh copy of the prefab ends up selected, even when the commit of the previous selection was refused; in that case the previous piece is in no cell |
| `Room.Floor.Destroy` | Assets/Scripts/Floor.cs:85-87 | a destroyed piece counts as null: its cells become free, it is no longer selected, and it joins the destroyed pieces |
| `Room.Floor.DestroyObject` | Assets/Scripts/Floor.cs:103-110 | the selected piece is destroyed, also when its footprint leaves the grid; the grid is unchanged and nothing is selected; with nothing selected, nothing changes |
| `Room.Floor.ClearObjectOnBorder` | Assets/Scripts/Floor.cs:77-91 | every piece with a cell at column ≥ the new width or row ≥ the new depth is removed from all of its cells and destroyed; every other cell is unchanged |
| `Room.Floor.ChangeRoomSize` | Assets/Scripts/Floor.cs:33-75 | when the resize is unavailable, nothing changes; otherwise `GridSize` becomes the new size and the grid is a new array; each cell inside the old bounds keeps its occupant unless that piece crossed the new border, and every other cell is free; the crossing pieces are destroyed |
| `RoomScenarios.SelectEditCancel` | Assets/Scripts/Floor.cs:156-218 | selecting a piece, dragging and rotating it any number of times, and then cancelling restores its anchor, rotation and size; nothing is selected at the end; if the piece covered exactly its footprint before, the grid is as it was |
| `RoomScenarios.PlaceCopy` | Assets/Scripts/Floor.cs:93-181 | creating a piece while nothing is selected and committing it on a free footprint writes exactly that footprint |
| `RoomScenarios.PlaceCopyCovers` | Assets/Scripts/Floor.cs:93-181 | a copy placed on a free footprint inside the grid occupies exactly the cell set of that footprint |
| `RoomScenarios.DragTo` | Assets/Scripts/Floor.cs:252-302 | one drag frame on a cell moves the selected piece there exactly when the border test and the free-cell test pass |
| `RoomScenarios.PlaceTwoPieces` | Assets/Scripts/Floor.cs:140-154 | on a 5 × 5 floor with a 2 × 2 piece at (0, 0), a second 2 × 2 piece cannot move to (1, 1) but can move to (2, 2) and be placed there |
| `RoomScenarios.ShrinkEvicts` | Assets/Scripts/Floor.cs:33-91 | shrinking a 10 × 10 floor to 8 × 8 destroys a 2 × 2 piece anchored at (8, 8) and keeps a 2 × 2 piece at (0, 0) in its cells |
| `RoomScenarios.TurnedPieceLeavesFloor` | Assets/Scripts/Floor.cs:298-302 | a rotated 2 × 1 piece can be dragged to column 11 of a 10-wide floor; after it is rotated back, its footprint no longer fits the grid |

## Left out

- Camera pan and pinch zoom (`CameraController`) are not modelled. Only its `allowCameraMovement` flag is kept, as a field that the floor writes.
- The light colour component is cosmetic and is not modelled.
- The floor transform's position and scale arithmetic during a resize is presentation only. The eviction test compares the new size with the transform's scale; the model assumes that scale equals `GridSize`.
- Quaternions are not modelled. The orientation is an integer angle in `[0, 360)`, advanced by 90 modulo 360, as `eulerAngles.y` reports it.
- The raycast, the tag test and the float `deltaTime` debounce in `HandleTouchInput` are not modelled. They are folded into the input field `Frame.picked`, which names the piece a stationary touch has rested on long enough.
- The screen-to-ground ray intersection and its rounding are float geometry. The rounded ground cell is an integer input (`Frame.groundCell`).
- Visual-only effects are not modelled: the outline mode and colour, `SetTransparentForObject` (never called), the buttons' `SetActive`, and `OnDrawGizmos`.
- Unity's object lifetime is reduced to three things. `Instantiate` allocates a fresh piece. `Destroy` takes effect at the end of the frame and then makes references compare equal to null. The ghost set `destroyed` records the destroyed pieces.
- Room.Floor.CancelSelection: a footprint outside the grid is not modelled. The source then either indexes outside the array or, when the column-by-column scan meets a taken cell first, silently refuses the commit. The footprint staying inside the grid is a precondition instead.
- Room.Floor.ChangeRoomSize: the overflow exception for a negative size, raised after the eviction and the `GridSize` update, is not modelled. A non-negative size is a precondition when the resize is available.
- Room.Floor.RotateSelectedObject: the null-reference exception when nothing is selected is not modelled. `RotateSelectedObject` dereferences `selectedObject` without a null check, so the model requires a selection.
- The exceptions of `CancelMovement` and `CreateNewObject` come from their call to `CancelSelection` and are handled the same way, as preconditions. `DestroyObject` needs no such precondition: its destruction is scheduled before the commit, and a commit that would throw has written no cell.
- The `SizeChanger` component is not part of this model. Its `isAwailable`, `leftLength` and `rightLength` are parameters of `ChangeRoomSize`.
- Positions and sizes are whole numbers in this model. The source rounds drag positions to whole cells and casts positions to integers where it indexes the grid. Sizes are assumed to be whole: the footprint loops compare an integer counter with the float size, so a fractional size would be rounded up there, while the border test casts it (truncating).
