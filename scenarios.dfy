/** Whole interactions on the floor, proved from the contracts of its operations. */
module RoomScenarios {
  import opened Optional
  import opened Geometry
  import opened FurnitureStruct
  import opened Furnishing
  import opened Room

  /** A user action while a piece is selected: one frame of drag input, or the rotate button. */
  datatype Edit = Drag(touching: bool, groundCell: Option<(int, int)>) | Turn

  /** Every cell of o's footprint holds o or nothing, and the footprint lies inside the grid. */
  ghost predicate RestsOnFootprint(floor: Floor, o: Furniture)
    reads floor, floor.grid, o
  {
    && Fits(o.x, o.z, o.sizeX, o.sizeY, floor.gridW, floor.gridH)
    && forall i, j ::
         0 <= i < floor.grid.Length0 && 0 <= j < floor.grid.Length1 && InFootprint(i, j, o.x, o.z, o.sizeX, o.sizeY)
         ==> floor.grid[i, j] == o || floor.grid[i, j] == null
  }

  /**
   * Select o, apply any drags and turns, then cancel: o is back where it
   * was, nothing is selected, o covers exactly its footprint and every other
   * cell is as before; so if o covered exactly its footprint beforehand, the
   * grid is unchanged.
   */
  method SelectEditCancel(floor: Floor, o: Furniture, edits: seq<Edit>)
    requires floor.Valid() && o !in floor.destroyed && RestsOnFootprint(floor, o)
    modifies floor, floor.grid, o
    ensures floor.Valid()
    ensures floor.selectedObject == null
    ensures o.Snapshot() == old(o.Snapshot())
    ensures floor.grid == old(floor.grid)
    ensures forall i, j :: 0 <= i < floor.gridW && 0 <= j < floor.gridH ==>
      floor.grid[i, j] == (if InFootprint(i, j, o.x, o.z, o.sizeX, o.sizeY) then o
                           else if old(floor.grid[i, j]) == o then null
                           else old(floor.grid[i, j]))
    ensures (forall i, j :: 0 <= i < floor.gridW && 0 <= j < floor.gridH ==>
               (old(floor.grid[i, j]) == o <==> InFootprint(i, j, o.x, o.z, o.sizeX, o.sizeY))) ==>
            forall i, j :: 0 <= i < floor.gridW && 0 <= j < floor.gridH ==> floor.grid[i, j] == old(floor.grid[i, j])
  {
    ghost var start := o.Snapshot();
    floor.SelectObject(o);
    var k := 0;
    while k < |edits|
      invariant 0 <= k <= |edits|
      invariant floor.Valid() && floor.selectedObject == o
      invariant o.startPosition == Some(start)
      invariant floor.grid == old(floor.grid) && floor.gridW == old(floor.gridW) && floor.gridH == old(floor.gridH)
      invariant forall i, j :: 0 <= i < floor.gridW && 0 <= j < floor.gridH ==>
        floor.grid[i, j] == (if old(floor.grid[i, j]) == o then null else old(floor.grid[i, j]))
    {
      match edits[k] {
        case Drag(touching, cell) =>
          floor.Update(Frame(touching, cell, None));
        case Turn =>
          floor.RotateSelectedObject();
      }
      k := k + 1;
    }
    floor.CancelMovement();
  }

  /**
   * Create a copy of prefab and commit it where the prefab stands: with
   * nothing selected and a free footprint there, the copy ends up covering
   * exactly that footprint and nothing is selected.
   */
  method PlaceCopy(floor: Floor, prefab: Furniture) returns (p: Furniture)
    requires floor.Valid() && floor.selectedObject == null
    requires Fits(prefab.x, prefab.z, prefab.sizeX, prefab.sizeY, floor.gridW, floor.gridH)
    requires floor.FootprintFree(prefab.x, prefab.z, prefab.sizeX, prefab.sizeY)
    modifies floor, floor.grid
    ensures floor.Valid() && floor.selectedObject == null && fresh(p)
    ensures p.Snapshot() == prefab.Snapshot()
    ensures floor.grid == old(floor.grid) && floor.gridW == old(floor.gridW) && floor.gridH == old(floor.gridH)
    ensures forall i, j :: 0 <= i < floor.gridW && 0 <= j < floor.gridH ==>
      floor.grid[i, j] == (if InFootprint(i, j, p.x, p.z, p.sizeX, p.sizeY) then p else old(floor.grid[i, j]))
  {
    floor.CreateNewObject(prefab);
    p := floor.selectedObject;
    floor.CancelSelection();
  }

  /** A placed copy occupies exactly the cell set of its footprint, and no other cell. */
  method PlaceCopyCovers(floor: Floor, prefab: Furniture) returns (p: Furniture)
    requires floor.Valid() && floor.selectedObject == null
    requires Fits(prefab.x, prefab.z, prefab.sizeX, prefab.sizeY, floor.gridW, floor.gridH)
    requires floor.FootprintFree(prefab.x, prefab.z, prefab.sizeX, prefab.sizeY)
    modifies floor, floor.grid
    ensures floor.Valid() && floor.selectedObject == null && fresh(p)
    ensures floor.CellsOf(p) == FootprintCells(prefab.x, prefab.z, prefab.sizeX, prefab.sizeY)
  {
    p := PlaceCopy(floor, prefab);
    floor.OccupiesFootprint(p);
  }

  /** Drag the selected piece for one frame with a finger on cell (x, z). */
  method DragTo(floor: Floor, x: int, z: int)
    requires floor.Valid() && floor.selectedObject != null
    modifies floor, floor.grid, floor.selectedObject
    ensures floor.Valid() && floor.selectedObject == old(floor.selectedObject)
    ensures floor.grid == old(floor.grid) && floor.gridW == old(floor.gridW) && floor.gridH == old(floor.gridH)
    ensures forall i, j :: 0 <= i < floor.gridW && 0 <= j < floor.gridH ==> floor.grid[i, j] == old(floor.grid[i, j])
    ensures var o := floor.selectedObject;
      var accepted := WithinBorders(x, z, o.sizeX, o.sizeY, floor.gridW, floor.gridH) &&
                      old(floor.FootprintFree(x, z, o.sizeX, o.sizeY));
      && o.sizeX == old(o.sizeX) && o.sizeY == old(o.sizeY) && o.startPosition == old(o.startPosition)
      && (o.x, o.z) == (if accepted then (x, z) else old((o.x, o.z)))
  {
    floor.Update(Frame(true, Some((x, z)), None));
  }

  /**
   * On an empty 5 × 5 floor: piece A (2 × 2) is placed at (0, 0); piece B
   * (2 × 2) cannot be dragged to (1, 1), where it would overlap A, but can be
   * dragged to (2, 2) and placed there.
   */
  method PlaceTwoPieces() returns (floor: Floor, a: Furniture, b: Furniture)
    ensures floor.Valid() && floor.selectedObject == null
    ensures a != b && a.x == 0 && a.z == 0 && b.x == 2 && b.z == 2
    ensures floor.grid.Length0 == 5 && floor.grid.Length1 == 5
    ensures floor.grid[0, 0] == a && floor.grid[1, 0] == a && floor.grid[0, 1] == a && floor.grid[1, 1] == a
    ensures floor.grid[2, 2] == b && floor.grid[3, 2] == b && floor.grid[2, 3] == b && floor.grid[3, 3] == b
    ensures floor.grid[2, 0] == null && floor.grid[4, 4] == null && floor.grid[1, 2] == null
  {
    floor := new Floor(5, 5);
    var prefab := new Furniture(0, 0, 0);
    prefab.sizeX, prefab.sizeY := 2, 2;
    a := PlaceCopy(floor, prefab);

    floor.CreateNewObject(prefab);
    b := floor.selectedObject;
    assert floor.grid[1, 1] == a;
    DragTo(floor, 1, 1);
    assert b.x == 0 && b.z == 0;
    DragTo(floor, 2, 2);
    assert b.x == 2 && b.z == 2;
    floor.CancelSelection();
  }

  /**
   * A turned piece has a negative width, so the border test lets it be
   * dragged past the right border; turning it back then leaves it at an
   * anchor whose footprint the grid cannot hold, and committing it would
   * index outside the grid.
   */
  method TurnedPieceLeavesFloor() returns (floor: Floor, p: Furniture)
    ensures floor.Valid() && floor.selectedObject == p
    ensures p.x == 11 && p.sizeX == 2 && p.sizeY == 1 && floor.gridW == 10
    ensures !floor.SelectionFits()
  {
    floor := new Floor(10, 10);
    var prefab := new Furniture(0, 0, 0);
    prefab.sizeX := 2;
    floor.CreateNewObject(prefab);
    p := floor.selectedObject;
    floor.RotateSelectedObject();
    assert p.sizeX == -2;
    assert floor.FootprintFree(11, 0, -2, 1);
    floor.Update(Frame(true, Some((11, 0)), None));
    assert p.x == 11;
    floor.RotateSelectedObject();
  }

  /**
   * On a 10 × 10 floor with a 2 × 2 piece at (0, 0) and another at (8, 8),
   * shrinking the room to 8 × 8 destroys the second piece, which crosses the
   * new border, and keeps the first one where it was.
   */
  method ShrinkEvicts() returns (floor: Floor, a: Furniture, b: Furniture)
    ensures floor.Valid() && floor.gridW == 8 && floor.gridH == 8
    ensures b in floor.destroyed && a !in floor.destroyed
    ensures floor.grid[0, 0] == a && floor.grid[1, 1] == a
    ensures floor.grid[7, 7] == null && floor.grid[2, 2] == null
  {
    floor := new Floor(10, 10);
    var prefab := new Furniture(0, 0, 0);
    prefab.sizeX, prefab.sizeY := 2, 2;
    a := PlaceCopy(floor, prefab);
    prefab.x, prefab.z := 8, 8;
    assert floor.FootprintFree(8, 8, 2, 2);
    b := PlaceCopy(floor, prefab);
    assert floor.grid[8, 8] == b && floor.grid[0, 0] == a;
    assert b in floor.CrossingBorder(8, 8);
    assert a !in floor.CrossingBorder(8, 8);
    floor.ChangeRoomSize(true, 8, 8);
  }
}
