/**
 * The floor: a grid mapping cells to the piece that occupies them, at most
 * one selected piece, and the select / drag / commit / cancel cycle around it.
 */
module Room {
  import opened Optional
  import opened Geometry
  import opened FurnitureStruct
  import opened Furnishing

  /** The orientation a quarter turn further on, wrapped into [0, 360). */
  function NextOrientation(r: Degrees): (n: Degrees)
    ensures n == r + 90 || n == r - 270
  {
    (r + 90) % 360
  }

  /**
   * One frame of touch input as Unity's touch input and raycasts deliver it:
   * whether a finger is down, the cell nearest to where touch 0's ray meets
   * the ground plane (rounded to whole cells; None when the ray misses it),
   * and the piece a stationary touch has rested on for the debounce delay.
   */
  datatype Frame = Frame(touching: bool, groundCell: Option<(int, int)>, picked: Option<Furniture>)
  {
    function PickedSet(): set<Furniture>
    {
      if picked.Some? then {picked.value} else {}
    }
  }

  /** Rotating four times brings a piece back to the orientation it started with. */
  lemma FullTurn(r: Degrees)
    ensures NextOrientation(NextOrientation(NextOrientation(NextOrientation(r)))) == r
  {
  }

  /**
   * Between the two states, no cell of g that held a piece came to hold a
   * different piece: an occupant can only leave its cell.
   */
  twostate predicate KeepsOccupants(g: array2<Furniture?>)
    reads g
  {
    forall i, j :: 0 <= i < g.Length0 && 0 <= j < g.Length1 && old(g[i, j]) != null ==>
      g[i, j] == old(g[i, j]) || g[i, j] == null
  }

  class Floor {
    /** GridSize: the floor's width and depth in cells. */
    var gridW: int
    var gridH: int
    /** Occupant of each cell, null when free. */
    var grid: array2<Furniture?>
    var selectedObject: Furniture?
    /** The camera controller's allowCameraMovement flag, which the floor writes. */
    var allowCameraMovement: bool
    /** Pieces destroyed so far; a reference to one of them compares equal to null. */
    ghost var destroyed: set<Furniture?>

    ghost predicate Valid()
      reads this, grid, selectedObject
    {
      && grid.Length0 == gridW && grid.Length1 == gridH
      && (forall i, j :: 0 <= i < gridW && 0 <= j < gridH && grid[i, j] != null ==> grid[i, j] !in destroyed)
      && (selectedObject != null ==>
            && selectedObject !in destroyed
            && selectedObject.startPosition.Some?
            && NotInGrid(selectedObject))
    }

    /** No cell refers to o. */
    ghost predicate NotInGrid(o: Furniture)
      reads this, grid
    {
      forall i, j :: 0 <= i < grid.Length0 && 0 <= j < grid.Length1 ==> grid[i, j] != o
    }

    /** The cells that refer to o. */
    ghost function CellsOf(o: Furniture): set<(int, int)>
      reads this, grid
    {
      set i, j | 0 <= i < grid.Length0 && 0 <= j < grid.Length1 && grid[i, j] == o :: (i, j)
    }

    /**
     * When the cells that refer to o are exactly the in-grid cells of its
     * footprint, as a commit leaves them, and that footprint fits the grid,
     * then o occupies exactly the footprint's cell set.
     */
    lemma {:induction false} OccupiesFootprint(o: Furniture)
      requires Fits(o.x, o.z, o.sizeX, o.sizeY, grid.Length0, grid.Length1)
      requires forall i, j :: 0 <= i < grid.Length0 && 0 <= j < grid.Length1 ==>
        (grid[i, j] == o <==> InFootprint(i, j, o.x, o.z, o.sizeX, o.sizeY))
      ensures CellsOf(o) == FootprintCells(o.x, o.z, o.sizeX, o.sizeY)
    {
      var cells := FootprintCells(o.x, o.z, o.sizeX, o.sizeY);
      FitsIffFootprintInside(o.x, o.z, o.sizeX, o.sizeY, grid.Length0, grid.Length1);
      forall c | c in cells ensures c in CellsOf(o) {
        var (i, j) := c;
        assert InFootprint(i, j, o.x, o.z, o.sizeX, o.sizeY);
      }
    }

    /** Every cell of the footprint that lies in the grid is free. */
    ghost predicate FootprintFree(x: int, z: int, sx: int, sy: int)
      reads this, grid
    {
      forall i, j :: 0 <= i < grid.Length0 && 0 <= j < grid.Length1 && InFootprint(i, j, x, z, sx, sy) ==>
        grid[i, j] == null
    }

    /**
     * A drag frame moves a piece of size (sx, sy): a finger is down, its ray
     * meets the ground, and the cell it rounds to passes the border test and
     * has a free footprint.
     */
    ghost predicate DragAccepted(touching: bool, groundCell: Option<(int, int)>, sx: int, sy: int)
      reads this, grid
    {
      && touching && groundCell.Some?
      && WithinBorders(groundCell.value.0, groundCell.value.1, sx, sy, gridW, gridH)
      && FootprintFree(groundCell.value.0, groundCell.value.1, sx, sy)
    }

    /** The selected piece's footprint at its current anchor stays inside the grid arrays' range. */
    ghost predicate SelectionFits()
      reads this, selectedObject
    {
      selectedObject != null ==>
        Fits(selectedObject.x, selectedObject.z, selectedObject.sizeX, selectedObject.sizeY, gridW, gridH)
    }

    /** Awake: an empty grid of the configured size, nothing selected. */
    constructor (width: nat, height: nat)
      ensures Valid() && fresh(grid)
      ensures gridW == width && gridH == height
      ensures forall i, j :: 0 <= i < width && 0 <= j < height ==> grid[i, j] == null
      ensures selectedObject == null && allowCameraMovement && destroyed == {}
    {
      gridW, gridH := width, height;
      grid := new Furniture?[width, height]((i, j) => null);
      selectedObject := null;
      allowCameraMovement := true;
      destroyed := {};
    }

    /** Clear every cell that refers to obj; every other cell keeps its occupant. */
    method DeleteObjectFromGrid(obj: Furniture)
      modifies grid
      ensures forall i, j :: 0 <= i < grid.Length0 && 0 <= j < grid.Length1 ==>
        grid[i, j] == (if old(grid[i, j]) == obj then null else old(grid[i, j]))
    {
      var i := 0;
      while i < grid.Length0
        invariant 0 <= i <= grid.Length0
        invariant forall a, b :: 0 <= a < grid.Length0 && 0 <= b < grid.Length1 ==>
          grid[a, b] == (if a < i && old(grid[a, b]) == obj then null else old(grid[a, b]))
      {
        var j := 0;
        while j < grid.Length1
          invariant 0 <= j <= grid.Length1
          invariant forall a, b :: 0 <= a < grid.Length0 && 0 <= b < grid.Length1 ==>
            grid[a, b] == (if (a < i || (a == i && b < j)) && old(grid[a, b]) == obj then null else old(grid[a, b]))
        {
          if grid[i, j] == obj {
            grid[i, j] := null;
          }
          j := j + 1;
        }
        i := i + 1;
      }
    }

    /**
     * Write the selected piece into its footprint anchored at (placeX, placeY);
     * nothing happens when no piece is selected. No occupancy test is made here.
     */
    method SetObjectToGrid(placeX: int, placeY: int)
      requires selectedObject != null ==>
        Fits(placeX, placeY, selectedObject.sizeX, selectedObject.sizeY, grid.Length0, grid.Length1)
      modifies grid
      ensures forall i, j :: 0 <= i < grid.Length0 && 0 <= j < grid.Length1 ==>
        grid[i, j] == (if selectedObject != null &&
                          InFootprint(i, j, placeX, placeY, selectedObject.sizeX, selectedObject.sizeY)
                       then selectedObject else old(grid[i, j]))
    {
      if selectedObject == null {
        return;
      }
      var obj := selectedObject;
      var sx, sy := obj.sizeX, obj.sizeY;
      var x := 0;
      while x < sx
        invariant 0 <= x && (x <= sx || x == 0)
        invariant forall a, b :: 0 <= a < grid.Length0 && 0 <= b < grid.Length1 ==>
          grid[a, b] == (if InFootprint(a, b, placeX, placeY, x, sy) then obj else old(grid[a, b]))
      {
        var y := 0;
        while y < sy
          invariant 0 <= y && (y <= sy || y == 0)
          invariant forall a, b :: 0 <= a < grid.Length0 && 0 <= b < grid.Length1 ==>
            grid[a, b] == (if InFootprint(a, b, placeX, placeY, x, sy) || (a == placeX + x && placeY <= b < placeY + y)
                           then obj else old(grid[a, b]))
        {
          grid[placeX + x, placeY + y] := obj;
          y := y + 1;
        }
        x := x + 1;
      }
    }

    /** True exactly when every cell of obj's footprint anchored at (placeX, placeY) is free. */
    method CheckCellsForObject(obj: Furniture, placeX: int, placeY: int) returns (free: bool)
      requires Fits(placeX, placeY, obj.sizeX, obj.sizeY, grid.Length0, grid.Length1)
      ensures free <==> FootprintFree(placeX, placeY, obj.sizeX, obj.sizeY)
    {
      var sx, sy := obj.sizeX, obj.sizeY;
      var x := 0;
      while x < sx
        invariant 0 <= x && (x <= sx || x == 0)
        invariant FootprintFree(placeX, placeY, x, sy)
      {
        var y := 0;
        while y < sy
          invariant 0 <= y && (y <= sy || y == 0)
          invariant FootprintFree(placeX, placeY, x, sy)
          invariant FootprintFree(placeX + x, placeY, 1, y)
        {
          if grid[placeX + x, placeY + y] != null {
            return false;
          }
          y := y + 1;
        }
        x := x + 1;
      }
      return true;
    }

    /**
     * Commit the selection: write the selected piece into the grid at its
     * current anchor if all of those cells are free, then deselect. When a cell
     * is taken the commit is refused and the piece stays selected. With
     * nothing selected nothing happens.
     */
    method CancelSelection()
      requires Valid() && SelectionFits()
      modifies this, grid
      ensures Valid()
      ensures KeepsOccupants(old(grid))
      ensures grid == old(grid) && gridW == old(gridW) && gridH == old(gridH)
      ensures allowCameraMovement == old(allowCameraMovement) && destroyed == old(destroyed)
      ensures var o := old(selectedObject);
        if o == null || !old(FootprintFree(o.x, o.z, o.sizeX, o.sizeY)) then
          && selectedObject == o
          && forall i, j :: 0 <= i < gridW && 0 <= j < gridH ==> grid[i, j] == old(grid[i, j])
        else
          && selectedObject == null
          && forall i, j :: 0 <= i < gridW && 0 <= j < gridH ==>
               grid[i, j] == (if InFootprint(i, j, o.x, o.z, o.sizeX, o.sizeY) then o else old(grid[i, j]))
    {
      if selectedObject == null {
        return;
      }
      var px, pz := selectedObject.x, selectedObject.z;
      var free := CheckCellsForObject(selectedObject, px, pz);
      if !free {
        return;
      }
      DeleteObjectFromGrid(selectedObject);
      SetObjectToGrid(px, pz);
      selectedObject := null;
    }

    /** Save the selected piece's anchor, rotation and size into its StartPosition slot. */
    method SavePositionOfSelectedObject()
      modifies selectedObject
      ensures selectedObject != null ==>
        && selectedObject.startPosition == Some(old(selectedObject.Snapshot()))
        && selectedObject.Snapshot() == old(selectedObject.Snapshot())
    {
      if selectedObject == null {
        return;
      }
      selectedObject.startPosition := Some(selectedObject.Snapshot());
    }

    /** Put the selected piece's anchor, rotation and size back to its StartPosition. */
    method SetStartPositionToSelectedObject()
      requires selectedObject != null ==> selectedObject.startPosition.Some?
      modifies selectedObject
      ensures selectedObject != null ==>
        && selectedObject.Snapshot() == old(selectedObject.startPosition.value)
        && selectedObject.startPosition == old(selectedObject.startPosition)
    {
      if selectedObject == null {
        return;
      }
      var startPosition := selectedObject.startPosition.value;
      selectedObject.x, selectedObject.z := startPosition.x, startPosition.z;
      selectedObject.rotation := startPosition.rotation;
      selectedObject.sizeX, selectedObject.sizeY := startPosition.cellsX, startPosition.cellsY;
    }

    /**
     * Select obj: remember its placement as its StartPosition and lift it out
     * of the grid, so that it does not block its own moves. A piece that was
     * selected before is dropped from the selection as it is.
     */
    method SelectObject(obj: Furniture)
      requires Valid() && obj !in destroyed
      modifies this, grid, obj
      ensures Valid()
      ensures KeepsOccupants(old(grid))
      ensures selectedObject == obj
      ensures obj.startPosition == Some(old(obj.Snapshot())) && obj.Snapshot() == old(obj.Snapshot())
      ensures grid == old(grid) && gridW == old(gridW) && gridH == old(gridH)
      ensures allowCameraMovement == old(allowCameraMovement) && destroyed == old(destroyed)
      ensures forall i, j :: 0 <= i < gridW && 0 <= j < gridH ==>
        grid[i, j] == (if old(grid[i, j]) == obj then null else old(grid[i, j]))
    {
      selectedObject := obj;
      SavePositionOfSelectedObject();
      DeleteObjectFromGrid(selectedObject);
    }

    /**
     * Turn the selected piece a quarter turn: its rotation advances by 90
     * degrees and its width is negated; nothing is checked against the grid.
     */
    method RotateSelectedObject()
      requires Valid() && selectedObject != null
      modifies selectedObject
      ensures Valid()
      ensures selectedObject.rotation == NextOrientation(old(selectedObject.rotation))
      ensures selectedObject.sizeX == -old(selectedObject.sizeX) && selectedObject.sizeY == old(selectedObject.sizeY)
      ensures selectedObject.x == old(selectedObject.x) && selectedObject.z == old(selectedObject.z)
      ensures selectedObject.startPosition == old(selectedObject.startPosition)
    {
      var rotate := NextOrientation(selectedObject.rotation);
      selectedObject.Rotate();
      selectedObject.rotation := rotate;
    }

    /**
     * One frame of dragging the selected piece. A touch whose ground cell
     * passes the border test and whose footprint there is free moves the
     * piece there and stops the camera; a rejected cell leaves everything as
     * it was. With no touch the camera is released. The grid is never written.
     */
    method HandleSelectedObjectMovement(touching: bool, groundCell: Option<(int, int)>)
      requires Valid() && selectedObject != null
      modifies this`allowCameraMovement, selectedObject
      ensures Valid()
      ensures var o := selectedObject;
        var accepted := DragAccepted(touching, groundCell, o.sizeX, o.sizeY);
        && (o.x, o.z) == (if accepted then groundCell.value else old((o.x, o.z)))
        && allowCameraMovement == (if !touching then true else if accepted then false else old(allowCameraMovement))
      ensures selectedObject.sizeX == old(selectedObject.sizeX) && selectedObject.sizeY == old(selectedObject.sizeY)
      ensures selectedObject.rotation == old(selectedObject.rotation)
      ensures selectedObject.startPosition == old(selectedObject.startPosition)
    {
      var sx, sy := selectedObject.sizeX, selectedObject.sizeY;
      if touching {
        if groundCell.Some? {
          var (wx, wz) := groundCell.value;
          if WithinBorders(wx, wz, sx, sy, gridW, gridH) {
            var free := CheckCellsForObject(selectedObject, wx, wz);
            if free {
              selectedObject.x, selectedObject.z := wx, wz;
              allowCameraMovement := false;
            }
          }
        }
      } else {
        allowCameraMovement := true;
      }
    }

    /** While nothing is selected, a touch resting on a piece selects it. */
    method HandleTouchInput(touching: bool, picked: Option<Furniture>)
      requires Valid()
      requires picked.Some? ==> picked.value !in destroyed
      modifies this, grid, if picked.Some? then {picked.value} else {}
      ensures Valid()
      ensures KeepsOccupants(old(grid))
      ensures grid == old(grid) && gridW == old(gridW) && gridH == old(gridH)
      ensures allowCameraMovement == old(allowCameraMovement) && destroyed == old(destroyed)
      ensures !(touching && picked.Some?) ==>
        && selectedObject == old(selectedObject)
        && forall i, j :: 0 <= i < gridW && 0 <= j < gridH ==> grid[i, j] == old(grid[i, j])
      ensures !touching && picked.Some? ==>
        picked.value.Snapshot() == old(picked.value.Snapshot()) &&
        picked.value.startPosition == old(picked.value.startPosition)
      ensures touching && picked.Some? ==>
        var p := picked.value;
        && selectedObject == p
        && p.startPosition == Some(old(p.Snapshot())) && p.Snapshot() == old(p.Snapshot())
        && forall i, j :: 0 <= i < gridW && 0 <= j < gridH ==>
             grid[i, j] == (if old(grid[i, j]) == p then null else old(grid[i, j]))
    {
      if touching && picked.Some? {
        SelectObject(picked.value);
      }
    }

    /** The per-frame dispatch: drag the selected piece, or else look for a piece to select. */
    method Update(frame: Frame)
      requires Valid()
      requires frame.picked.Some? ==> frame.picked.value !in destroyed
      modifies this, grid, selectedObject, frame.PickedSet()
      ensures Valid()
      ensures KeepsOccupants(old(grid))
      ensures grid == old(grid) && gridW == old(gridW) && gridH == old(gridH) && destroyed == old(destroyed)
      ensures old(selectedObject) != null ==>
        var o := old(selectedObject);
        var accepted := DragAccepted(frame.touching, frame.groundCell, o.sizeX, o.sizeY);
        && selectedObject == o
        && (o.x, o.z) == (if accepted then frame.groundCell.value else old((o.x, o.z)))
        && allowCameraMovement ==
             (if !frame.touching then true else if accepted then false else old(allowCameraMovement))
        && o.rotation == old(o.rotation)
        && o.sizeX == old(o.sizeX) && o.sizeY == old(o.sizeY)
        && o.startPosition == old(o.startPosition)
        && forall i, j :: 0 <= i < gridW && 0 <= j < gridH ==> grid[i, j] == old(grid[i, j])
      ensures old(selectedObject) == null ==> allowCameraMovement == old(allowCameraMovement)
      ensures frame.picked.Some? && frame.picked.value != selectedObject ==>
        var p := frame.picked.value;
        p.Snapshot() == old(p.Snapshot()) && p.startPosition == old(p.startPosition)
      ensures old(selectedObject) == null && !(frame.touching && frame.picked.Some?) ==>
        && selectedObject == null
        && forall i, j :: 0 <= i < gridW && 0 <= j < gridH ==> grid[i, j] == old(grid[i, j])
      ensures old(selectedObject) == null && frame.touching && frame.picked.Some? ==>
        var p := frame.picked.value;
        && selectedObject == p
        && p.startPosition == Some(old(p.Snapshot())) && p.Snapshot() == old(p.Snapshot())
        && forall i, j :: 0 <= i < gridW && 0 <= j < gridH ==>
             grid[i, j] == (if old(grid[i, j]) == p then null else old(grid[i, j]))
    {
      if selectedObject != null {
        HandleSelectedObjectMovement(frame.touching, frame.groundCell);
      } else {
        HandleTouchInput(frame.touching, frame.picked);
      }
    }

    /**
     * Cancel the drag: put the selected piece back to its StartPosition and
     * commit it there. With nothing selected nothing happens.
     */
    method CancelMovement()
      requires Valid()
      requires selectedObject != null ==>
        var sp := selectedObject.startPosition.value;
        Fits(sp.x, sp.z, sp.cellsX, sp.cellsY, gridW, gridH)
      modifies this, grid, selectedObject
      ensures Valid()
      ensures KeepsOccupants(old(grid))
      ensures grid == old(grid) && gridW == old(gridW) && gridH == old(gridH)
      ensures allowCameraMovement == old(allowCameraMovement) && destroyed == old(destroyed)
      ensures old(selectedObject) == null ==>
        && selectedObject == null
        && forall i, j :: 0 <= i < gridW && 0 <= j < gridH ==> grid[i, j] == old(grid[i, j])
      ensures var o := old(selectedObject);
        o != null ==>
          var sp := old(o.startPosition.value);
          && o.Snapshot() == sp && o.startPosition == old(o.startPosition)
          && if old(FootprintFree(sp.x, sp.z, sp.cellsX, sp.cellsY)) then
               && selectedObject == null
               && forall i, j :: 0 <= i < gridW && 0 <= j < gridH ==>
                    grid[i, j] == (if InFootprint(i, j, sp.x, sp.z, sp.cellsX, sp.cellsY) then o else old(grid[i, j]))
             else
               && selectedObject == o
               && forall i, j :: 0 <= i < gridW && 0 <= j < gridH ==> grid[i, j] == old(grid[i, j])
    {
      if selectedObject == null {
        return;
      }
      SetStartPositionToSelectedObject();
      CancelSelection();
    }

    /**
     * Place a new copy of prefab and select it. A piece selected before is
     * committed first; if that commit is refused the old piece is left in no
     * cell and no longer selected.
     */
    method CreateNewObject(prefab: Furniture)
      requires Valid() && SelectionFits()
      modifies this, grid
      ensures Valid()
      ensures KeepsOccupants(old(grid))
      ensures selectedObject != null && fresh(selectedObject)
      ensures selectedObject.Snapshot() == prefab.Snapshot()
      ensures selectedObject.startPosition == Some(prefab.Snapshot())
      ensures grid == old(grid) && gridW == old(gridW) && gridH == old(gridH)
      ensures allowCameraMovement == old(allowCameraMovement) && destroyed == old(destroyed)
      ensures var o := old(selectedObject);
        forall i, j :: 0 <= i < gridW && 0 <= j < gridH ==>
          grid[i, j] == (if o != null && old(FootprintFree(o.x, o.z, o.sizeX, o.sizeY)) &&
                            InFootprint(i, j, o.x, o.z, o.sizeX, o.sizeY)
                         then o else old(grid[i, j]))
      ensures var o := old(selectedObject);
        o != null && !old(FootprintFree(o.x, o.z, o.sizeX, o.sizeY)) ==> NotInGrid(o)
    {
      if selectedObject != null {
        CancelSelection();
      }
      var obj := new Furniture.Instantiate(prefab);
      SelectObject(obj);
    }

    /**
     * The destruction of obj at the end of the frame: from then on every
     * reference to it compares equal to null, so its cells count as free and,
     * if it was selected, nothing is selected.
     */
    method Destroy(obj: Furniture)
      requires Valid()
      modifies this, grid
      ensures Valid()
      ensures grid == old(grid) && gridW == old(gridW) && gridH == old(gridH)
      ensures allowCameraMovement == old(allowCameraMovement)
      ensures destroyed == old(destroyed) + {obj}
      ensures selectedObject == if old(selectedObject) == obj then null else old(selectedObject)
      ensures forall i, j :: 0 <= i < gridW && 0 <= j < gridH ==>
        grid[i, j] == (if old(grid[i, j]) == obj then null else old(grid[i, j]))
    {
      DeleteObjectFromGrid(obj);
      if selectedObject == obj {
        selectedObject := null;
      }
      destroyed := destroyed + {obj};
    }

    /**
     * Delete the selected piece. The source marks it for destruction and then
     * commits the selection; because the destruction only takes effect at the
     * end of the frame, it is applied here after the commit. When the piece's
     * footprint leaves the grid, the commit's cell scan either meets a taken
     * cell and refuses, or indexes outside the array and throws; the throw
     * ends the call after the destruction was scheduled, and the scan wrote
     * no cell. Either way the commit changes nothing, so it is skipped here.
     * Net effect: the grid is as before, nothing is selected and the piece is
     * gone.
     */
    method DestroyObject()
      requires Valid()
      modifies this, grid
      ensures Valid()
      ensures KeepsOccupants(old(grid))
      ensures selectedObject == null
      ensures grid == old(grid) && gridW == old(gridW) && gridH == old(gridH)
      ensures allowCameraMovement == old(allowCameraMovement)
      ensures destroyed == old(destroyed) + (if old(selectedObject) != null then {old(selectedObject)} else {})
      ensures forall i, j :: 0 <= i < gridW && 0 <= j < gridH ==> grid[i, j] == old(grid[i, j])
    {
      if selectedObject != null {
        var obj := selectedObject;
        if Fits(obj.x, obj.z, obj.sizeX, obj.sizeY, gridW, gridH) {
          CancelSelection();
        }
        Destroy(obj);
      }
    }

    /** The pieces that have a cell in a column at or past newW or a row at or past newH. */
    ghost function CrossingBorder(newW: int, newH: int): set<Furniture?>
      reads this, grid
    {
      set i, j | 0 <= i < grid.Length0 && 0 <= j < grid.Length1 && (i >= newW || j >= newH) && grid[i, j] != null
        :: grid[i, j]
    }

    /** Remove from the grid, and destroy, every piece that has a cell outside a newW × newH room. */
    method ClearObjectOnBorder(newW: int, newH: int)
      requires Valid()
      modifies this, grid
      ensures Valid()
      ensures KeepsOccupants(old(grid))
      ensures grid == old(grid) && gridW == old(gridW) && gridH == old(gridH)
      ensures selectedObject == old(selectedObject) && allowCameraMovement == old(allowCameraMovement)
      ensures destroyed == old(destroyed) + old(CrossingBorder(newW, newH))
      ensures forall i, j :: 0 <= i < gridW && 0 <= j < gridH ==>
        grid[i, j] == (if old(grid[i, j]) in old(CrossingBorder(newW, newH)) then null else old(grid[i, j]))
    {
      ghost var crossing := CrossingBorder(newW, newH);
      ghost var evicted: set<Furniture?> := {};
      var i := 0;
      while i < gridW
        invariant 0 <= i <= gridW
        invariant Valid()
        invariant grid == old(grid) && gridW == old(gridW) && gridH == old(gridH)
        invariant selectedObject == old(selectedObject) && allowCameraMovement == old(allowCameraMovement)
        invariant evicted <= crossing && destroyed == old(destroyed) + evicted
        invariant forall a, b :: 0 <= a < gridW && 0 <= b < gridH ==>
          grid[a, b] == (if old(grid[a, b]) in evicted then null else old(grid[a, b]))
        invariant forall a, b :: 0 <= a < i && 0 <= b < gridH && (a >= newW || b >= newH) && old(grid[a, b]) != null ==>
          old(grid[a, b]) in evicted
      {
        var j := 0;
        while j < gridH
          invariant 0 <= j <= gridH
          invariant Valid()
          invariant grid == old(grid) && gridW == old(gridW) && gridH == old(gridH)
          invariant selectedObject == old(selectedObject) && allowCameraMovement == old(allowCameraMovement)
          invariant evicted <= crossing && destroyed == old(destroyed) + evicted
          invariant forall a, b :: 0 <= a < gridW && 0 <= b < gridH ==>
            grid[a, b] == (if old(grid[a, b]) in evicted then null else old(grid[a, b]))
          invariant forall a, b ::
            0 <= a < gridW && 0 <= b < gridH && (a < i || (a == i && b < j)) &&
            (a >= newW || b >= newH) && old(grid[a, b]) != null
            ==> old(grid[a, b]) in evicted
        {
          if (i >= newW || j >= newH) && grid[i, j] != null {
            var objToDestroy := grid[i, j];
            DeleteObjectFromGrid(objToDestroy);
            Destroy(objToDestroy);
            evicted := evicted + {objToDestroy};
          }
          j := j + 1;
        }
        i := i + 1;
      }
      assert crossing <= evicted by {
        forall o | o in crossing ensures o in evicted {
          var a, b :| 0 <= a < gridW && 0 <= b < gridH && (a >= newW || b >= newH) && old(grid[a, b]) != null &&
            old(grid[a, b]) == o;
        }
      }
    }

    /**
     * Resize the room to leftLength × rightLength cells when the size changer
     * allows it. When the room shrinks, the pieces crossing the new border are
     * evicted and destroyed first; then a new grid is allocated and each cell
     * that existed before keeps its occupant, while new cells start free.
     */
    method ChangeRoomSize(isAwailable: bool, leftLength: int, rightLength: int)
      requires Valid()
      requires isAwailable ==> 0 <= leftLength && 0 <= rightLength
      modifies this, grid
      ensures Valid()
      ensures selectedObject == old(selectedObject) && allowCameraMovement == old(allowCameraMovement)
      ensures !isAwailable ==>
        && grid == old(grid) && gridW == old(gridW) && gridH == old(gridH) && destroyed == old(destroyed)
        && forall i, j :: 0 <= i < gridW && 0 <= j < gridH ==> grid[i, j] == old(grid[i, j])
      ensures isAwailable ==>
        && fresh(grid) && gridW == leftLength && gridH == rightLength
        && destroyed == old(destroyed) + old(CrossingBorder(leftLength, rightLength))
        && forall i, j :: 0 <= i < gridW && 0 <= j < gridH ==>
             grid[i, j] == (if i < old(gridW) && j < old(gridH) && old(grid[i, j]) !in old(CrossingBorder(leftLength, rightLength))
                            then old(grid[i, j]) else null)
    {
      if !isAwailable {
        return;
      }
      var leftDiff := leftLength - gridW;
      var rightDiff := rightLength - gridH;
      if leftDiff < 0 || rightDiff < 0 {
        ClearObjectOnBorder(leftLength, rightLength);
      } else {
        assert CrossingBorder(leftLength, rightLength) == {};
      }
      gridW, gridH := leftLength, rightLength;
      var newGrid := new Furniture?[leftLength, rightLength]((i, j) => null);
      var i := 0;
      while i < Min(leftLength, gridW)
        invariant 0 <= i <= leftLength
        modifies newGrid
        invariant forall a, b :: 0 <= a < leftLength && 0 <= b < rightLength ==>
          newGrid[a, b] == (if a < i && a < grid.Length0 && b < grid.Length1 then grid[a, b] else null)
      {
        var j := 0;
        while j < Min(rightLength, gridH)
          invariant 0 <= j <= rightLength
          modifies newGrid
          invariant forall a, b :: 0 <= a < leftLength && 0 <= b < rightLength ==>
            newGrid[a, b] == (if (a < i || (a == i && b < j)) && a < grid.Length0 && b < grid.Length1
                              then grid[a, b] else null)
        {
          // A cell past the old grid raises an index error, which is caught: the new cell stays free.
          if i < grid.Length0 && j < grid.Length1 {
            newGrid[i, j] := grid[i, j];
          }
          j := j + 1;
        }
        i := i + 1;
      }
      grid := newGrid;
    }
  }

  function Min(a: int, b: int): int
  {
    if a < b then a else b
  }
}
