/** The snapshot a piece carries while it is selected, so that a cancel can put it back. */
module FurnitureStruct {

  /** An angle about the vertical axis in whole degrees, as Euler angles report it. */
  type Degrees = r: int | 0 <= r < 360

  /** Anchor cell, rotation and footprint size (the "Cells") saved when a piece is selected. */
  datatype StartPosition = StartPosition(x: int, z: int, rotation: Degrees, cellsX: int, cellsY: int)
}

/**
 * A furniture piece on the floor: the position and rotation of its transform
 * together with its Furniture component (footprint Size and StartPosition slot).
 */
module Furnishing {
  import opened Optional
  import opened FurnitureStruct

  class Furniture {
    /** Anchor cell of the footprint (transform.position.x and .z, whole cells). */
    var x: int
    var z: int
    /** transform.rotation about the vertical axis. */
    var rotation: Degrees
    /** Footprint size in cells; the width is negated by Rotate. */
    var sizeX: int
    var sizeY: int
    /** The StartPosition slot: unset until the floor first selects the piece. */
    var startPosition: Option<StartPosition>

    /** The piece's current placement in the shape of a snapshot. */
    function Snapshot(): StartPosition
      reads this
    {
      StartPosition(x, z, rotation, sizeX, sizeY)
    }

    /** A fresh piece at (x0, z0): its Size starts at the default one by one cell. */
    constructor (x0: int, z0: int, rotation0: Degrees)
      ensures Snapshot() == StartPosition(x0, z0, rotation0, 1, 1)
      ensures startPosition == None
    {
      x, z, rotation := x0, z0, rotation0;
      sizeX, sizeY := 1, 1;
      startPosition := None;
    }

    /**
     * Instantiating a prefab copies its transform and serialized Size; the
     * StartPosition property is not serialized, so the copy starts without one.
     */
    constructor Instantiate(prefab: Furniture)
      ensures Snapshot() == prefab.Snapshot()
      ensures startPosition == None
    {
      x, z, rotation := prefab.x, prefab.z, prefab.rotation;
      sizeX, sizeY := prefab.sizeX, prefab.sizeY;
      startPosition := None;
    }

    /** Rotation only negates the width: the footprint is not swapped. */
    method Rotate()
      modifies this
      ensures sizeX == -old(sizeX) && sizeY == old(sizeY)
      ensures x == old(x) && z == old(z) && rotation == old(rotation)
      ensures startPosition == old(startPosition)
    {
      sizeX := -sizeX;
    }
  }

  /** Two rotations give back the original footprint and leave the snapshot alone. */
  method RotateTwice(f: Furniture)
    modifies f
    ensures f.Snapshot() == old(f.Snapshot())
    ensures f.startPosition == old(f.startPosition)
  {
    f.Rotate();
    f.Rotate();
  }
}
