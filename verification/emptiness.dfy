/** `is_mask_empty`: a mask volume scanned along its third axis in slabs of ten planes. */
module Emptiness {

  /** Planes read per slab (`chunk_size`). */
  const SlabDepth: nat := 10

  /** A 3-D voxel grid with shape (nx, ny, nz), indexed `voxels[x][y][z]`. */
  datatype Volume = Volume(nx: nat, ny: nat, nz: nat, voxels: seq<seq<seq<int>>>) {

    /** The grid really has the shape it declares. */
    predicate Valid()
    {
      && |voxels| == nx
      && (forall x :: 0 <= x < nx ==> |voxels[x]| == ny)
      && (forall x, y :: 0 <= x < nx && 0 <= y < ny ==> |voxels[x][y]| == nz)
    }

    /** `mask_data.shape`. */
    function Shape(): seq<nat>
    {
      [nx, ny, nz]
    }
  }

  /** Every voxel of the volume is zero. */
  predicate AllZero(v: Volume)
    requires v.Valid()
  {
    forall x, y, z :: 0 <= x < v.nx && 0 <= y < v.ny && 0 <= z < v.nz ==> v.voxels[x][y][z] == 0
  }

  /** Some voxel in planes `lo` up to (not including) `hi` is non-zero. */
  predicate SlabHasSignal(v: Volume, lo: nat, hi: nat)
    requires v.Valid() && lo <= hi <= v.nz
  {
    exists x, y, z :: 0 <= x < v.nx && 0 <= y < v.ny && lo <= z < hi && v.voxels[x][y][z] != 0
  }

  function Min(a: nat, b: nat): nat
  {
    if a < b then a else b
  }

  /** The number of slabs: one starting at every tenth plane. */
  function SlabCount(depth: nat): nat
  {
    (depth + SlabDepth - 1) / SlabDepth
  }

  /** First plane of slab `k`. */
  function SlabStart(k: nat): nat
  {
    k * SlabDepth
  }

  /** One past the last plane of slab `k`: ten planes on, or the end of the volume if sooner. */
  function SlabEnd(k: nat, depth: nat): nat
  {
    Min(SlabStart(k) + SlabDepth, depth)
  }

  /** Plane `z` is read as part of slab `k`. */
  predicate InSlab(z: nat, k: nat, depth: nat)
  {
    SlabStart(k) <= z < SlabEnd(k, depth)
  }

  /** The slabs partition the planes: `range` starts below `depth` are exactly the first `SlabCount`
      multiples of ten, every such slab is non-empty and at most ten planes deep, only the last can be
      shallower, and every plane lies in exactly one slab, the one numbered `z / 10`. */
  lemma SlabsPartition(depth: nat)
    ensures forall k: nat :: SlabStart(k) < depth <==> k < SlabCount(depth)
    ensures forall k: nat :: k < SlabCount(depth) ==> SlabStart(k) < SlabEnd(k, depth) <= SlabStart(k) + SlabDepth
    ensures forall k: nat :: k + 1 < SlabCount(depth) ==> SlabEnd(k, depth) == SlabStart(k + 1)
    ensures SlabCount(depth) > 0 ==> SlabEnd(SlabCount(depth) - 1, depth) == depth
    ensures forall z: nat, k: nat :: z < depth ==> (InSlab(z, k, depth) <==> k == z / SlabDepth)
  {
  }

  /** The volume is all zero exactly when no slab of the scan holds signal. */
  lemma {:induction false} AllZeroIffNoSlabSignal(v: Volume)
    requires v.Valid()
    ensures AllZero(v) <==> forall k: nat :: k < SlabCount(v.nz) ==> !SlabHasSignal(v, SlabStart(k), SlabEnd(k, v.nz))
  {
    SlabsPartition(v.nz);
    if !AllZero(v) {
      var x, y, z :| 0 <= x < v.nx && 0 <= y < v.ny && 0 <= z < v.nz && v.voxels[x][y][z] != 0;
      var k: nat := z / SlabDepth;
      assert InSlab(z, k, v.nz);
      assert SlabHasSignal(v, SlabStart(k), SlabEnd(k, v.nz));
    }
  }

  /** A single non-zero voxel in the last plane, which may sit in a shallower final slab, is found. */
  lemma LastPlaneSignalFound(v: Volume, x: nat, y: nat)
    requires v.Valid() && x < v.nx && y < v.ny && v.nz > 0
    requires v.voxels[x][y][v.nz - 1] != 0
    ensures SlabHasSignal(v, SlabStart(SlabCount(v.nz) - 1), v.nz)
    ensures !AllZero(v)
  {
    SlabsPartition(v.nz);
    assert InSlab(v.nz - 1, SlabCount(v.nz) - 1, v.nz);
  }

  /** The slab-by-slab scan. `empty` is the answer; `slabsRead` counts the slabs loaded, so the
      scan stops at the first slab that holds signal and reads every slab only when the mask is empty. */
  method IsMaskEmpty(v: Volume) returns (empty: bool, slabsRead: nat)
    requires v.Valid()
    ensures empty <==> AllZero(v)
    ensures empty ==> slabsRead == SlabCount(v.nz)
    ensures !empty ==> 1 <= slabsRead <= SlabCount(v.nz)
    ensures !empty ==> SlabHasSignal(v, SlabStart(slabsRead - 1), SlabEnd(slabsRead - 1, v.nz))
    ensures forall k: nat :: k + 1 < slabsRead ==> !SlabHasSignal(v, SlabStart(k), SlabEnd(k, v.nz))
  {
    SlabsPartition(v.nz);
    AllZeroIffNoSlabSignal(v);
    var i: nat := 0;
    slabsRead := 0;
    while i < v.nz
      invariant i == SlabStart(slabsRead)
      invariant slabsRead <= SlabCount(v.nz)
      invariant forall k: nat :: k < slabsRead ==> !SlabHasSignal(v, SlabStart(k), SlabEnd(k, v.nz))
    {
      var hi := Min(i + SlabDepth, v.nz);
      slabsRead := slabsRead + 1;
      if SlabHasSignal(v, i, hi) {
        return false, slabsRead;
      }
      i := i + SlabDepth;
    }
    return true, slabsRead;
  }
}
