/** BSDFSamplingRecord: the mutable record a BSDF's sample method reads its
    inputs from and writes its outputs to. */
module BsdfRecord {
  import opened VecMath

  class BSDFSamplingRecord {
    /** The fixed direction (in). */
    var dir1: Vector3d
    /** The sampled direction (out). */
    var dir2: Vector3d
    /** The surface normal (in; GlassBSDF flips it). */
    var normal: Vector3d
    /** Whether the sample came from a discrete component (out). */
    var isDiscrete: bool

    /** The three vectors are separate objects, as the field initialisers
        allocate them: writing one never changes another. */
    predicate Valid()
      reads this
    {
      dir1 != dir2 && dir1 != normal && dir2 != normal
    }

    /** The default constructor: every vector zero, not discrete. */
    constructor ()
      ensures Valid() && fresh(dir1) && fresh(dir2) && fresh(normal)
      ensures dir1.v == Zero && dir2.v == Zero && normal.v == Zero && !isDiscrete
    {
      dir1 := new Vector3d(Zero);
      dir2 := new Vector3d(Zero);
      normal := new Vector3d(Zero);
      isDiscrete := false;
    }

    /** BSDFSamplingRecord(wi, normal): copies of the two vectors (the caller's
        objects are not shared), dir2 zero and not discrete. */
    constructor FromDirection(wi: Vector3d, n: Vector3d)
      ensures Valid() && fresh(dir1) && fresh(dir2) && fresh(normal)
      ensures dir1.v == wi.v && normal.v == n.v && dir2.v == Zero && !isDiscrete
    {
      dir1 := new Vector3d(wi.v);
      dir2 := new Vector3d(Zero);
      normal := new Vector3d(n.v);
      isDiscrete := false;
    }

    /** BSDFSamplingRecord(wi, normal, isDiscrete): as above, with the flag
        given. */
    constructor WithFlag(wi: Vector3d, n: Vector3d, discrete: bool)
      ensures Valid() && fresh(dir1) && fresh(dir2) && fresh(normal)
      ensures dir1.v == wi.v && normal.v == n.v && dir2.v == Zero && isDiscrete == discrete
    {
      dir1 := new Vector3d(wi.v);
      dir2 := new Vector3d(Zero);
      normal := new Vector3d(n.v);
      isDiscrete := discrete;
    }
  }

  /** Because the constructors copy, the record's vectors are new objects:
      flipping the record's normal in place (as GlassBSDF.sample does) gives
      the negated normal there while the caller's n keeps its value, which
      the method may not modify. */
  method FlipDoesNotReachCaller(wi: Vector3d, n: Vector3d) returns (rec: BSDFSamplingRecord)
    ensures rec.Valid() && fresh(rec.dir1) && fresh(rec.normal)
    ensures rec.normal.v == Neg(n.v) && rec.dir1.v == wi.v
  {
    rec := new BSDFSamplingRecord.FromDirection(wi, n);
    rec.normal.v := Neg(rec.normal.v);
  }
}
