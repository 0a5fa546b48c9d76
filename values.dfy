/**
 * The value types the RoboDK client moves across the wire: the 4 x 4 pose Mat,
 * the remote Item handle and the joint vector tJoints.
 */
module Values {
  import opened Wire
  import opened Buffer

  // ---------------------------------------------------------------------------
  // Mat: a 4 x 4 homogeneous pose

  /**
   * A pose as its 16 entries, row by row: row i, column j is cells[4 * i + j],
   * as Mat::Get(i, j) reads row(i)[j].
   */
  datatype Mat<D> = Mat(cells: seq<D>) {
    ghost predicate Valid() {
      |cells| == 16
    }

    /** Mat::Get: the entry at row i, column j. */
    function Get(i: int, j: int): D
      requires Valid() && 0 <= i < 4 && 0 <= j < 4
    {
      cells[4 * i + j]
    }

    /** The sixteen entries Mat::Get reads are the whole pose: two poses that agree on every entry are equal. */
    lemma Extensional(other: Mat<D>)
      requires Valid() && other.Valid()
      requires forall i, j :: 0 <= i < 4 && 0 <= j < 4 ==> Get(i, j) == other.Get(i, j)
      ensures this == other
    {
      forall k | 0 <= k < 16
        ensures cells[k] == other.cells[k]
      {
        assert 4 * (k / 4) + k % 4 == k;
        assert Get(k / 4, k % 4) == other.Get(k / 4, k % 4);
      }
      assert cells == other.cells;
    }

    /** Mat::Set: the pose with the entry at row i, column j replaced by v. */
    function Set(i: int, j: int, v: D): (m: Mat<D>)
      requires Valid() && 0 <= i < 4 && 0 <= j < 4
      ensures m.Valid() && m.Get(i, j) == v
      ensures forall a, b :: 0 <= a < 4 && 0 <= b < 4 && (a != i || b != j) ==> m.Get(a, b) == Get(a, b)
    {
      Mat(cells[4 * i + j := v])
    }
  }

  /** Mat::Mat(): the identity pose (setToIdentity). */
  function Identity<D>(zero: D, one: D): (m: Mat<D>)
    ensures m.Valid()
    ensures forall i, j :: 0 <= i < 4 && 0 <= j < 4 ==> m.Get(i, j) == if i == j then one else zero
  {
    Mat(seq(16, k => if k / 4 == k % 4 then one else zero))
  }

  // ---------------------------------------------------------------------------
  // Item: a handle on an entity of the remote station

  /** An item: the remote 64-bit identifier _PTR and the item type _TYPE. */
  datatype Item = Item(ptr: nat, kind: int) {
    /** Item::Valid: an item is valid exactly when its identifier is not null. */
    predicate Valid() {
      ptr != 0
    }
  }

  /** The item an unsuccessful receive hands back: identifier 0, type -1. */
  const NullItem: Item := Item(0, -1)

  // ---------------------------------------------------------------------------
  // tJoints: a joint vector of at most JointsMax values

  /**
   * RDK_SIZE_JOINTS_MAX, the capacity of tJoints::Values. It is defined in
   * robodk_api.h, which is not part of this model; its value there is 12.
   */
  const JointsMax: int := 12

  class Joints<D> {
    var nDOFs: int
    const values: array<D>
    const zero: D

    /** The fixed capacity, and a count that never exceeds it (it may be negative). */
    ghost predicate Valid()
      reads this
    {
      values.Length == JointsMax && nDOFs <= JointsMax
    }

    /** The joint values in use: the first nDOFs entries (none for a count of 0 or less). */
    function Contents(): (c: seq<D>)
      reads this, values
      requires Valid()
      ensures |c| == Max(nDOFs, 0)
      ensures forall k :: 0 <= k < |c| ==> c[k] == values[k]
    {
      values[..Max(nDOFs, 0)]
    }

    /**
     * tJoints(int ndofs): the count is ndofs clamped from above to JointsMax (a
     * negative count is kept) and the values in use are zero. The entries beyond
     * the count are uninitialised in the source; here they are zero as well.
     */
    constructor (ndofs: int, zero: D)
      ensures Valid() && fresh(values) && this.zero == zero
      ensures nDOFs == Min(ndofs, JointsMax)
      ensures forall k :: 0 <= k < Max(nDOFs, 0) ==> values[k] == zero
    {
      nDOFs := Min(ndofs, JointsMax);
      values := new D[JointsMax](_ => zero);
      this.zero := zero;
    }

    /**
     * tJoints(const tJoints &copy): SetValues(copy.Values, copy.nDOFs) on a fresh
     * vector. A negative count would leave nDOFs uninitialised, so copy's count
     * must be at least 0.
     */
    constructor Copy(copy: Joints<D>)
      requires copy.Valid() && 0 <= copy.nDOFs
      ensures Valid() && fresh(values) && zero == copy.zero
      ensures nDOFs == copy.nDOFs && Contents() == copy.Contents()
    {
      nDOFs := 0;
      values := new D[JointsMax](_ => copy.zero);
      zero := copy.zero;
      new;
      SetValues(copy.values[..], copy.nDOFs);
    }

    /**
     * tJoints(const tMatrix2D *mat2d, int column, int ndofs): the count is ndofs,
     * or the row count of mat2d when ndofs is negative, clamped to JointsMax; the
     * values are read from column column of mat2d. The guard on the column count
     * only decides whether a warning is logged: nDOFs is written again right
     * after it.
     */
    constructor FromColumn(mat2d: Matrix2D<D>, column: int, ndofs: int, zero: D)
      requires mat2d.Valid()
      requires 0 <= mat2d.rows * column
      requires mat2d.rows * column + Max(Min(if ndofs < 0 then mat2d.rows else ndofs, JointsMax), 0) <= mat2d.allocatedSize
      ensures Valid() && fresh(values) && this.zero == zero
      ensures nDOFs == Min(if ndofs < 0 then mat2d.rows else ndofs, JointsMax)
      ensures forall k :: 0 <= k < Max(nDOFs, 0) ==> values[k] == mat2d.GetCol(column)[k]
    {
      values := new D[JointsMax](_ => zero);
      this.zero := zero;
      if mat2d.Size(2) >= column {
        nDOFs := 0;
      }
      var n := ndofs;
      if n < 0 {
        n := mat2d.Size(1);
      }
      nDOFs := Min(n, JointsMax);
      new;
      var ptr := mat2d.GetCol(column);
      SetValues(ptr, nDOFs);
    }

    /**
     * tJoints::SetValues: take ndofs as the new count unless it is negative, in
     * which case the old count stays; then copy that many values in.
     */
    method SetValues(vals: seq<D>, ndofs: int)
      requires Valid()
      requires ndofs <= JointsMax
      requires (if ndofs >= 0 then ndofs else nDOFs) <= |vals|
      modifies this, values
      ensures Valid()
      ensures nDOFs == if ndofs >= 0 then ndofs else old(nDOFs)
      ensures Contents() == vals[..Max(nDOFs, 0)]
      ensures forall k :: Max(nDOFs, 0) <= k < JointsMax ==> values[k] == old(values[k])
    {
      if ndofs >= 0 {
        nDOFs := ndofs;
      }
      var i := 0;
      while i < nDOFs
        modifies values
        invariant 0 <= i <= Max(nDOFs, 0)
        invariant forall k :: 0 <= k < i ==> values[k] == vals[k]
        invariant forall k :: i <= k < JointsMax ==> values[k] == old(values[k])
      {
        values[i] := vals[i];
        i := i + 1;
      }
    }

    /** tJoints::GetValues: copy the values in use to out and return the count. */
    method GetValues(out: array<D>) returns (n: int)
      requires Valid() && out != values && Max(nDOFs, 0) <= out.Length
      modifies out
      ensures n == nDOFs
      ensures out[..Max(n, 0)] == Contents()
      ensures forall k :: Max(n, 0) <= k < out.Length ==> out[k] == old(out[k])
    {
      var i := 0;
      while i < nDOFs
        invariant 0 <= i <= Max(nDOFs, 0)
        invariant forall k :: 0 <= k < i ==> out[k] == values[k]
        invariant forall k :: i <= k < out.Length ==> out[k] == old(out[k])
      {
        out[i] := values[i];
        i := i + 1;
      }
      n := nDOFs;
    }
  }
}
