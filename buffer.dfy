/**
 * tMatrix2D: the growable two-dimensional buffer of doubles that stages joint
 * lists, point lists and matrices before and after they cross the wire.
 *
 * The buffer always has two dimensions (Matrix2D_Create builds it with
 * emxInit_real_T(.., 2)). Element (i, j) lives at data[size[0] * j + i]: the
 * storage is column-major. The capacity grows by doubling from 16 and stops at
 * INT32_MAX; freshly allocated storage is zero-filled (calloc) and the elements
 * in use are copied over (memcpy).
 */
module Buffer {
  import opened Wire

  /** The last value of emxEnsureCapacity's loop when it starts at i and needs room for need elements. */
  function GrownCapacity(i: int, need: int): (c: int)
    requires 16 <= i <= Int32Max && need <= Int32Max
    ensures need <= c <= Int32Max && i <= c
    // it never overshoots: it is where it started or less than twice the need
    ensures c == i || c < 2 * need
    decreases Int32Max - i
  {
    if need <= i then i
    else if i > 0x3FFF_FFFF then GrownCapacity(Int32Max, need)
    else GrownCapacity(2 * i, need)
  }

  /**
   * The column-major layout is a bijection between the grid rows x cols and the
   * first rows * cols storage slots: (i, j) goes to rows * j + i, and slot k
   * comes from (k % rows, k / rows).
   */
  lemma {:induction false} ColumnMajorIndex(rows: int, cols: int, i: int, j: int)
    requires 0 <= i < rows && 0 <= j < cols
    ensures 0 <= rows * j + i < rows * cols
    ensures (rows * j + i) % rows == i && (rows * j + i) / rows == j
  {
    var k := rows * j + i;
    assert rows * j <= rows * (cols - 1) by { MulLeftMono(rows, j, cols - 1); }
    assert rows * (cols - 1) + rows == rows * cols;
    DivModUnique(rows, j, i);
  }

  lemma {:induction false} ColumnMajorSlot(rows: int, cols: int, k: int)
    requires 0 < rows && 0 <= cols && 0 <= k < rows * cols
    ensures 0 <= k % rows < rows && 0 <= k / rows < cols
    ensures rows * (k / rows) + k % rows == k
  {
    if k / rows >= cols {
      MulLeftMono(rows, cols, k / rows);
      assert false;
    }
  }

  lemma MulLeftMono(a: int, x: int, y: int)
    requires 0 <= a && x <= y
    ensures a * x <= a * y
  {
    assert a * y - a * x == a * (y - x);
  }

  lemma DivModUnique(n: int, q: int, r: int)
    requires 0 <= r < n
    ensures (n * q + r) % n == r && (n * q + r) / n == q
  {
    var k := n * q + r;
    var q' := k / n;
    var r' := k % n;
    assert n * q' + r' == k;
    assert n * (q' - q) == r - r';
    if q' > q {
      MulLeftMono(n, 1, q' - q);
      assert false;
    } else if q' < q {
      MulLeftMono(n, 1, q - q');
      assert false;
    }
  }

  lemma MulAdd(a: int, b: int, c: int)
    ensures a * (b + c) == a * b + a * c
  {
  }

  /** A column of at most rows entries fits after rows * cols entries in a rows x (cols + 1) grid. */
  lemma ColumnFits(rows: int, cols: int, m: int)
    requires 0 < m <= rows && 0 <= cols
    ensures 0 <= rows * cols && rows * cols + m <= rows * (cols + 1)
  {
    MulLeftMono(rows, 0, cols);
  }

  /** cols2 columns of rows entries fit after rows * cols1 entries in a rows x (cols1 + cols2) grid. */
  lemma ColumnsFit(rows: int, cols1: int, cols2: int)
    requires 0 < rows * cols2 && 0 <= rows * cols1
    ensures rows * cols1 + rows * cols2 == rows * (cols1 + cols2)
  {
  }

  /** The doubling loop of emxEnsureCapacity: from i, double until need fits, capping at INT32_MAX. */
  method Doubled(start: int, need: int) returns (i: int)
    requires 16 <= start <= Int32Max && need <= Int32Max
    ensures i == GrownCapacity(start, need)
  {
    i := start;
    while i < need
      invariant 16 <= i <= Int32Max
      invariant GrownCapacity(i, need) == GrownCapacity(start, need)
      decreases Int32Max - i
    {
      if i > 0x3FFF_FFFF {
        i := Int32Max;
      } else {
        i := 2 * i;
      }
    }
  }

  /** The append loop of Matrix2D_Add: dst[at + i] = vals[i] for each i. */
  method WriteRun<D>(dst: array<D>, at: int, vals: seq<D>)
    requires 0 <= at && at + |vals| <= dst.Length
    modifies dst
    ensures dst[..] == Splice(old(dst[..]), at, vals)
  {
    ghost var was := dst[..];
    var i := 0;
    while i < |vals|
      invariant 0 <= i <= |vals|
      invariant dst[..] == Splice(was, at, vals[..i])
    {
      SpliceStep(was, at, vals, i);
      dst[at + i] := vals[i];
      i := i + 1;
    }
    assert vals[..i] == vals;
  }

  /**
   * The copy loop of Matrix2D_Add(var, varadd): dst[at + i] = src[i] for i < n.
   * src may be dst itself as long as the run read lies before the run written.
   */
  method CopyRun<D>(src: array<D>, dst: array<D>, at: int, n: int)
    requires 0 <= n <= src.Length && 0 <= at && at + n <= dst.Length
    requires src == dst ==> n <= at
    modifies dst
    ensures dst[..] == Splice(old(dst[..]), at, old(src[..])[..n])
  {
    ghost var was := dst[..];
    ghost var vals := src[..][..n];
    var i := 0;
    while i < n
      invariant 0 <= i <= n
      invariant forall k :: 0 <= k < n ==> src[k] == vals[k]
      invariant dst[..] == Splice(was, at, vals[..i])
    {
      SpliceStep(was, at, vals, i);
      dst[at + i] := src[i];
      i := i + 1;
    }
    assert vals[..i] == vals;
  }

  /**
   * The storage emxEnsureCapacity allocates when the need exceeds the capacity:
   * the doubled capacity, zero-filled, then the first keep elements copied in.
   */
  method Regrow<D>(was: array<D>, keep: int, need: int, zero: D) returns (block: array<D>)
    requires was.Length <= Int32Max && was.Length < need <= Int32Max && 0 <= keep <= was.Length
    ensures fresh(block) && block[..] == Reserve(was[..], keep, need, zero)
  {
    var i := if was.Length < 16 then 16 else was.Length;
    i := Doubled(i, need);
    block := new D[i](_ => zero);
    CopyPrefix(was, block, keep);
    ReserveFrom(was[..], keep, need, zero, block[..]);
  }

  /** A block of the grown capacity holding the kept prefix and zeros after it is what Reserve gives. */
  lemma ReserveFrom<D>(was: seq<D>, keep: int, need: int, zero: D, block: seq<D>)
    requires |was| <= Int32Max && |was| < need <= Int32Max && 0 <= keep <= |was|
    requires |block| == GrownCapacity(Max(|was|, 16), need)
    requires forall k :: 0 <= k < keep ==> block[k] == was[k]
    requires forall k :: keep <= k < |block| ==> block[k] == zero
    ensures block == Reserve(was, keep, need, zero)
  {
    var r := Reserve(was, keep, need, zero);
    assert |r| == |block|;
    forall k | 0 <= k < |r|
      ensures r[k] == block[k]
    {
      if k < keep {
        assert r[..keep][k] == was[..keep][k];
      }
    }
  }

  /** memcpy(dst, src, n elements). */
  method CopyPrefix<D>(src: array<D>, dst: array<D>, n: int)
    requires 0 <= n <= src.Length && n <= dst.Length && src != dst
    modifies dst
    ensures forall k :: 0 <= k < n ==> dst[k] == src[k]
    ensures forall k :: n <= k < dst.Length ==> dst[k] == old(dst[k])
  {
    for k := 0 to n
      invariant forall m :: 0 <= m < k ==> dst[m] == src[m]
      invariant forall m :: k <= m < dst.Length ==> dst[m] == old(dst[m])
    {
      dst[k] := src[k];
    }
  }

  /**
   * The storage emxEnsureCapacity leaves behind when it needs room for need
   * elements: was itself when need fits, otherwise a fresh block of the grown
   * capacity holding the first keep elements of was and zeros after them.
   */
  function Reserve<D>(was: seq<D>, keep: int, need: int, zero: D): (r: seq<D>)
    requires |was| <= Int32Max && need <= Int32Max && 0 <= keep <= |was|
    ensures need <= |was| ==> r == was
    ensures need > |was| ==> |r| == GrownCapacity(Max(|was|, 16), need)
    ensures |was| <= |r| && need <= |r| && r[..keep] == was[..keep]
    ensures need > |was| ==> forall k :: keep <= k < |r| ==> r[k] == zero
  {
    if need <= |was| then was
    else was[..keep] + seq(GrownCapacity(Max(|was|, 16), need) - keep, _ => zero)
  }

  /** s with vals written over it from position at on. */
  function Splice<D>(s: seq<D>, at: int, vals: seq<D>): (r: seq<D>)
    requires 0 <= at && at + |vals| <= |s|
    ensures |r| == |s|
    ensures forall k :: 0 <= k < |s| ==> r[k] == if at <= k < at + |vals| then vals[k - at] else s[k]
  {
    s[..at] + vals + s[at + |vals|..]
  }

  lemma SpliceStep<D>(s: seq<D>, at: int, vals: seq<D>, i: int)
    requires 0 <= at && 0 <= i < |vals| && at + |vals| <= |s|
    ensures Splice(s, at, vals[..i + 1]) == Splice(s, at, vals[..i])[at + i := vals[i]]
  {
  }

  /**
   * What appending means on the grid: after growing rows x c1 elements to room
   * for rows x (c1 + c2) and writing the run b after them, element (i, j) is the
   * old element (i, j) in the first c1 columns and element (i, j - c1) of b in
   * the appended columns, as far as b reaches.
   */
  lemma {:induction false} AppendedCell<D>(was: seq<D>, zero: D, rows: int, c1: int, c2: int, b: seq<D>, i: int, j: int)
    requires 0 < rows && 0 <= c1 && 0 < c2 && |b| <= rows * c2
    requires |was| <= Int32Max && rows * c1 <= |was| && rows * (c1 + c2) <= Int32Max
    requires 0 <= i < rows && 0 <= j < c1 + c2
    ensures 0 <= rows * c1 && rows * c1 + |b| <= rows * (c1 + c2)
    ensures 0 <= rows * j + i < rows * (c1 + c2)
    ensures j < c1 ==> rows * j + i < rows * c1
    ensures c1 <= j ==> 0 <= rows * (j - c1) + i == rows * j + i - rows * c1
    ensures var r := Splice(Reserve(was, rows * c1, rows * (c1 + c2), zero), rows * c1, b);
      && rows * j + i < |r|
      && (j < c1 ==> r[rows * j + i] == was[rows * j + i])
      && (c1 <= j && rows * (j - c1) + i < |b| ==> r[rows * j + i] == b[rows * (j - c1) + i])
  {
    AppendIndex(rows, c1, c2, i, j);
    SpliceReserveAt(was, rows * c1, rows * (c1 + c2), zero, b, rows * j + i);
  }

  /** Slot k after growing was to room for need elements, keeping keep of them, and writing b after those. */
  lemma SpliceReserveAt<D>(was: seq<D>, keep: int, need: int, zero: D, b: seq<D>, k: int)
    requires |was| <= Int32Max && 0 <= keep <= |was| && keep + |b| <= need <= Int32Max && 0 <= k < need
    ensures var r := Splice(Reserve(was, keep, need, zero), keep, b);
      && k < |r|
      && (k < keep ==> r[k] == was[k])
      && (keep <= k < keep + |b| ==> r[k] == b[k - keep])
  {
    var w := Reserve(was, keep, need, zero);
    if k < keep {
      assert w[..keep][k] == was[..keep][k];
    }
  }

  /** The index arithmetic behind AppendedCell. */
  lemma {:induction false} AppendIndex(rows: int, c1: int, c2: int, i: int, j: int)
    requires 0 < rows && 0 <= c1 && 0 < c2
    requires 0 <= i < rows && 0 <= j < c1 + c2
    ensures 0 <= rows * c1 && rows * c1 + rows * c2 == rows * (c1 + c2)
    ensures 0 <= rows * j + i < rows * (c1 + c2)
    ensures j < c1 ==> rows * j + i < rows * c1
    ensures c1 <= j ==> rows * j + i - rows * c1 == rows * (j - c1) + i
  {
    MulAdd(rows, c1, c2);
    MulLeftMono(rows, 0, c1);
    ColumnMajorIndex(rows, c1 + c2, i, j);
    if j < c1 {
      ColumnMajorIndex(rows, c1, i, j);
    } else {
      MulAdd(rows, c1, j - c1);
    }
  }

  class Matrix2D<D> {
    var data: array<D>
    var rows: int            // size[0]
    var cols: int            // size[1]
    var allocatedSize: int
    const zero: D            // the double 0.0 that calloc leaves in fresh storage

    /** The buffer's invariant: capacity is the storage's length, fits an int, and covers the element count. */
    ghost predicate Valid()
      reads this
    {
      && data.Length == allocatedSize <= Int32Max
      && IsInt32(rows) && IsInt32(cols) && IsInt32(rows * cols)
      && rows * cols <= allocatedSize
    }

    /** Matrix2D_Create / emxInit_real_T: a 0 x 0 buffer with no storage. */
    constructor Create(zero: D)
      ensures Valid() && fresh(data)
      ensures rows == 0 && cols == 0 && allocatedSize == 0 && this.zero == zero
    {
      data := new D[0];
      rows, cols := 0, 0;
      allocatedSize := 0;
      this.zero := zero;
    }

    /**
     * emxEnsureCapacity: make room for size[0] * size[1] elements, keeping the
     * first oldNumel (none when nothing was allocated yet).
     */
    method EnsureCapacity(oldNumel: int)
      requires data.Length == allocatedSize <= Int32Max && IsInt32(rows * cols)
      requires allocatedSize == 0 || oldNumel <= allocatedSize
      modifies this
      ensures rows == old(rows) && cols == old(cols)
      ensures rows * cols > old(allocatedSize) ==> fresh(data)
      ensures rows * cols <= old(allocatedSize) ==> data == old(data)
      ensures data.Length == allocatedSize
      ensures data[..] == Reserve(old(data[..]), if old(allocatedSize) == 0 then 0 else Max(oldNumel, 0), rows * cols, zero)
    {
      var n := if oldNumel < 0 then 0 else oldNumel;
      var newNumel := rows * cols;
      if newNumel > allocatedSize {
        // the first oldNumel elements are copied only when storage was allocated (data is non-NULL)
        var keep := if allocatedSize > 0 then n else 0;
        data := Regrow(data, keep, newNumel, zero);
        allocatedSize := data.Length;
      }
    }

    /** Matrix2D_Set_Size: set the dimensions and make room for rows * cols elements. */
    method SetSize(r: int, c: int)
      requires Valid() && IsInt32(r) && IsInt32(c) && IsInt32(r * c)
      modifies this
      ensures Valid() && rows == r && cols == c
      ensures r * c > old(allocatedSize) ==> fresh(data)
      ensures r * c <= old(allocatedSize) ==> data == old(data)
      ensures data[..] == Reserve(old(data[..]), Max(old(rows * cols), 0), r * c, zero)
    {
      var oldNumel := rows * cols;
      rows := r;
      cols := c;
      EnsureCapacity(oldNumel);
    }

    /** Matrix2D_Size: the size along the one-based dimension dim; 0 beyond the two dimensions. */
    function Size(dim: int): (n: int)
      reads this
      requires dim >= 1
      ensures dim == 1 ==> n == rows
      ensures dim == 2 ==> n == cols
      ensures dim > 2 ==> n == 0
    {
      if dim == 1 then rows else if dim == 2 then cols else 0
    }

    /** Matrix2D_Get_ij: element (i, j), zero-based. */
    function GetIJ(i: int, j: int): D
      reads this, data
      requires Valid() && 0 <= rows * j + i < allocatedSize
    {
      data[rows * j + i]
    }

    /**
     * The index pairs within the sizes Matrix2D_Size reports are the elements of
     * the buffer: element (i, j) of a valid buffer lies among its first
     * rows * cols slots, and no two pairs share a slot.
     */
    lemma IndexInBuffer(i: int, j: int, i2: int, j2: int)
      requires Valid()
      requires 0 <= i < Size(1) && 0 <= j < Size(2)
      requires 0 <= i2 < Size(1) && 0 <= j2 < Size(2)
      ensures 0 <= rows * j + i < rows * cols <= allocatedSize
      ensures rows * j + i == rows * j2 + i2 ==> i == i2 && j == j2
    {
      MulLeftMono(rows, 0, j);
      MulLeftMono(rows, j, cols - 1);
      MulAdd(rows, cols - 1, 1);
      DivModUnique(rows, j, i);
      DivModUnique(rows, j2, i2);
    }

    /** Matrix2D_SET_ij: write element (i, j), zero-based. */
    method SetIJ(i: int, j: int, value: D)
      requires Valid() && 0 <= rows * j + i < allocatedSize
      modifies data
      ensures GetIJ(i, j) == value
      ensures forall k :: 0 <= k < data.Length && k != rows * j + i ==> data[k] == old(data[k])
    {
      data[rows * j + i] := value;
    }

    /**
     * Matrix2D_Get_col: the storage seen through a pointer to element (0, col);
     * its first rows entries are column col.
     */
    function GetCol(col: int): (c: seq<D>)
      reads this, data
      requires Valid() && 0 <= rows * col <= allocatedSize
      ensures |c| == allocatedSize - rows * col
      ensures forall i :: 0 <= i < rows && i < |c| ==> c[i] == GetIJ(i, col)
    {
      data[rows * col..]
    }

    /**
     * Matrix2D_Add(var, array, numel): append one column, filled from values with
     * its first min(numel, rows) entries.
     */
    method AddColumn(values: seq<D>, numel: int)
      requires Valid()
      requires IsInt32(cols + 1) && IsInt32(rows * (cols + 1))
      requires Min(numel, rows) <= |values|
      requires 0 < Min(numel, rows) ==> 0 <= cols
      modifies this, data
      ensures Valid() && rows == old(rows) && cols == old(cols) + 1
      ensures rows * cols > old(allocatedSize) ==> fresh(data)
      ensures rows * cols <= old(allocatedSize) ==> data == old(data)
      ensures Min(numel, rows) <= 0 ==>
        data[..] == Reserve(old(data[..]), Max(old(rows * cols), 0), rows * cols, zero)
      ensures 0 < Min(numel, rows) ==>
        && 0 <= old(rows * cols) && old(rows * cols) + Min(numel, rows) <= rows * cols
        && data[..] == Splice(Reserve(old(data[..]), old(rows * cols), rows * cols, zero),
                              old(rows * cols), values[..Min(numel, rows)])
    {
      var size1 := rows;
      var size2 := cols;
      var oldNumel := size1 * size2;
      MulAdd(size1, size2, 1);
      cols := size2 + 1;
      EnsureCapacity(oldNumel);
      var m := if numel < size1 then numel else size1;
      if 0 < m {
        ColumnFits(size1, size2, m);
        WriteRun(data, oldNumel, values[..m]);
      }
    }

    /**
     * Matrix2D_Add(var, varadd): append the columns of other when both have the
     * same number of rows; otherwise leave the buffer as it is. other may be this
     * buffer itself.
     */
    method Concat(other: Matrix2D<D>)
      requires Valid() && other.Valid()
      requires other == this || other.data != data
      requires rows == other.rows ==> IsInt32(cols + other.cols) && IsInt32(rows * (cols + other.cols))
      requires rows == other.rows && 0 < other.rows * other.cols ==> 0 <= rows * cols
      modifies this, data
      ensures rows != old(other.rows) ==>
        rows == old(rows) && cols == old(cols) && data == old(data) && allocatedSize == old(allocatedSize)
        && data[..] == old(data[..])
      ensures rows == old(other.rows) ==> Valid() && rows == old(rows) && cols == old(cols) + old(other.cols)
      ensures rows == old(other.rows) && rows * cols > old(allocatedSize) ==> fresh(data)
      ensures rows == old(other.rows) && rows * cols <= old(allocatedSize) ==> data == old(data)
      ensures rows == old(other.rows) && old(other.rows * other.cols) <= 0 ==>
        data[..] == Reserve(old(data[..]), Max(old(rows * cols), 0), rows * cols, zero)
      ensures rows == old(other.rows) && 0 < old(other.rows * other.cols) ==>
        && 0 <= old(rows * cols) && old(rows * cols) + old(other.rows * other.cols) <= rows * cols
        && data[..] == Splice(Reserve(old(data[..]), old(rows * cols), rows * cols, zero),
                              old(rows * cols), old(other.data[..])[..old(other.rows * other.cols)])
    {
      var size1 := rows;
      var size2 := cols;
      var size1Ap := other.rows;
      var size2Ap := other.cols;
      var numel := size1Ap * size2Ap;
      if size1 != size1Ap {
        return;
      }
      var oldNumel := size1 * size2;
      MulAdd(size1, size2, size2Ap);
      cols := size2 + size2Ap;
      EnsureCapacity(oldNumel);
      if 0 < numel {
        ColumnsFit(size1, size2, size2Ap);
        CopyRun(other.data, data, oldNumel, numel);
      }
    }
  }
}
