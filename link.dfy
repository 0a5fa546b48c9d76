/**
 * The RoboDK client's side of the channel: the _send_* and _recv_* primitives,
 * _check_status, Item::WaitMove and the move commands _moveX and _moveC, as
 * methods on the link state. The state is the stream of tokens sent so far, the
 * tokens that have arrived and are not yet consumed, and the current receive
 * timeout. A link without a socket (_COM == NULL) sends nothing and consumes
 * nothing; a socket that is attached but no longer open sends nothing, while
 * the receives still read what has arrived (or time out).
 */
module Link {
  import opened Wire
  import opened Buffer
  import opened Values
  import opened Codec

  /** ROBODK_API_TIMEOUT, the receive timeout in milliseconds outside long waits. */
  const ApiTimeout: int := 1000

  /** Appending the double at position m extends the double tokens of a prefix by one. */
  lemma PushDbl<D>(v: seq<D>, m: int)
    requires 0 <= m < |v|
    ensures Dbls(v[..m + 1]) == Dbls(v[..m]) + [Dbl(v[m])]
  {
    assert v[..m + 1] == v[..m] + [v[m]];
    DblsAppend(v[..m], v[m]);
  }

  /** PushDbl for a run of v starting at base. */
  lemma PushDblAt<D>(v: seq<D>, base: int, i: int)
    requires 0 <= base && 0 <= i && base + i < |v|
    ensures Dbls(v[base..base + i + 1]) == Dbls(v[base..base + i]) + [Dbl(v[base + i])]
  {
    assert v[base..base + i + 1] == v[base..base + i] + [v[base + i]];
    DblsAppend(v[base..base + i], v[base + i]);
  }

  /** The double tokens of two adjacent runs are those of the runs joined. */
  lemma DblsSplit<D>(v: seq<D>, a: int, b: int)
    requires 0 <= a <= b <= |v|
    ensures Dbls(v[..b]) == Dbls(v[..a]) + Dbls(v[a..b])
  {
    assert v[..b] == v[..a] + v[a..b];
  }

  /**
   * _recv_Array(tJoints*) as written hands the joint vector to _recv_Array with
   * the ceiling of 50: a count of 13 is accepted with 13 values, one more than
   * tJoints::Values holds, and a count of 51 is still stored in nDOFs. With the
   * capacity as the ceiling (RoboDK.RecvJoints) the count of 13 is refused.
   */
  lemma JointsOverflow<D>(x: D)
    ensures var r := DecArray(EncArray(seq(13, _ => x), 13), ArrayCeiling);
      r.ok && r.size == Some(13) && |r.values| == 13 > JointsMax
    ensures DecArray<D>([I32(51)], ArrayCeiling).size == Some(51)
    ensures !DecArray(EncArray(seq(13, _ => x), 13), JointsMax).ok
  {
    var vals := seq(13, _ => x);
    ArrayRoundTrip(vals, 13, ArrayCeiling, []);
    assert EncArray(vals, 13) + [] == EncArray(vals, 13);
  }

  /** The m44 array of _send_Array(const Mat*): the 16 entries of pose, column by column. */
  method PoseColumns<D>(pose: Mat<D>, zero: D) returns (m44: array<D>)
    requires pose.Valid()
    ensures fresh(m44) && m44[..] == ColumnMajor(pose)
  {
    m44 := new D[16](_ => zero);
    for c := 0 to 4
      invariant forall k :: 0 <= k < 4 * c ==> m44[k] == ColumnMajor(pose)[k]
    {
      for r := 0 to 4
        invariant forall k :: 0 <= k < 4 * c + r ==> m44[k] == ColumnMajor(pose)[k]
      {
        DivModUnique(4, c, r);
        m44[c * 4 + r] := pose.Get(r, c);
      }
    }
  }

  /** Two poses with the same entries are the same pose. */
  lemma MatExt<D>(p: Mat<D>, q: Mat<D>)
    requires p.Valid() && q.Valid()
    requires forall i, j :: 0 <= i < 4 && 0 <= j < 4 ==> p.Get(i, j) == q.Get(i, j)
    ensures p == q
  {
    forall k | 0 <= k < 16 ensures p.cells[k] == q.cells[k] {
      Transpose4(k);
      assert p.cells[k] == p.Get(k / 4, k % 4);
    }
  }

  class RoboDK<D> {
    const attached: bool   // _COM != NULL
    const open: bool       // _COM->isOpen()
    var sent: seq<Tok<D>>
    var pending: seq<Tok<D>>
    var timeout: int
    const zero: D
    const one: D

    /**
     * The test every _send_* primitive makes: a socket is attached and it is
     * open. The _recv_* primitives test only that a socket is attached.
     */
    predicate Writable() {
      attached && open
    }

    /** The tokens a send of toks emits: all of them on a writable link, none otherwise. */
    function Out(toks: seq<Tok<D>>): seq<Tok<D>> {
      if Writable() then toks else []
    }

    /** Two sends in a row emit what one send of both emits. */
    lemma OutAppend(o: seq<Tok<D>>, a: seq<Tok<D>>, b: seq<Tok<D>>)
      ensures (o + Out(a)) + Out(b) == o + Out(a + b)
    {
      if Writable() {
        ConcatAssoc(o, a, b);
      }
    }

    /** A link with nothing sent yet, the given tokens still to be received and the default timeout. */
    constructor (attached: bool, open: bool, incoming: seq<Tok<D>>, zero: D, one: D)
      ensures this.attached == attached && this.open == open
      ensures sent == [] && pending == incoming && timeout == ApiTimeout
      ensures this.zero == zero && this.one == one
    {
      this.attached := attached;
      this.open := open;
      sent := [];
      pending := incoming;
      timeout := ApiTimeout;
      this.zero := zero;
      this.one := one;
    }

    // -------------------------------------------------------------------------
    // Lines, ints and items

    /** _send_Line. */
    method SendLine(text: string) returns (ok: bool)
      modifies this
      ensures ok == Writable()
      ensures sent == old(sent) + Out([Line(text)])
      ensures pending == old(pending) && timeout == old(timeout)
    {
      if !Writable() {
        return false;
      }
      sent := sent + [Line(text)];
      return true;
    }

    /** _recv_Line. */
    method RecvLine() returns (text: string)
      modifies this
      ensures !attached ==> text == "" && pending == old(pending)
      ensures attached ==> (text, pending) == DecLine(old(pending))
      ensures sent == old(sent) && timeout == old(timeout)
    {
      if !attached {
        return "";
      }
      if |pending| == 0 || !pending[0].Line? {
        pending := [];   // readAll: the receive buffer is dropped
        return "";
      }
      text := Trim(pending[0].text);
      pending := pending[1..];
    }

    /** _send_Int. */
    method SendInt(v: int) returns (ok: bool)
      modifies this
      ensures ok == Writable()
      ensures sent == old(sent) + Out([I32(v)])
      ensures pending == old(pending) && timeout == old(timeout)
    {
      if !Writable() {
        return false;
      }
      sent := sent + [I32(v)];
      return true;
    }

    /** _recv_Int: 0 (its `return false`) without a socket. */
    method RecvInt() returns (v: int)
      modifies this
      ensures !attached ==> v == 0 && pending == old(pending)
      ensures attached ==> (v, pending) == DecInt(old(pending))
      ensures sent == old(sent) && timeout == old(timeout)
    {
      if !attached {
        return 0;
      }
      if |pending| == 0 || !pending[0].I32? {
        return -1;
      }
      v := pending[0].value;
      pending := pending[1..];
    }

    /** _send_Item; None stands for a null item pointer. */
    method SendItem(item: Option<Item>) returns (ok: bool)
      modifies this
      ensures ok == Writable()
      ensures sent == old(sent) + Out(EncItem(item))
      ensures pending == old(pending) && timeout == old(timeout)
    {
      if !Writable() {
        return false;
      }
      var ptr := 0;
      if item.Some? {
        ptr := item.value.ptr;
      }
      sent := sent + [U64(ptr)];
      return true;
    }

    /** _recv_Item. */
    method RecvItem() returns (item: Item)
      modifies this
      ensures !attached ==> item == NullItem && pending == old(pending)
      ensures attached ==> (item, pending) == DecItem(old(pending))
      ensures sent == old(sent) && timeout == old(timeout)
    {
      item := NullItem;
      if !attached {
        return;
      }
      if |pending| == 0 || !pending[0].U64? {
        return;
      }
      var ptr := pending[0].id;
      pending := pending[1..];
      var kind := 0;
      if |pending| > 0 && pending[0].I32? {
        kind := pending[0].value;
        pending := pending[1..];
      }
      item := Item(ptr, kind);
    }

    // -------------------------------------------------------------------------
    // Poses and points

    /** _send_Pose: the 16 entries, column by column. */
    method SendPose(pose: Mat<D>) returns (ok: bool)
      requires pose.Valid()
      modifies this
      ensures ok == Writable()
      ensures sent == old(sent) + Out(EncPose(pose))
      ensures pending == old(pending) && timeout == old(timeout)
    {
      if !Writable() {
        return false;
      }
      ghost var v := ColumnMajor(pose);
      for j := 0 to 4
        invariant sent == old(sent) + Dbls(v[..4 * j])
        invariant pending == old(pending) && timeout == old(timeout)
      {
        for i := 0 to 4
          invariant sent == old(sent) + Dbls(v[..4 * j + i])
          invariant pending == old(pending) && timeout == old(timeout)
        {
          var value := pose.Get(i, j);
          DivModUnique(4, j, i);
          PushDbl(v, 4 * j + i);
          ConcatAssoc(old(sent), Dbls(v[..4 * j + i]), [Dbl(value)]);
          sent := sent + [Dbl(value)];
        }
      }
      assert v[..16] == v;
      return true;
    }

    /** _recv_Pose: the identity without a socket or when fewer than 16 doubles have arrived. */
    method RecvPose() returns (pose: Mat<D>)
      modifies this
      ensures pose.Valid()
      ensures !attached ==> pose == Identity(zero, one) && pending == old(pending)
      ensures attached ==> (pose, pending) == DecPose(old(pending), zero, one)
      ensures sent == old(sent) && timeout == old(timeout)
    {
      pose := Identity(zero, one);
      if !attached {
        return;
      }
      if !HasDbls(pending, 16) {
        return;
      }
      ghost var src := pending;
      for j := 0 to 4
        invariant pose.Valid()
        invariant pending == src[4 * j..]
        invariant forall a, b :: 0 <= a < 4 && 0 <= b < j ==> pose.Get(a, b) == src[4 * b + a].d
        invariant sent == old(sent) && timeout == old(timeout)
      {
        for i := 0 to 4
          invariant pose.Valid()
          invariant pending == src[4 * j + i..]
          invariant forall a, b :: 0 <= a < 4 && 0 <= b < j ==> pose.Get(a, b) == src[4 * b + a].d
          invariant forall a :: 0 <= a < i ==> pose.Get(a, j) == src[4 * j + a].d
          invariant sent == old(sent) && timeout == old(timeout)
        {
          var value := pending[0].d;
          pending := pending[1..];
          pose := pose.Set(i, j, value);
        }
      }
      ghost var want := DecPose(src, zero, one).0;
      forall a, b | 0 <= a < 4 && 0 <= b < 4 ensures pose.Get(a, b) == want.Get(a, b) {
        assert src[4 * b + a] == Dbl(want.Get(a, b));
      }
      MatExt(pose, want);
    }

    /** _send_XYZ: the three coordinates of a tXYZ. */
    method SendXYZ(pos: array<D>) returns (ok: bool)
      requires pos.Length == 3
      modifies this
      ensures ok == Writable()
      ensures sent == old(sent) + Out(EncXYZ(pos[..]))
      ensures pending == old(pending) && timeout == old(timeout)
    {
      if !Writable() {
        return false;
      }
      for i := 0 to 3
        invariant sent == old(sent) + Dbls(pos[..i])
        invariant pending == old(pending) && timeout == old(timeout)
      {
        PushDbl(pos[..], i);
        assert pos[..][..i + 1] == pos[..i + 1] && pos[..][..i] == pos[..i];
        sent := sent + [Dbl(pos[i])];
      }
      assert pos[..3] == pos[..];
      return true;
    }

    /** _recv_XYZ: fills pos once three doubles have arrived, otherwise leaves it alone. */
    method RecvXYZ(pos: array<D>) returns (ok: bool)
      requires pos.Length == 3
      modifies this, pos
      ensures !attached ==> !ok && pending == old(pending) && pos[..] == old(pos[..])
      ensures attached ==> ok == DecXYZ(old(pending)).0.Some? && pending == DecXYZ(old(pending)).1
      ensures attached && ok ==> pos[..] == DecXYZ(old(pending)).0.value
      ensures !ok ==> pos[..] == old(pos[..])
      ensures sent == old(sent) && timeout == old(timeout)
    {
      if !attached {
        return false;
      }
      if !HasDbls(pending, 3) {
        return false;
      }
      ghost var src := pending;
      for i := 0 to 3
        modifies this`pending, pos
        invariant pending == src[i..]
        invariant forall k :: 0 <= k < i ==> pos[k] == src[k].d
      {
        pos[i] := pending[0].d;
        pending := pending[1..];
      }
      assert pos[..] == DblValues(src[..3]);
      return true;
    }

    // -------------------------------------------------------------------------
    // Counted arrays

    /** _send_Array(values, n): the count, then the first n values. */
    method SendArray(vals: seq<D>, n: int) returns (ok: bool)
      requires Max(n, 0) <= |vals|
      modifies this
      ensures ok == Writable()
      ensures sent == old(sent) + Out(EncArray(vals, n))
      ensures pending == old(pending) && timeout == old(timeout)
    {
      if !Writable() {
        return false;
      }
      ok := SendInt(n);
      ghost var pre := sent;
      var i := 0;
      while i < n
        invariant 0 <= i <= Max(n, 0)
        invariant sent == pre + Dbls(vals[..i])
        invariant pending == old(pending) && timeout == old(timeout)
      {
        PushDbl(vals, i);
        ConcatAssoc(pre, Dbls(vals[..i]), [Dbl(vals[i])]);
        sent := sent + [Dbl(vals[i])];
        i := i + 1;
      }
      ConcatAssoc(old(sent), [I32(n)], Dbls(vals[..i]));
    }

    /** _send_Array(const tJoints*): the joint count and values, or only the count 0 for a null pointer. */
    method SendJoints(joints: Joints?<D>) returns (ok: bool)
      requires joints != null ==> joints.Valid()
      modifies this
      ensures ok == Writable()
      ensures joints == null ==> sent == old(sent) + Out([I32(0)])
      ensures joints != null ==> sent == old(sent) + Out(EncArray(joints.values[..], joints.nDOFs))
      ensures pending == old(pending) && timeout == old(timeout)
    {
      if joints == null {
        ok := SendInt(0);
        return;
      }
      ok := SendArray(joints.values[..], joints.nDOFs);
    }

    /** _send_Array(const Mat*): 16 and the entries column by column, or only the count 0 for a null pointer. */
    method SendMatArray(mat: Option<Mat<D>>) returns (ok: bool)
      requires mat.Some? ==> mat.value.Valid()
      modifies this
      ensures ok == Writable()
      ensures sent == old(sent) + Out(EncMatArray(mat))
      ensures pending == old(pending) && timeout == old(timeout)
    {
      if mat.None? {
        ok := SendInt(0);
        return;
      }
      var m44 := PoseColumns(mat.value, zero);
      ok := SendArray(m44[..], 16);
    }

    /**
     * _recv_Array(values, psize): values must have room for the ceiling. size is
     * what gets stored in *psize (None: left alone).
     */
    method RecvArray(values: array<D>) returns (ok: bool, size: Option<int>)
      requires attached ==>
        var (n, rest) := DecInt(pending);
        0 <= n <= ArrayCeiling && HasDbls(rest, n) ==> n <= values.Length
      modifies this, values
      ensures !attached ==> !ok && size.None? && pending == old(pending) && values[..] == old(values[..])
      ensures attached ==>
        var r := DecArray(old(pending), ArrayCeiling);
        ok == r.ok && size == r.size && pending == r.rest && values[..|r.values|] == r.values
        && forall k :: |r.values| <= k < values.Length ==> values[k] == old(values[k])
      ensures sent == old(sent) && timeout == old(timeout)
    {
      var n := RecvInt();
      if !attached || n < 0 {
        return false, None;
      }
      size := Some(n);
      if n < 0 || n > ArrayCeiling {
        return false, size;
      }
      if !HasDbls(pending, n) {
        return false, size;
      }
      ghost var src := pending;
      var i := 0;
      while i < n
        modifies this`pending, values
        invariant 0 <= i <= n
        invariant pending == src[i..]
        invariant forall k :: 0 <= k < i ==> values[k] == src[k].d
        invariant forall k :: i <= k < values.Length ==> values[k] == old(values[k])
      {
        values[i] := pending[0].d;
        pending := pending[1..];
        i := i + 1;
      }
      assert values[..n] == DblValues(src[..n]);
      return true, size;
    }

    /**
     * _recv_Array(tJoints*) with the count checked against the capacity of the
     * joint vector instead of the ceiling of 50: a count above JointsMax is
     * refused and the vector keeps its count, so it stays valid.
     */
    method RecvJoints(joints: Joints<D>) returns (ok: bool)
      requires joints.Valid()
      modifies this, joints, joints.values
      ensures joints.Valid()
      ensures !attached ==> !ok && pending == old(pending) && joints.nDOFs == old(joints.nDOFs)
      ensures attached ==>
        var r := DecArray(old(pending), JointsMax);
        && ok == r.ok && pending == r.rest
        && joints.nDOFs == (if r.size.Some? && r.size.value <= JointsMax then r.size.value else old(joints.nDOFs))
        && (ok ==> joints.Contents() == r.values)
      ensures !ok ==> joints.values[..] == old(joints.values[..])
      ensures sent == old(sent) && timeout == old(timeout)
    {
      var n := RecvInt();
      if !attached || n < 0 {
        return false;
      }
      if n > JointsMax {
        return false;
      }
      joints.nDOFs := n;
      if !HasDbls(pending, n) {
        return false;
      }
      ghost var src := pending;
      var i := 0;
      while i < n
        modifies this`pending, joints.values
        invariant 0 <= i <= n
        invariant pending == src[i..]
        invariant forall k :: 0 <= k < i ==> joints.values[k] == src[k].d
      {
        joints.values[i] := pending[0].d;
        pending := pending[1..];
        i := i + 1;
      }
      assert joints.Contents() == DblValues(src[..n]);
      assert DecArray(old(pending), JointsMax) == ArrayRecv(true, Some(n), DblValues(src[..n]), src[n..]);
      return true;
    }

    // -------------------------------------------------------------------------
    // Two-dimensional buffers

    /** _send_Matrix2D: the two dimensions, then the elements column by column. */
    method SendMatrix2D(mat: Matrix2D<D>) returns (ok: bool)
      requires mat.Valid()
      modifies this
      ensures ok == Writable()
      ensures sent == old(sent) + Out(EncMatrix2D(mat.rows, mat.cols, mat.data[..]))
      ensures pending == old(pending) && timeout == old(timeout)
    {
      if !Writable() {
        return false;
      }
      var dim1 := mat.Size(1);
      var dim2 := mat.Size(2);
      var ok1 := SendInt(dim1);
      var ok2 := SendInt(dim2);
      ghost var dims: seq<Tok<D>> := [I32(dim1), I32(dim2)];
      assert sent == old(sent) + dims;
      SendCells(mat);
      ConcatAssoc(old(sent), dims, Dbls(mat.data[..][..MatrixCount(mat.rows, mat.cols)]));
      return true;
    }

    /** The element loops of _send_Matrix2D: j over the columns outside, i over the rows inside. */
    method SendCells(mat: Matrix2D<D>)
      requires Writable() && mat.Valid()
      modifies this
      ensures MatrixCount(mat.rows, mat.cols) <= mat.data.Length
      ensures sent == old(sent) + Dbls(mat.data[..][..MatrixCount(mat.rows, mat.cols)])
      ensures pending == old(pending) && timeout == old(timeout)
    {
      ghost var cells := mat.data[..];
      ghost var rows := Max(mat.rows, 0);
      ghost var base := 0;
      var j := 0;
      while j < mat.cols
        invariant 0 <= j <= Max(mat.cols, 0)
        invariant base == rows * j && 0 <= base <= MatrixCount(mat.rows, mat.cols)
        invariant sent == old(sent) + Dbls(cells[..base])
        invariant pending == old(pending) && timeout == old(timeout)
      {
        if mat.rows > 0 {
          ColumnMajorIndex(mat.rows, mat.cols, mat.rows - 1, j);
          SendColumn(mat, j, base);
          DblsSplit(cells, base, base + rows);
          ConcatAssoc(old(sent), Dbls(cells[..base]), Dbls(cells[base..base + rows]));
        }
        MulAdd(rows, j, 1);
        base := base + rows;
        j := j + 1;
      }
    }

    /** The inner loop of _send_Matrix2D: the elements of column j, which start at slot base. */
    method SendColumn(mat: Matrix2D<D>, j: int, ghost base: int)
      requires Writable() && mat.Valid() && 0 < mat.rows && 0 <= j
      requires base == mat.rows * j && 0 <= base && base + mat.rows <= mat.allocatedSize
      modifies this
      ensures sent == old(sent) + Dbls(mat.data[..][base..base + mat.rows])
      ensures pending == old(pending) && timeout == old(timeout)
    {
      var i := 0;
      while i < mat.rows
        invariant 0 <= i <= mat.rows
        invariant sent == old(sent) + Dbls(mat.data[..][base..base + i])
        invariant pending == old(pending) && timeout == old(timeout)
      {
        var value := mat.GetIJ(i, j);
        PushDblAt(mat.data[..], base, i);
        ConcatAssoc(old(sent), Dbls(mat.data[..][base..base + i]), [Dbl(value)]);
        sent := sent + [Dbl(value)];
        i := i + 1;
      }
    }

    /**
     * _recv_Matrix2D: a fresh buffer of the received dimensions filled with the
     * received elements; an empty 0 x 0 buffer for negative dimensions; null when
     * the elements stop arriving.
     */
    method RecvMatrix2D() returns (ok: bool, mat: Matrix2D?<D>)
      modifies this
      ensures mat != null ==> mat.Valid() && fresh(mat) && fresh(mat.data)
      ensures !attached ==> ok && mat != null && mat.rows == 0 && mat.cols == 0 && pending == old(pending)
      ensures attached ==> match DecMatrix2D(old(pending)) {
        case Rejected(rest) => !ok && mat != null && mat.rows == 0 && mat.cols == 0 && pending == rest
        case Received(r, c, cells, rest) =>
          ok && mat != null && mat.rows == r && mat.cols == c && mat.data[..r * c] == cells && pending == rest
        case Stalled(rest) => !ok && mat == null && pending == rest
      }
      ensures sent == old(sent) && timeout == old(timeout)
    {
      var dim1 := RecvInt();
      var dim2 := RecvInt();
      assert attached ==> Dims(old(pending)) == (dim1, dim2, pending);
      ok, mat := RecvCells(dim1, dim2);
    }

    /**
     * _recv_Matrix2D after the two dimensions: a fresh empty buffer, refused
     * for a negative dimension, sized, and filled by the element loop when it
     * holds any element.
     */
    method RecvCells(dim1: int, dim2: int) returns (ok: bool, mat: Matrix2D?<D>)
      requires !attached ==> dim1 == 0 && dim2 == 0
      modifies this
      ensures mat != null ==> mat.Valid() && fresh(mat) && fresh(mat.data)
      ensures match DecAfterDims(dim1, dim2, old(pending)) {
        case Rejected(rest) => !ok && mat != null && mat.rows == 0 && mat.cols == 0 && pending == rest
        case Received(r, c, cells, rest) =>
          ok && mat != null && mat.rows == r && mat.cols == c && mat.data[..r * c] == cells && pending == rest
        case Stalled(rest) => !ok && mat == null && pending == rest
      }
      ensures sent == old(sent) && timeout == old(timeout)
    {
      mat := new Matrix2D<D>.Create(zero);
      if dim1 < 0 || dim2 < 0 {
        return false, mat;
      }
      if !Fits(dim1, dim2) {
        return false, mat;
      }
      mat.SetSize(dim1, dim2);
      if dim1 * dim2 <= 0 {
        MulLeftMono(dim1, 0, dim2);
        return true, mat;
      }
      ok, mat := ReadCells(mat, dim1 * dim2);
    }

    /**
     * One pass of the element loop of _recv_Matrix2D over the avail doubles that
     * have arrived: each is stored at the next slot from at on, in stream order.
     */
    method ReadRun(data: array<D>, at: int, avail: int)
      requires 0 <= at && 0 <= avail && at + avail <= data.Length && HasDbls(pending, avail)
      modifies this`pending, data
      ensures pending == old(pending)[avail..]
      ensures forall m :: 0 <= m < at ==> data[m] == old(data[m])
      ensures forall m :: 0 <= m < avail ==> data[at + m] == old(pending)[m].d
    {
      var k := 0;
      while k < avail
        modifies this`pending, data
        invariant 0 <= k <= avail && pending == old(pending)[k..]
        invariant forall m :: 0 <= m < at ==> data[m] == old(data[m])
        invariant forall m :: 0 <= m < k ==> data[at + m] == old(pending)[m].d
      {
        data[at + k] := pending[0].d;
        pending := pending[1..];
        k := k + 1;
      }
    }

    /** The element loop of _recv_Matrix2D: read up to n doubles as they arrive into the first n slots. */
    method ReadCells(mat: Matrix2D<D>, n: int) returns (ok: bool, res: Matrix2D?<D>)
      requires attached && mat.Valid() && 0 < mat.rows && 0 < mat.cols && n == mat.rows * mat.cols
      modifies this`pending, mat.data
      ensures var r := DecCells(mat.rows, mat.cols, old(pending));
        && (r.Received? ==> ok && res == mat && mat.data[..n] == r.cells && pending == r.rest)
        && (r.Stalled? ==> !ok && res == null && pending == r.rest)
    {
      ghost var src := pending;
      var count := 0;
      while true
        modifies this`pending, mat.data
        invariant 0 <= count <= n && HasDbls(src, count)
        invariant pending == src[count..]
        invariant forall k :: 0 <= k < count ==> mat.data[k] == src[k].d
        decreases n - count
      {
        var remaining := n - count;
        if remaining <= 0 {
          assert mat.data[..n] == DblValues(src[..n]);
          CellsReceived(mat.rows, mat.cols, src);
          return true, mat;
        }
        if |pending| == 0 || !pending[0].Dbl? {
          CellsStalled(mat.rows, mat.cols, src, count);
          return false, null;
        }
        var avail := Min(LeadingDbls(pending), remaining);
        ReadRun(mat.data, count, avail);
        count := count + avail;
      }
    }

    // -------------------------------------------------------------------------
    // Status and moves

    /** _check_status: true when the call failed; false exactly for status 0 and status 2. */
    method CheckStatus() returns (failed: bool)
      modifies this
      ensures !attached ==> !failed && pending == old(pending)
      ensures attached ==> (failed, pending) == DecStatus(old(pending))
      ensures sent == old(sent) && timeout == old(timeout)
    {
      var status := RecvInt();
      if status > 0 && status < 10 {
        if status == 1 {
        } else if status == 2 {
          var message := RecvLine();
          return false;
        } else if status == 3 {
          var message := RecvLine();
        }
        return true;
      } else if status == 0 {
        return false;
      }
      return true;
    }

    /**
     * Item::WaitMove: send "WaitMove" and the robot, read a status, then read the
     * status that arrives when the robot stops, with the timeout raised to
     * timeoutMs meanwhile; the timeout then goes back to ROBODK_API_TIMEOUT.
     */
    method WaitMove(robot: Item, timeoutMs: int)
      modifies this
      ensures sent == old(sent) + Out(WaitMoveRequest(robot))
      ensures pending == if attached then SkipStatuses(old(pending), 2) else old(pending)
      ensures timeout == ApiTimeout
    {
      var ok := SendLine("WaitMove");
      ok := SendItem(Some(robot));
      ghost var s0 := pending;
      var failed := CheckStatus();
      timeout := timeoutMs;
      failed := CheckStatus();
      timeout := ApiTimeout;
      if attached {
        assert SkipStatuses(s0, 2) == SkipStatuses(DecStatus(s0).1, 1);
        assert SkipStatuses(DecStatus(s0).1, 1) == SkipStatuses(pending, 0);
      }
    }

    /** A target item: discriminator 3, an empty joint array and the item. */
    method SendItemTarget(item: Item)
      modifies this
      ensures sent == old(sent) + Out(EncTarget(ItemTarget(item)))
      ensures pending == old(pending) && timeout == old(timeout)
    {
      var ok := SendInt(3);
      ok := SendJoints(null);
      ok := SendItem(Some(item));
      ConcatAssoc3(old(sent), Out([I32(3)]), Out([I32(0)]), Out(EncItem(Some(item))));
    }

    /** A joint target: discriminator 1, the joints and a null item. */
    method SendJointsTarget(joints: Joints<D>)
      requires joints.Valid()
      modifies this
      ensures JointsTarget(joints.nDOFs, joints.values[..]).Valid()
      ensures sent == old(sent) + Out(EncTarget(JointsTarget(joints.nDOFs, joints.values[..])))
      ensures pending == old(pending) && timeout == old(timeout)
    {
      var ok := SendInt(1);
      ok := SendJoints(joints);
      ok := SendItem(None);
      ConcatAssoc3(old(sent), Out([I32(1)]), Out(EncArray(joints.values[..], joints.nDOFs)), Out(EncItem(None)));
    }

    /** A pose target: discriminator 2, the pose as a 16-value array and a null item. */
    method SendPoseTarget(pose: Mat<D>)
      requires pose.Valid()
      modifies this
      ensures sent == old(sent) + Out(EncTarget(PoseTarget(pose)))
      ensures pending == old(pending) && timeout == old(timeout)
    {
      var ok := SendInt(2);
      ok := SendMatArray(Some(pose));
      ok := SendItem(None);
      ConcatAssoc3(old(sent), Out([I32(2)]), Out(EncMatArray(Some(pose))), Out(EncItem(None)));
    }

    /** One target of a move, as _moveX and _moveC send it: the item first, then the joints, then the pose. */
    method SendTarget(target: Option<Item>, joints: Joints?<D>, mat: Option<Mat<D>>) returns (t: Option<Target<D>>)
      requires joints != null ==> joints.Valid()
      requires mat.Some? ==> mat.value.Valid()
      modifies this
      ensures t == SelectTarget(target, if joints == null then None else Some((joints.nDOFs, joints.values[..])), mat)
      ensures t.Some? ==> t.value.Valid() && sent == old(sent) + Out(EncTarget(t.value))
      ensures t.None? ==> sent == old(sent)
      ensures pending == old(pending) && timeout == old(timeout)
    {
      if target.Some? {
        SendItemTarget(target.value);
        t := Some(ItemTarget(target.value));
      } else if joints != null {
        SendJointsTarget(joints);
        t := Some(JointsTarget(joints.nDOFs, joints.values[..]));
      } else if mat.Some? {
        SendPoseTarget(mat.value);
        t := Some(PoseTarget(mat.value));
      } else {
        t := None;
      }
    }

    /** The start of a move: wait for the robot, then send the command and the move type. */
    method StartMove(robot: Item, waitMs: int, command: string, movetype: int)
      modifies this
      ensures sent == old(sent) + Out(WaitMoveRequest(robot) + [Line(command), I32(movetype)])
      ensures pending == if attached then SkipStatuses(old(pending), 2) else old(pending)
      ensures timeout == ApiTimeout
    {
      WaitMove(robot, waitMs);
      var ok := SendLine(command);
      ok := SendInt(movetype);
    }

    /**
     * The end of a move from its last target on: the target (see SendTarget);
     * when there is one, the robot, the move's status, and a wait when blocking.
     */
    method SendTail(target: Option<Item>, joints: Joints?<D>, mat: Option<Mat<D>>, robot: Item,
                    blocking: bool, waitMs: int) returns (t: Option<Target<D>>)
      requires joints != null ==> joints.Valid()
      requires mat.Some? ==> mat.value.Valid()
      modifies this
      ensures t == SelectTarget(target, if joints == null then None else Some((joints.nDOFs, joints.values[..])), mat)
      ensures t.Some? ==> t.value.Valid()
      ensures sent == old(sent) + Out(MoveTail(t, robot, blocking))
      ensures pending == if attached && t.Some? then SkipStatuses(old(pending), if blocking then 3 else 1) else old(pending)
      ensures t.Some? && blocking ==> timeout == ApiTimeout
      ensures !(t.Some? && blocking) ==> timeout == old(timeout)
    {
      t := SendTarget(target, joints, mat);
      if t.None? {
        return;
      }
      var ok := SendItem(Some(robot));
      ghost var p0 := old(pending);
      var failed := CheckStatus();
      if attached {
        assert pending == SkipStatuses(p0, 1);
      }
      ghost var wait: seq<Tok<D>> := [];
      if blocking {
        WaitMove(robot, waitMs);
        wait := WaitMoveRequest(robot);
        if attached {
          SkipStatusesAdd(p0, 1, 2);
        }
      }
      ConcatAssoc3(old(sent), Out(EncTarget(t.value)), Out(EncItem(Some(robot))), Out(wait));
    }

    /**
     * _moveX: wait for the robot, send "MoveX", the move type, the target and
     * the robot, read the status, and wait again when blocking. Without a target
     * it throws (threw) right after the move type. waitMs is the default
     * argument of Item::WaitMove.
     */
    method MoveX(target: Option<Item>, joints: Joints?<D>, mat: Option<Mat<D>>, robot: Item,
                 movetype: int, blocking: bool, waitMs: int) returns (threw: bool)
      requires joints != null ==> joints.Valid()
      requires mat.Some? ==> mat.value.Valid()
      modifies this
      ensures var t := SelectTarget(target, if joints == null then None else Some((joints.nDOFs, joints.values[..])), mat);
        && (threw <==> t.None?)
        && sent == old(sent) + Out(MoveXRequest(t, robot, movetype, blocking))
        && pending == (if attached then SkipStatuses(old(pending), MoveXStatuses(t, blocking)) else old(pending))
      ensures timeout == ApiTimeout
    {
      StartMove(robot, waitMs, "MoveX", movetype);
      ghost var head: seq<Tok<D>> := WaitMoveRequest(robot) + [Line("MoveX"), I32(movetype)];
      var t := SendTail(target, joints, mat, robot, blocking, waitMs);
      OutAppend(old(sent), head, MoveTail(t, robot, blocking));
      if attached {
        MoveXPending(old(pending), t, blocking);
      }
      return t.None?;
    }

    /**
     * _moveC: like _moveX with "MoveC", move type 3 and two targets; it throws
     * (threw) after the first target that is missing.
     */
    method MoveC(target1: Option<Item>, joints1: Joints?<D>, mat1: Option<Mat<D>>,
                 target2: Option<Item>, joints2: Joints?<D>, mat2: Option<Mat<D>>,
                 robot: Item, blocking: bool, waitMs: int) returns (threw: bool)
      requires joints1 != null ==> joints1.Valid()
      requires joints2 != null ==> joints2.Valid()
      requires mat1.Some? ==> mat1.value.Valid()
      requires mat2.Some? ==> mat2.value.Valid()
      modifies this
      ensures var t1 := SelectTarget(target1, if joints1 == null then None else Some((joints1.nDOFs, joints1.values[..])), mat1);
        var t2 := SelectTarget(target2, if joints2 == null then None else Some((joints2.nDOFs, joints2.values[..])), mat2);
        && (threw <==> t1.None? || t2.None?)
        && sent == old(sent) + Out(MoveCRequest(t1, t2, robot, blocking))
        && pending == (if attached then SkipStatuses(old(pending), MoveCStatuses(t1, t2, blocking)) else old(pending))
      ensures timeout == ApiTimeout
    {
      StartMove(robot, waitMs, "MoveC", 3);
      var t1, t2 := SendArc(target1, joints1, mat1, target2, joints2, mat2, robot, blocking, waitMs);
      OutAppend(old(sent), WaitMoveRequest(robot) + [Line("MoveC"), I32(3)], ArcTail(t1, t2, robot, blocking));
      if attached {
        MoveCPending(old(pending), t1, t2, blocking);
      }
      return t1.None? || t2.None?;
    }

    /**
     * The targets of a _moveC: the first target, then (see SendTail) the
     * second with the robot, the status and the wait; nothing more once the
     * first is missing.
     */
    method SendArc(target1: Option<Item>, joints1: Joints?<D>, mat1: Option<Mat<D>>,
                   target2: Option<Item>, joints2: Joints?<D>, mat2: Option<Mat<D>>,
                   robot: Item, blocking: bool, waitMs: int) returns (t1: Option<Target<D>>, t2: Option<Target<D>>)
      requires joints1 != null ==> joints1.Valid()
      requires joints2 != null ==> joints2.Valid()
      requires mat1.Some? ==> mat1.value.Valid()
      requires mat2.Some? ==> mat2.value.Valid()
      modifies this
      ensures t1 == SelectTarget(target1, if joints1 == null then None else Some((joints1.nDOFs, joints1.values[..])), mat1)
      ensures t2 == SelectTarget(target2, if joints2 == null then None else Some((joints2.nDOFs, joints2.values[..])), mat2)
      ensures t1.Some? ==> t1.value.Valid()
      ensures t2.Some? ==> t2.value.Valid()
      ensures sent == old(sent) + Out(ArcTail(t1, t2, robot, blocking))
      ensures pending == if attached && t1.Some? && t2.Some? then SkipStatuses(old(pending), if blocking then 3 else 1) else old(pending)
      ensures t1.Some? && t2.Some? && blocking ==> timeout == ApiTimeout
      ensures !(t1.Some? && t2.Some? && blocking) ==> timeout == old(timeout)
    {
      t2 := SelectTarget(target2, if joints2 == null then None else Some((joints2.nDOFs, joints2.values[..])), mat2);
      t1 := SendTarget(target1, joints1, mat1);
      if t1.None? {
        return;
      }
      ghost var s1 := sent;
      t2 := SendTail(target2, joints2, mat2, robot, blocking, waitMs);
      ConcatAssoc(old(sent), Out(EncTarget(t1.value)), Out(MoveTail(t2, robot, blocking)));
    }
  }
}
