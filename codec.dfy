/**
 * The RoboDK wire protocol as pure functions over token streams: what each
 * _send_* primitive emits, what each _recv_* primitive makes of the tokens at
 * the head of the stream and what it leaves behind, the status reply of
 * _check_status, and the request a move command sends. A receive that finds a
 * token of another kind at the head of the stream sees it as "not arrived".
 */
module Codec {
  import opened Wire
  import opened Values
  import opened Buffer

  // ---------------------------------------------------------------------------
  // Integers, lines and items

  /** _recv_Int with a socket attached: the int at the head of the stream, or -1 when none has arrived. */
  function DecInt<D>(s: seq<Tok<D>>): (r: (int, seq<Tok<D>>))
    ensures |r.1| <= |s| && r.1 == s[|s| - |r.1|..]
    ensures |s| > 0 && s[0].I32? ==> |r.1| == |s| - 1
    ensures !(|s| > 0 && s[0].I32?) ==> r == (-1, s)
  {
    if |s| > 0 && s[0].I32? then (s[0].value, s[1..]) else (-1, s)
  }

  lemma IntRoundTrip<D>(v: int, t: seq<Tok<D>>)
    ensures DecInt([I32(v)] + t) == (v, t)
  {
  }

  /**
   * _recv_Line with a socket attached: the next line with white space trimmed at both
   * ends; when no line arrives the client empties its receive buffer (readAll)
   * and returns the empty text.
   */
  function DecLine<D>(s: seq<Tok<D>>): (r: (string, seq<Tok<D>>))
    ensures IsTrimmed(r.0)
    ensures |r.1| <= |s| && r.1 == s[|s| - |r.1|..]
    ensures |s| > 0 && s[0].Line? ==> |r.1| == |s| - 1
    ensures !(|s| > 0 && s[0].Line?) ==> r == ("", [])
  {
    if |s| > 0 && s[0].Line? then (Trim(s[0].text), s[1..]) else ("", [])
  }

  /** A line sent with _send_Line is received trimmed and nothing else is consumed. */
  lemma LineRoundTrip<D>(text: string, t: seq<Tok<D>>)
    ensures DecLine([Line(text)] + t) == (Trim(text), t)
    ensures IsTrimmed(text) ==> DecLine([Line(text)] + t).0 == text
  {
    TrimKeepsMiddle(text);
  }

  /** _send_Item: the item's identifier, or 0 for a null item pointer. */
  function EncItem<D>(item: Option<Item>): (r: seq<Tok<D>>)
    ensures |r| == 1 && r[0].U64?
    ensures r[0].id == 0 <==> item.None? || !item.value.Valid()
  {
    [U64(if item.Some? then item.value.ptr else 0)]
  }

  /**
   * _recv_Item with a socket attached: an identifier followed by the item type; once the
   * identifier has arrived a missing type reads as 0 (the data stream's read
   * past the end); without an identifier the null item comes back and nothing
   * is consumed.
   */
  function DecItem<D>(s: seq<Tok<D>>): (r: (Item, seq<Tok<D>>))
    ensures |r.1| <= |s| && r.1 == s[|s| - |r.1|..]
    ensures !(|s| > 0 && s[0].U64?) ==> r == (NullItem, s)
    ensures |s| > 0 && s[0].U64? ==> r.0.ptr == s[0].id && |r.1| < |s|
  {
    if |s| > 0 && s[0].U64? then
      if |s| > 1 && s[1].I32? then (Item(s[0].id, s[1].value), s[2..]) else (Item(s[0].id, 0), s[1..])
    else (NullItem, s)
  }

  /** An item reply (identifier, then type) is received as that item; a null identifier gives an invalid item. */
  lemma ItemRoundTrip<D>(item: Item, t: seq<Tok<D>>)
    ensures DecItem([U64(item.ptr), I32(item.kind)] + t) == (item, t)
    ensures DecItem(EncItem(Some(item)) + [I32(item.kind)] + t) == (item, t)
    ensures !DecItem(EncItem(None) + t).0.Valid()
  {
    assert EncItem(Some(item)) + [I32(item.kind)] + t == [U64(item.ptr), I32(item.kind)] + t;
  }

  // ---------------------------------------------------------------------------
  // Counted arrays of doubles

  /** The safety ceiling of _recv_Array: a longer array is refused. */
  const ArrayCeiling: int := 50

  /** _send_Array(values, n): the count n, then the first n values (none when n is not positive). */
  function EncArray<D>(vals: seq<D>, n: int): (r: seq<Tok<D>>)
    requires Max(n, 0) <= |vals|
    ensures |r| == 1 + Max(n, 0) && r[0] == I32(n)
    ensures forall k :: 0 <= k < Max(n, 0) ==> r[1 + k] == Dbl(vals[k])
  {
    [I32(n)] + Dbls(vals[..Max(n, 0)])
  }

  /**
   * What _recv_Array(values, psize) reports: success, the count it stored in
   * *psize (None when it left *psize alone), the values it wrote and the rest
   * of the stream.
   */
  datatype ArrayRecv<D> = ArrayRecv(ok: bool, size: Option<int>, values: seq<D>, rest: seq<Tok<D>>)

  /** _recv_Array with a socket attached, with the given safety ceiling. */
  function DecArray<D>(s: seq<Tok<D>>, ceiling: int): (r: ArrayRecv<D>)
    ensures DecInt(s).0 < 0 ==> !r.ok && r.size.None? && r.values == [] && r.rest == DecInt(s).1
    ensures DecInt(s).0 >= 0 ==> r.size == Some(DecInt(s).0)
    ensures DecInt(s).0 > ceiling ==> !r.ok && r.values == [] && r.rest == DecInt(s).1
    ensures 0 <= DecInt(s).0 <= ceiling ==> (r.ok <==> HasDbls(DecInt(s).1, DecInt(s).0))
    ensures !r.ok ==> r.values == [] && r.rest == DecInt(s).1
    ensures r.ok ==> |r.values| == DecInt(s).0 <= ceiling && Dbls(r.values) + r.rest == DecInt(s).1
  {
    var (n, r1) := DecInt(s);
    if n < 0 then ArrayRecv(false, None, [], r1)
    else if n > ceiling then ArrayRecv(false, Some(n), [], r1)
    else if !HasDbls(r1, n) then ArrayRecv(false, Some(n), [], r1)
    else
      assert r1 == r1[..n] + r1[n..];
      ArrayRecv(true, Some(n), DblValues(r1[..n]), r1[n..])
  }

  /** An array sent with a count within the ceiling is received whole. */
  lemma ArrayRoundTrip<D>(vals: seq<D>, n: int, ceiling: int, t: seq<Tok<D>>)
    requires 0 <= n <= ceiling && n <= |vals|
    ensures DecArray(EncArray(vals, n) + t, ceiling) == ArrayRecv(true, Some(n), vals[..n], t)
  {
    var s := EncArray(vals, n) + t;
    assert s[0] == I32(n) && s[1..] == Dbls(vals[..n]) + t;
    var r1 := Dbls(vals[..n]) + t;
    assert r1[..n] == Dbls(vals[..n]);
    assert r1[n..] == t;
    DblValuesOfDbls(vals[..n]);
  }

  // ---------------------------------------------------------------------------
  // Poses: 16 doubles, column by column

  /** Column j of p, top to bottom. */
  function Column<D>(p: Mat<D>, j: int): seq<D>
    requires p.Valid() && 0 <= j < 4
  {
    [p.Get(0, j), p.Get(1, j), p.Get(2, j), p.Get(3, j)]
  }

  /** The entries of p in wire order: column by column (j outer, i inner); entry k is row k % 4 of column k / 4. */
  function ColumnMajor<D>(p: Mat<D>): (v: seq<D>)
    requires p.Valid()
    ensures |v| == 16
    ensures forall k :: 0 <= k < 16 ==> v[k] == p.Get(k % 4, k / 4)
  {
    Column(p, 0) + Column(p, 1) + Column(p, 2) + Column(p, 3)
  }

  /** The pose whose wire order is v: row i, column j is v[4 * j + i]. */
  function FromColumnMajor<D>(v: seq<D>): (p: Mat<D>)
    requires |v| == 16
    ensures p.Valid()
    ensures forall i, j :: 0 <= i < 4 && 0 <= j < 4 ==> p.Get(i, j) == v[4 * j + i]
  {
    Mat(seq(16, k requires 0 <= k < 16 => v[4 * (k % 4) + k / 4]))
  }

  /** Reading a pose back in wire order gives the same pose, and the other way round. */
  lemma {:induction false} ColumnMajorInverse<D>(p: Mat<D>, v: seq<D>)
    requires p.Valid() && |v| == 16
    ensures FromColumnMajor(ColumnMajor(p)) == p
    ensures ColumnMajor(FromColumnMajor(v)) == v
  {
    var q := FromColumnMajor(ColumnMajor(p));
    forall k | 0 <= k < 16 ensures q.cells[k] == p.cells[k] {
      Transpose4(k);
    }
    var w := ColumnMajor(FromColumnMajor(v));
    forall k | 0 <= k < 16 ensures w[k] == v[k] {
      Transpose4(k);
    }
  }

  /** Slot k of a 4 x 4 grid, read row by row or column by column. */
  lemma Transpose4(k: int)
    requires 0 <= k < 16
    ensures 4 * (k / 4) + k % 4 == k
    ensures (4 * (k % 4) + k / 4) % 4 == k / 4 && (4 * (k % 4) + k / 4) / 4 == k % 4
  {
    DivModUnique(4, k % 4, k / 4);
  }

  /** _send_Pose: the 16 entries of p as doubles, column by column. */
  function EncPose<D>(p: Mat<D>): (r: seq<Tok<D>>)
    requires p.Valid()
    ensures |r| == 16
    ensures forall i, j :: 0 <= i < 4 && 0 <= j < 4 ==> r[4 * j + i] == Dbl(p.Get(i, j))
  {
    forall i, j | 0 <= i < 4 && 0 <= j < 4
      ensures Dbls(ColumnMajor(p))[4 * j + i] == Dbl(p.Get(i, j))
    {
      DivModUnique(4, j, i);
    }
    Dbls(ColumnMajor(p))
  }

  /**
   * _recv_Pose with a socket attached: when 16 doubles have arrived, the pose they
   * carry, column by column; otherwise the identity, consuming nothing.
   */
  function DecPose<D>(s: seq<Tok<D>>, zero: D, one: D): (r: (Mat<D>, seq<Tok<D>>))
    ensures r.0.Valid()
    ensures !HasDbls(s, 16) ==> r == (Identity(zero, one), s)
    ensures HasDbls(s, 16) ==>
      (r.1 == s[16..] && forall i, j :: 0 <= i < 4 && 0 <= j < 4 ==> s[4 * j + i] == Dbl(r.0.Get(i, j)))
  {
    if HasDbls(s, 16) then (FromColumnMajor(DblValues(s[..16])), s[16..]) else (Identity(zero, one), s)
  }

  /** A pose sent with _send_Pose is received exactly, and nothing after it is consumed. */
  lemma PoseRoundTrip<D>(p: Mat<D>, t: seq<Tok<D>>, zero: D, one: D)
    requires p.Valid()
    ensures DecPose(EncPose(p) + t, zero, one) == (p, t)
  {
    var s := EncPose(p) + t;
    assert s[..16] == EncPose(p);
    assert s[16..] == t;
    DblValuesOfDbls(ColumnMajor(p));
    ColumnMajorInverse(p, ColumnMajor(p));
  }

  /** _send_Array(const Mat*): the count 16 and the entries column by column, or only the count 0 for a null pose. */
  function EncMatArray<D>(mat: Option<Mat<D>>): (r: seq<Tok<D>>)
    requires mat.Some? ==> mat.value.Valid()
    ensures mat.None? ==> r == [I32(0)]
    ensures mat.Some? ==> |r| == 17 && r[0] == I32(16)
  {
    if mat.None? then [I32(0)] else EncArray(ColumnMajor(mat.value), 16)
  }

  /** A pose sent as an array is the count 16 followed by the _send_Pose encoding, and is received as that pose. */
  lemma MatArrayIsPose<D>(p: Mat<D>, t: seq<Tok<D>>)
    requires p.Valid()
    ensures EncMatArray(Some(p)) == [I32(16)] + EncPose(p)
    ensures DecArray(EncMatArray(Some(p)) + t, ArrayCeiling) == ArrayRecv(true, Some(16), ColumnMajor(p), t)
  {
    assert ColumnMajor(p)[..16] == ColumnMajor(p);
    ArrayRoundTrip(ColumnMajor(p), 16, ArrayCeiling, t);
  }

  // ---------------------------------------------------------------------------
  // Points (tXYZ): three doubles

  /** _send_XYZ: the three coordinates as doubles, x first. */
  function EncXYZ<D>(pos: seq<D>): (r: seq<Tok<D>>)
    requires |pos| == 3
    ensures |r| == 3 && forall k :: 0 <= k < 3 ==> r[k] == Dbl(pos[k])
  {
    Dbls(pos)
  }

  /** _recv_XYZ with a socket attached: the three coordinates once they have arrived; otherwise nothing is consumed. */
  function DecXYZ<D>(s: seq<Tok<D>>): (r: (Option<seq<D>>, seq<Tok<D>>))
    ensures r.0.Some? <==> HasDbls(s, 3)
    ensures r.0.None? ==> r.1 == s
    ensures r.0.Some? ==> |r.0.value| == 3 && Dbls(r.0.value) + r.1 == s
  {
    if HasDbls(s, 3) then
      assert s == s[..3] + s[3..];
      (Some(DblValues(s[..3])), s[3..])
    else (None, s)
  }

  lemma XYZRoundTrip<D>(pos: seq<D>, t: seq<Tok<D>>)
    requires |pos| == 3
    ensures DecXYZ(EncXYZ(pos) + t) == (Some(pos), t)
  {
    var s := EncXYZ(pos) + t;
    assert s[..3] == Dbls(pos) && s[3..] == t;
    DblValuesOfDbls(pos);
  }

  // ---------------------------------------------------------------------------
  // Two-dimensional buffers: rows, cols, then the elements column by column

  /** How many elements _send_Matrix2D emits: rows * cols when both are positive, else none. */
  function MatrixCount(rows: int, cols: int): (n: int)
    ensures n >= 0
    ensures (rows > 0 && cols > 0) ==> n == rows * cols
    ensures !(rows > 0 && cols > 0) ==> n == 0
  {
    if rows > 0 && cols > 0 then rows * cols else 0
  }

  /** _send_Matrix2D of a rows x cols buffer whose storage is cells. */
  function EncMatrix2D<D>(rows: int, cols: int, cells: seq<D>): (r: seq<Tok<D>>)
    requires MatrixCount(rows, cols) <= |cells|
    ensures |r| == 2 + MatrixCount(rows, cols) && r[..2] == [I32(rows), I32(cols)]
  {
    [I32(rows), I32(cols)] + Dbls(cells[..MatrixCount(rows, cols)])
  }

  /** The three outcomes of _recv_Matrix2D. */
  datatype MatrixRecv<D> =
    | Received(rows: int, cols: int, cells: seq<D>, rest: seq<Tok<D>>)   // true, a rows x cols buffer
    | Rejected(rest: seq<Tok<D>>)                                           // false, an empty 0 x 0 buffer
    | Stalled(rest: seq<Tok<D>>)                                            // false, the buffer freed (*mat == NULL)

  /** The two dimensions at the head of the stream (each -1 when missing) and what follows them. */
  function Dims<D>(s: seq<Tok<D>>): (r: (int, int, seq<Tok<D>>))
    ensures |r.2| <= |s| && r.2 == s[|s| - |r.2|..]
  {
    var (d1, r1) := DecInt(s);
    var (d2, r2) := DecInt(r1);
    (d1, d2, r2)
  }

  /** Dimensions a tMatrix2D can take: both, and their product, fit an int. */
  predicate Fits(rows: int, cols: int) {
    IsInt32(rows) && IsInt32(cols) && IsInt32(rows * cols)
  }

  /**
   * _recv_Matrix2D with a socket attached: two dimensions, then their product of
   * doubles, taken as they arrive; once no more arrive before the product is
   * reached, the partial buffer is discarded.
   */
  function DecMatrix2D<D>(s: seq<Tok<D>>): (r: MatrixRecv<D>)
    ensures Dims(s).0 < 0 || Dims(s).1 < 0 ==> r == Rejected(Dims(s).2)
    ensures Dims(s).0 >= 0 && Dims(s).1 >= 0 && !Fits(Dims(s).0, Dims(s).1) ==> r == Rejected(Dims(s).2)
    ensures r.Rejected? ==> Dims(s).0 < 0 || Dims(s).1 < 0 || !Fits(Dims(s).0, Dims(s).1)
    ensures r.Received? ==> r.rows == Dims(s).0 >= 0 && r.cols == Dims(s).1 >= 0
    ensures r.Received? ==> Fits(r.rows, r.cols) && |r.cells| == r.rows * r.cols
    ensures Dims(s).0 >= 0 && Dims(s).1 >= 0 && Fits(Dims(s).0, Dims(s).1) && Dims(s).0 * Dims(s).1 == 0 ==> r == Received(Dims(s).0, Dims(s).1, [], Dims(s).2)
    ensures Dims(s).0 > 0 && Dims(s).1 > 0 && Fits(Dims(s).0, Dims(s).1) ==>
              r == DecCells(Dims(s).0, Dims(s).1, Dims(s).2)
  {
    var (d1, d2, r2) := Dims(s);
    DecAfterDims(d1, d2, r2)
  }

  /** _recv_Matrix2D once the dimensions d1 and d2 are read, on the stream s that follows them. */
  function DecAfterDims<D>(d1: int, d2: int, s: seq<Tok<D>>): (r: MatrixRecv<D>)
    ensures d1 < 0 || d2 < 0 || !Fits(d1, d2) <==> r.Rejected?
    ensures r.Rejected? ==> r.rest == s
    ensures r.Received? ==> r.rows == d1 && r.cols == d2 && Fits(d1, d2) && |r.cells| == d1 * d2
    ensures d1 >= 0 && d2 >= 0 && Fits(d1, d2) && d1 * d2 == 0 ==> r == Received(d1, d2, [], s)
    ensures d1 > 0 && d2 > 0 && Fits(d1, d2) ==> r == DecCells(d1, d2, s)
  {
    if d1 < 0 || d2 < 0 then Rejected(s)
    else if !Fits(d1, d2) then Rejected(s)
    else if d1 * d2 == 0 then Received(d1, d2, [], s)
    else DecCells(d1, d2, s)
  }

  /**
   * The element loop of _recv_Matrix2D for a rows x cols buffer: all rows * cols
   * doubles once they have arrived; otherwise every double that did arrive is
   * consumed and the receive stalls.
   */
  function DecCells<D>(rows: int, cols: int, s: seq<Tok<D>>): (r: MatrixRecv<D>)
    requires rows > 0 && cols > 0
    ensures r.Received? || r.Stalled?
    ensures r.Received? <==> HasDbls(s, rows * cols)
    ensures r.Received? ==> r.rows == rows && r.cols == cols && |r.cells| == rows * cols && Dbls(r.cells) + r.rest == s
    ensures r.Stalled? ==> HasDbls(s, |s| - |r.rest|) && r.rest == s[|s| - |r.rest|..]
    ensures r.Stalled? && |r.rest| > 0 ==> !r.rest[0].Dbl?
  {
    var n := LeadingDbls(s);
    if n >= rows * cols then
      assert s == s[..rows * cols] + s[rows * cols..];
      Received(rows, cols, DblValues(s[..rows * cols]), s[rows * cols..])
    else
      assert !HasDbls(s, rows * cols) by {
        if HasDbls(s, rows * cols) {
          LeadingAtLeast(s, rows * cols);
        }
      }
      Stalled(s[n..])
  }

  /** Once rows * cols doubles lead s, the element loop receives exactly those. */
  lemma CellsReceived<D>(rows: int, cols: int, s: seq<Tok<D>>)
    requires rows > 0 && cols > 0 && HasDbls(s, rows * cols)
    ensures DecCells(rows, cols, s) == Received(rows, cols, DblValues(s[..rows * cols]), s[rows * cols..])
  {
    LeadingAtLeast(s, rows * cols);
  }

  /** When the doubles that lead s stop after count < rows * cols, the element loop stalls there. */
  lemma CellsStalled<D>(rows: int, cols: int, s: seq<Tok<D>>, count: int)
    requires rows > 0 && cols > 0 && 0 <= count < rows * cols && HasDbls(s, count)
    requires count == |s| || !s[count].Dbl?
    ensures DecCells(rows, cols, s) == Stalled(s[count..])
  {
    LeadingAtLeast(s, count);
  }

  /** A buffer sent with _send_Matrix2D is received with the same dimensions and the same elements. */
  lemma MatrixRoundTrip<D>(rows: int, cols: int, cells: seq<D>, t: seq<Tok<D>>)
    requires rows >= 0 && cols >= 0 && Fits(rows, cols) && rows * cols <= |cells|
    ensures DecMatrix2D(EncMatrix2D(rows, cols, cells) + t) == Received(rows, cols, cells[..rows * cols], t)
  {
    var n := MatrixCount(rows, cols);
    assert n == rows * cols;
    var s := EncMatrix2D(rows, cols, cells) + t;
    var r2 := Dbls(cells[..n]) + t;
    var r1 := [I32(cols)] + r2;
    assert s[0] == I32(rows) && s[1..] == r1;
    assert r1[0] == I32(cols) && r1[1..] == r2;
    if n > 0 {
      assert HasDbls(r2, n);
      LeadingAtLeast(r2, n);
      assert r2[..n] == Dbls(cells[..n]) && r2[n..] == t;
      DblValuesOfDbls(cells[..n]);
    }
  }

  /** When n doubles lead s, LeadingDbls counts at least n. */
  lemma {:induction false} LeadingAtLeast<D>(s: seq<Tok<D>>, n: int)
    requires HasDbls(s, n)
    ensures LeadingDbls(s) >= n
  {
    if n > 0 {
      assert HasDbls(s[1..], n - 1);
      LeadingAtLeast(s[1..], n - 1);
    }
  }

  // ---------------------------------------------------------------------------
  // Status replies

  /**
   * _check_status with a socket attached: read a status int; codes 2 (warning) and 3
   * (error) are followed by a message line. The result says whether the call
   * failed: it is false exactly for status 0 and status 2.
   */
  function DecStatus<D>(s: seq<Tok<D>>): (r: (bool, seq<Tok<D>>))
    ensures r.0 <==> DecInt(s).0 != 0 && DecInt(s).0 != 2
    ensures DecInt(s).0 == 2 || DecInt(s).0 == 3 ==> r.1 == DecLine(DecInt(s).1).1
    ensures DecInt(s).0 != 2 && DecInt(s).0 != 3 ==> r.1 == DecInt(s).1
  {
    var (status, r1) := DecInt(s);
    if status > 0 && status < 10 then
      if status == 2 then (false, DecLine(r1).1)
      else if status == 3 then (true, DecLine(r1).1)
      else (true, r1)
    else if status == 0 then (false, r1)
    else (true, r1)
  }

  /** The reply the remote side gives for a status code: the code, and the message line for codes 2 and 3. */
  function EncStatus<D>(code: int, message: string): seq<Tok<D>> {
    [I32(code)] + (if code == 2 || code == 3 then [Line(message)] else [])
  }

  /** Every status reply is consumed exactly, and fails exactly unless its code is 0 or 2. */
  lemma StatusRoundTrip<D>(code: int, message: string, t: seq<Tok<D>>)
    ensures DecStatus(EncStatus(code, message) + t) == (code != 0 && code != 2, t)
  {
    var s: seq<Tok<D>> := EncStatus(code, message) + t;
    if code == 2 || code == 3 {
      assert s[0] == I32(code) && s[1..] == [Line(message)] + t;
    } else {
      assert s[0] == I32(code) && s[1..] == t;
    }
  }

  /** What one status read leaves of the stream. */
  function StatusRest<D>(s: seq<Tok<D>>): seq<Tok<D>> {
    DecStatus(s).1
  }

  /** The stream left after k consecutive status reads. */
  function SkipStatuses<D>(s: seq<Tok<D>>, k: nat): seq<Tok<D>> {
    Iterate(StatusRest, s, k)
  }

  /** The status reads compose: a reads and then b reads leave what a + b reads leave. */
  lemma SkipStatusesAdd<D>(s: seq<Tok<D>>, a: nat, b: nat)
    ensures SkipStatuses(SkipStatuses(s, a), b) == SkipStatuses(s, a + b)
  {
    IterateAdd(StatusRest, s, a, b);
  }

  /** The statuses a _moveX reads: two for the wait, then those of the tail when there is a target. */
  lemma MoveXPending<D>(s: seq<Tok<D>>, t: Option<Target<D>>, blocking: bool)
    ensures SkipStatuses(s, MoveXStatuses(t, blocking))
         == if t.None? then SkipStatuses(s, 2) else SkipStatuses(SkipStatuses(s, 2), if blocking then 3 else 1)
  {
    SkipStatusesAdd(s, 2, if blocking then 3 else 1);
  }

  /** The statuses a _moveC reads: two for the wait, then those of the tail when both targets are given. */
  lemma MoveCPending<D>(s: seq<Tok<D>>, t1: Option<Target<D>>, t2: Option<Target<D>>, blocking: bool)
    ensures SkipStatuses(s, MoveCStatuses(t1, t2, blocking))
         == if t1.None? || t2.None? then SkipStatuses(s, 2) else SkipStatuses(SkipStatuses(s, 2), if blocking then 3 else 1)
  {
    SkipStatusesAdd(s, 2, if blocking then 3 else 1);
  }

  // ---------------------------------------------------------------------------
  // Move requests

  /** A move target: a target item, a joint vector (count and values) or a pose. */
  datatype Target<D> = ItemTarget(item: Item) | JointsTarget(count: int, vals: seq<D>) | PoseTarget(pose: Mat<D>) {
    ghost predicate Valid() {
      && (JointsTarget? ==> Max(count, 0) <= |vals|)
      && (PoseTarget? ==> pose.Valid())
    }
  }

  /**
   * The target _moveX picks from its three optional arguments: the item if
   * given, else the joints if given, else the pose; none when all three are
   * missing.
   */
  function SelectTarget<D>(target: Option<Item>, joints: Option<(int, seq<D>)>, mat: Option<Mat<D>>): (r: Option<Target<D>>)
    ensures r.None? <==> target.None? && joints.None? && mat.None?
    ensures target.Some? ==> r == Some(ItemTarget(target.value))
    ensures target.None? && joints.Some? ==> r == Some(JointsTarget(joints.value.0, joints.value.1))
    ensures target.None? && joints.None? && mat.Some? ==> r == Some(PoseTarget(mat.value))
  {
    if target.Some? then Some(ItemTarget(target.value))
    else if joints.Some? then Some(JointsTarget(joints.value.0, joints.value.1))
    else if mat.Some? then Some(PoseTarget(mat.value))
    else None
  }

  /**
   * The target _moveX sends is told apart by its first token: 3 exactly when an
   * item was given, 1 exactly when only joints were, 2 exactly when only a pose
   * was; and only an item target names a nonzero identifier.
   */
  lemma SelectTargetKind<D>(target: Option<Item>, joints: Option<(int, seq<D>)>, mat: Option<Mat<D>>)
    requires joints.Some? ==> Max(joints.value.0, 0) <= |joints.value.1|
    requires mat.Some? ==> mat.value.Valid()
    requires target.Some? || joints.Some? || mat.Some?
    ensures SelectTarget(target, joints, mat).Some?
    ensures var r := EncTarget(SelectTarget(target, joints, mat).value);
      && (r[0] == I32(3) <==> target.Some?)
      && (r[0] == I32(1) <==> target.None? && joints.Some?)
      && (r[0] == I32(2) <==> target.None? && joints.None?)
      && (r[|r| - 1].id != 0 ==> target.Some? && target.value.ptr != 0)
  {
    var t := SelectTarget(target, joints, mat).value;
    assert t.Valid();
  }

  /**
   * A target on the wire: the discriminator (3 item, 1 joints, 2 pose), a value
   * array (empty for an item) and an item identifier (0 unless an item).
   */
  function EncTarget<D>(t: Target<D>): (r: seq<Tok<D>>)
    requires t.Valid()
    ensures |r| >= 3 && r[0].I32? && r[1].I32? && r[|r| - 1].U64?
    ensures t.ItemTarget? <==> r[0] == I32(3)
    ensures t.JointsTarget? <==> r[0] == I32(1)
    ensures t.PoseTarget? <==> r[0] == I32(2)
    ensures r[|r| - 1].id != 0 ==> t.ItemTarget?
  {
    match t
    case ItemTarget(item) => [I32(3)] + [I32(0)] + EncItem(Some(item))
    case JointsTarget(n, vals) => [I32(1)] + EncArray(vals, n) + EncItem(None)
    case PoseTarget(p) => [I32(2)] + EncMatArray(Some(p)) + EncItem(None)
  }

  /** The three fields of an encoded target, as the remote side reads them. */
  datatype TargetMsg<D> = TargetMsg(kind: int, values: seq<D>, id: nat)

  /** Reading a target: a discriminator, a counted array (of at most the ceiling) and an identifier. */
  function DecTarget<D>(s: seq<Tok<D>>): (r: Option<(TargetMsg<D>, seq<Tok<D>>)>)
  {
    if |s| == 0 || !s[0].I32? then None
    else
      var a := DecArray(s[1..], ArrayCeiling);
      if !a.ok || |a.rest| == 0 || !a.rest[0].U64? then None
      else Some((TargetMsg(s[0].value, a.values, a.rest[0].id), a.rest[1..]))
  }

  /** The fields an encoded target carries. */
  function Fields<D>(t: Target<D>): TargetMsg<D>
    requires t.Valid()
  {
    match t
    case ItemTarget(item) => TargetMsg(3, [], item.ptr)
    case JointsTarget(n, vals) => TargetMsg(1, vals[..Max(n, 0)], 0)
    case PoseTarget(p) => TargetMsg(2, ColumnMajor(p), 0)
  }

  /**
   * Every target within the array ceiling is read back as its fields, and the
   * fields give the target back: the discriminator tells the variant, the
   * identifier the item and the array the joints or the pose.
   */
  lemma TargetRoundTrip<D>(t: Target<D>, rest: seq<Tok<D>>)
    requires t.Valid()
    requires t.JointsTarget? ==> t.count <= ArrayCeiling
    ensures t.JointsTarget? && t.count < 0 ==> DecTarget(EncTarget(t) + rest) == None
    ensures !(t.JointsTarget? && t.count < 0) ==> DecTarget(EncTarget(t) + rest) == Some((Fields(t), rest))
    ensures Fields(t).kind == 3 <==> t.ItemTarget?
    ensures Fields(t).kind == 1 <==> t.JointsTarget?
    ensures Fields(t).kind == 2 <==> t.PoseTarget?
    ensures t.PoseTarget? ==> |Fields(t).values| == 16 && FromColumnMajor(Fields(t).values) == t.pose
  {
    match t
    case ItemTarget(item) => ItemTargetRoundTrip<D>(item, rest);
    case JointsTarget(n, vals) => JointsTargetRoundTrip(n, vals, rest);
    case PoseTarget(p) =>
      PoseTargetRoundTrip(p, rest);
      ColumnMajorInverse(p, ColumnMajor(p));
  }

  lemma ItemTargetRoundTrip<D>(item: Item, rest: seq<Tok<D>>)
    ensures DecTarget(EncTarget<D>(ItemTarget(item)) + rest) == Some((TargetMsg(3, [], item.ptr), rest))
  {
    var s := EncTarget<D>(ItemTarget(item)) + rest;
    var tail: seq<Tok<D>> := [U64(item.ptr)] + rest;
    assert s[0] == I32(3) && s[1..] == [I32(0)] + tail;
    assert DecArray(s[1..], ArrayCeiling) == ArrayRecv(true, Some(0), [], tail) by {
      assert ([I32(0)] + tail)[1..] == tail;
    }
    assert tail[1..] == rest;
  }

  lemma JointsTargetRoundTrip<D>(n: int, vals: seq<D>, rest: seq<Tok<D>>)
    requires Max(n, 0) <= |vals| && n <= ArrayCeiling
    ensures n < 0 ==> DecTarget(EncTarget(JointsTarget(n, vals)) + rest) == None
    ensures n >= 0 ==> DecTarget(EncTarget(JointsTarget(n, vals)) + rest) == Some((TargetMsg(1, vals[..n], 0), rest))
  {
    var s := EncTarget(JointsTarget(n, vals)) + rest;
    var tail: seq<Tok<D>> := [U64(0)] + rest;
    assert s[0] == I32(1) && s[1..] == EncArray(vals, n) + tail;
    assert EncArray(vals, n)[0] == I32(n);
    assert tail[1..] == rest;
    if n >= 0 {
      ArrayRoundTrip(vals, n, ArrayCeiling, tail);
    } else {
      assert (EncArray(vals, n) + tail)[0] == I32(n);
    }
  }

  lemma PoseTargetRoundTrip<D>(p: Mat<D>, rest: seq<Tok<D>>)
    requires p.Valid()
    ensures DecTarget(EncTarget(PoseTarget(p)) + rest) == Some((TargetMsg(2, ColumnMajor(p), 0), rest))
  {
    var s := EncTarget(PoseTarget(p)) + rest;
    var tail: seq<Tok<D>> := [U64(0)] + rest;
    assert s[0] == I32(2) && s[1..] == EncMatArray(Some(p)) + tail;
    MatArrayIsPose(p, tail);
    assert tail[1..] == rest;
  }

  /** Item::WaitMove's request: "WaitMove" and the robot's identifier. */
  function WaitMoveRequest<D>(robot: Item): (r: seq<Tok<D>>)
    ensures |r| == 2 && r[0] == Line("WaitMove") && r[1] == U64(robot.ptr)
  {
    [Line("WaitMove")] + EncItem(Some(robot))
  }

  /**
   * What _moveX sends: a wait-move request, "MoveX" and the move type, then the
   * target and the robot, and a second wait-move request when blocking. With
   * no target it stops (throws) after the move type.
   */
  function MoveXRequest<D>(t: Option<Target<D>>, robot: Item, movetype: int, blocking: bool): (r: seq<Tok<D>>)
    requires t.Some? ==> t.value.Valid()
    ensures |r| >= 4 && r[2] == Line("MoveX") && r[3] == I32(movetype)
    ensures t.None? <==> |r| == 4
  {
    WaitMoveRequest(robot) + [Line("MoveX"), I32(movetype)] + MoveTail(t, robot, blocking)
  }

  /**
   * The end of a move request from its last target on: the target, the robot,
   * and a wait-move request when blocking; nothing when the target is missing.
   */
  function MoveTail<D>(t: Option<Target<D>>, robot: Item, blocking: bool): (r: seq<Tok<D>>)
    requires t.Some? ==> t.value.Valid()
    ensures t.None? <==> r == []
    ensures t.Some? ==>
      var n := |EncTarget(t.value)|;
      |r| == n + 1 + (if blocking then 2 else 0) && r[..n] == EncTarget(t.value) && r[n] == U64(robot.ptr)
  {
    if t.None? then []
    else EncTarget(t.value) + EncItem(Some(robot)) + (if blocking then WaitMoveRequest(robot) else [])
  }

  /** How many status replies _moveX reads: two per wait-move and one for the move itself. */
  function MoveXStatuses<D>(t: Option<Target<D>>, blocking: bool): nat {
    if t.None? then 2 else if blocking then 5 else 3
  }

  /**
   * What _moveC sends: like _moveX with "MoveC" and move type 3, and two
   * targets; it throws after the first missing target.
   */
  function MoveCRequest<D>(t1: Option<Target<D>>, t2: Option<Target<D>>, robot: Item, blocking: bool): (r: seq<Tok<D>>)
    requires t1.Some? ==> t1.value.Valid()
    requires t2.Some? ==> t2.value.Valid()
    ensures |r| >= 4 && r[2] == Line("MoveC") && r[3] == I32(3)
    ensures t1.None? <==> |r| == 4
  {
    WaitMoveRequest(robot) + [Line("MoveC"), I32(3)] + ArcTail(t1, t2, robot, blocking)
  }

  /** The part of a _moveC request after the move type: nothing once the first target is missing. */
  function ArcTail<D>(t1: Option<Target<D>>, t2: Option<Target<D>>, robot: Item, blocking: bool): (r: seq<Tok<D>>)
    requires t1.Some? ==> t1.value.Valid()
    requires t2.Some? ==> t2.value.Valid()
    ensures t1.None? <==> r == []
    ensures t1.Some? ==> |r| >= |EncTarget(t1.value)| && r[..|EncTarget(t1.value)|] == EncTarget(t1.value)
    ensures t1.Some? && t2.None? ==> r == EncTarget(t1.value)
  {
    if t1.None? then [] else EncTarget(t1.value) + MoveTail(t2, robot, blocking)
  }

  function MoveCStatuses<D>(t1: Option<Target<D>>, t2: Option<Target<D>>, blocking: bool): nat {
    if t1.None? || t2.None? then 2 else if blocking then 5 else 3
  }

  /** How many times the line text occurs in s. */
  function LineCount<D>(s: seq<Tok<D>>, text: string): nat {
    if |s| == 0 then 0 else (if s[0] == Line(text) then 1 else 0) + LineCount(s[1..], text)
  }

  lemma {:induction false} LineCountAppend<D>(a: seq<Tok<D>>, b: seq<Tok<D>>, text: string)
    ensures LineCount(a + b, text) == LineCount(a, text) + LineCount(b, text)
  {
    if |a| > 0 {
      assert (a + b)[1..] == a[1..] + b;
      LineCountAppend(a[1..], b, text);
    } else {
      assert a + b == b;
    }
  }

  /** s holds no line token. */
  predicate NoLines<D>(s: seq<Tok<D>>) {
    forall k :: 0 <= k < |s| ==> !s[k].Line?
  }

  lemma NoLinesAppend<D>(a: seq<Tok<D>>, b: seq<Tok<D>>)
    requires NoLines(a) && NoLines(b)
    ensures NoLines(a + b)
  {
    forall k | 0 <= k < |a + b|
      ensures !(a + b)[k].Line?
    {
      if k < |a| {
        assert (a + b)[k] == a[k];
      } else {
        assert (a + b)[k] == b[k - |a|];
      }
    }
  }

  /** A sequence without line tokens counts no line. */
  lemma {:induction false} NoLineCount<D>(s: seq<Tok<D>>, text: string)
    requires NoLines(s)
    ensures LineCount(s, text) == 0
  {
    if |s| > 0 {
      NoLineCount(s[1..], text);
    }
  }

  /** A wait-move request holds the one line "WaitMove". */
  lemma WaitLines<D>(robot: Item, text: string)
    ensures LineCount(WaitMoveRequest<D>(robot), text) == if text == "WaitMove" then 1 else 0
  {
    var w: seq<Tok<D>> := WaitMoveRequest(robot);
    assert w[1..] == EncItem(Some(robot));
    NoLineCount(w[1..], text);
  }

  /** The head of a move request: one "WaitMove", then the command, which is not a wait. */
  lemma HeadLines<D>(robot: Item, cmd: string, m: int, text: string)
    requires cmd != "WaitMove"
    ensures LineCount(WaitMoveRequest<D>(robot) + [Line(cmd), I32(m)], text)
            == (if text == "WaitMove" then 1 else 0) + (if text == cmd then 1 else 0)
  {
    var head: seq<Tok<D>> := [Line(cmd), I32(m)];
    WaitLines<D>(robot, text);
    LineCountAppend(WaitMoveRequest<D>(robot), head, text);
    assert head[1..] == [I32(m)];
    NoLineCount(head[1..], text);
    assert LineCount(head, text) == if text == cmd then 1 else 0;
  }

  /** The tail of a move request holds a "WaitMove" exactly when it is blocking, and no other line. */
  lemma MoveTailLines<D>(t: Option<Target<D>>, robot: Item, blocking: bool, text: string)
    requires t.Some? ==> t.value.Valid()
    ensures LineCount(MoveTail(t, robot, blocking), text)
            == if t.Some? && blocking && text == "WaitMove" then 1 else 0
  {
    if t.Some? {
      var tail := EncTarget(t.value) + EncItem(Some(robot));
      TargetHasNoLines(t.value);
      NoLinesAppend(EncTarget(t.value), EncItem<D>(Some(robot)));
      NoLineCount(tail, text);
      var more: seq<Tok<D>> := if blocking then WaitMoveRequest(robot) else [];
      WaitLines<D>(robot, text);
      LineCountAppend(tail, more, text);
    }
  }

  /**
   * A move waits for the robot once before it is sent and a second time exactly
   * when it is blocking: the request holds one "WaitMove" line, or two when
   * blocking (and a target was given).
   */
  lemma MoveXWaits<D>(t: Option<Target<D>>, robot: Item, movetype: int, blocking: bool)
    requires t.Some? ==> t.value.Valid()
    ensures LineCount(MoveXRequest(t, robot, movetype, blocking), "WaitMove")
            == if t.Some? && blocking then 2 else 1
    ensures LineCount(MoveXRequest(t, robot, movetype, blocking), "MoveX") == 1
  {
    var head: seq<Tok<D>> := WaitMoveRequest<D>(robot) + [Line("MoveX"), I32(movetype)];
    HeadLines<D>(robot, "MoveX", movetype, "WaitMove");
    HeadLines<D>(robot, "MoveX", movetype, "MoveX");
    MoveTailLines(t, robot, blocking, "WaitMove");
    MoveTailLines(t, robot, blocking, "MoveX");
    LineCountAppend(head, MoveTail(t, robot, blocking), "WaitMove");
    LineCountAppend(head, MoveTail(t, robot, blocking), "MoveX");
  }

  /**
   * An arc move waits like a linear one: one "WaitMove" line, and a second one
   * when it is blocking and both targets were given; "MoveC" occurs once.
   */
  lemma MoveCWaits<D>(t1: Option<Target<D>>, t2: Option<Target<D>>, robot: Item, blocking: bool)
    requires t1.Some? ==> t1.value.Valid()
    requires t2.Some? ==> t2.value.Valid()
    ensures LineCount(MoveCRequest(t1, t2, robot, blocking), "WaitMove")
            == if t1.Some? && t2.Some? && blocking then 2 else 1
    ensures LineCount(MoveCRequest(t1, t2, robot, blocking), "MoveC") == 1
  {
    var head: seq<Tok<D>> := WaitMoveRequest<D>(robot) + [Line("MoveC"), I32(3)];
    HeadLines<D>(robot, "MoveC", 3, "WaitMove");
    HeadLines<D>(robot, "MoveC", 3, "MoveC");
    var arc := ArcTail(t1, t2, robot, blocking);
    if t1.Some? {
      TargetHasNoLines(t1.value);
      NoLineCount(EncTarget(t1.value), "WaitMove");
      NoLineCount(EncTarget(t1.value), "MoveC");
      MoveTailLines(t2, robot, blocking, "WaitMove");
      MoveTailLines(t2, robot, blocking, "MoveC");
      LineCountAppend(EncTarget(t1.value), MoveTail(t2, robot, blocking), "WaitMove");
      LineCountAppend(EncTarget(t1.value), MoveTail(t2, robot, blocking), "MoveC");
    }
    LineCountAppend(head, arc, "WaitMove");
    LineCountAppend(head, arc, "MoveC");
  }

  /** An encoded target carries no line. */
  lemma TargetHasNoLines<D>(t: Target<D>)
    requires t.Valid()
    ensures NoLines(EncTarget(t))
  {
    match t
    case ItemTarget(item) =>
      NoLinesAppend<D>([I32(3)], [I32(0)]);
      NoLinesAppend<D>([I32(3), I32(0)], EncItem(Some(item)));
    case JointsTarget(n, vals) =>
      NoLinesAppend<D>([I32(1)], EncArray(vals, n));
      NoLinesAppend<D>([I32(1)] + EncArray(vals, n), EncItem(None));
    case PoseTarget(p) =>
      NoLinesAppend<D>([I32(2)], EncMatArray(Some(p)));
      NoLinesAppend<D>([I32(2)] + EncMatArray(Some(p)), EncItem(None));
  }
}
