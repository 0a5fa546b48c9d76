# RoboDK C++ API client: buffer, joints and wire protocol

This project models two parts of the RoboDK C++ client (`robodk_api.cpp`):

- **`tMatrix2D`**, the growable, column-major, two-dimensional buffer of doubles, together with the `tJoints` joint vector.
- **The wire protocol**: how the client talks to the RoboDK station over its socket.

It proves the properties that keep the request stream and the reply stream in step.

The model has five modules:

- **`Wire`** (`wire.dfy`): the channel's alphabet. A socket stream is a sequence of tokens:
  - a text line, `Line`;
  - a 32-bit integer, `I32`;
  - a 64-bit item identifier, `U64`;
  - a double, `Dbl`.

  Doubles have the abstract type `D`, because the modelled code only copies them. The module also has `QByteArray::trimmed`, which is applied to every received line.
- **`Buffer`** (`buffer.dfy`): `tMatrix2D` as the class `Matrix2D` over an `array<D>`.
  - Element (i, j) lives at slot `rows * j + i`.
  - `emxEnsureCapacity` grows the storage by doubling, starting at 16 and capping at INT32_MAX. The elements in use are copied over and the new slots are zero.
  - The two `Matrix2D_Add` overloads append columns. Their effect is stated with the pure functions `Reserve` and `Splice`, and `AppendedCell` says what they mean on the grid.
- **`Values`** (`values.dfy`): the pose `Mat`, the remote handle `Item` (`Item::Valid` is its `Valid` predicate), and `tJoints` as the class `Joints`. `Joints` keeps its fixed 12-entry `Values` array and its count `nDOFs`.
- **`Codec`** (`codec.dfy`): pure encoders and decoders over token streams, with round-trip lemmas:
  - ints, lines, items, counted arrays, poses, points, two-dimensional buffers, status replies and move targets;
  - the exact token sequence of a `_moveX` / `_moveC` request.
- **`Link`** (`link.dfy`): the client's side of the socket, as the class `RoboDK`.
  - **State:** the tokens sent so far (`sent`), the tokens that have arrived but are not yet read (`pending`), and the receive timeout.
  - **Methods:** every `_send_*` / `_recv_*` primitive, `_check_status`, `Item::WaitMove`, `_moveX` and `_moveC` are methods with loops where the source has them. Each one is proved to emit, or to consume, exactly what the matching `Codec` function says.
  - **Socket state:** two flags, as the source tests them.
    - `attached` is `_COM != NULL`. Every `_recv_*` primitive and `_check_status` test only this flag. Without a socket nothing is consumed.
    - `open` is `_COM->isOpen()`. Every `_send_*` primitive tests `attached && open` (`Writable()`). On a link that is not writable, nothing is emitted and the send fails.
    - A socket that is attached but closed therefore sends nothing while its receives still read what has arrived.

"Not enough bytes arrived before the timeout" is modelled as fewer tokens of the expected kind at the head of `pending`.

## Model

All source cells are in `C++/Example/robodk_api.cpp`.

| member | source | states |
|---|---|---|
| Buffer.Matrix2D.Create | C++/Example/robodk_api.cpp:3260-3280 | a fresh buffer of 0 rows and 0 columns with no storage (capacity 0), satisfying the buffer invariant |
| Buffer.GrownCapacity | C++/Example/robodk_api.cpp:3311-3322 | the capacity the doubling loop reaches covers the need, never exceeds INT32_MAX, is not below where it started, and is below twice the need unless it never moved |
| Buffer.Doubled | C++/Example/robodk_api.cpp:3312-3322 | the doubling loop (shift left, jump to INT32_MAX above 2^30) ends at GrownCapacity |
| Buffer.Reserve | C++/Example/robodk_api.cpp:3311-3333 | storage is unchanged when the need fits; otherwise it has the grown capacity (from at least 16), keeps the first oldNumel elements and is zero after them |
| Buffer.Regrow | C++/Example/robodk_api.cpp:3311-3330 | the new block: exactly the storage Reserve prescribes, freshly allocated |
| Buffer.CopyPrefix | C++/Example/robodk_api.cpp:3324-3325 | the memcpy: the first n slots of the new block equal the old ones, the rest are untouched |
| Buffer.Matrix2D.EnsureCapacity | C++/Example/robodk_api.cpp:3300-3334 | the dimensions stay; the storage becomes Reserve of the old storage, keeping max(oldNumel, 0) elements (none when nothing was allocated yet); new storage is allocated exactly when rows * cols exceeds the capacity |
| Buffer.Matrix2D.SetSize | C++/Example/robodk_api.cpp:3336-3347 | the new dimensions are set, the invariant holds, and the storage is Reserve of the old storage keeping the old element count |
| Buffer.Matrix2D.IndexInBuffer | C++/Example/robodk_api.cpp:3349-3368 | every index pair within the sizes Matrix2D_Size reports for dimensions 1 and 2 names a slot among the first rows * cols of a valid buffer, and no two pairs share a slot |
| Buffer.ColumnMajorIndex | C++/Example/robodk_api.cpp:3363-3368 | element (i, j) of a rows x cols grid lies at slot rows * j + i inside the first rows * cols slots, and that slot gives back i (mod rows) and j (div rows) |
| Buffer.ColumnMajorSlot | C++/Example/robodk_api.cpp:3363-3368 | every slot below rows * cols is the slot of exactly one element (k mod rows, k div rows) of the grid |
| Buffer.Matrix2D.SetIJ | C++/Example/robodk_api.cpp:3366-3368 | afterwards GetIJ(i, j) is the value written, and every other slot is unchanged |
| Buffer.Matrix2D.GetCol | C++/Example/robodk_api.cpp:3370-3372 | the storage seen from slot rows * col; its first rows entries are GetIJ(i, col) |
| Buffer.WriteRun | C++/Example/robodk_api.cpp:3383-3385 | the append loop writes vals over the storage from slot at on, and leaves every other slot alone (Splice) |
| Buffer.CopyRun | C++/Example/robodk_api.cpp:3401-3403 | the copy loop writes the first n elements of the source from slot at on, even when the source is the same buffer, as long as the run it reads ends before the run it writes |
| Buffer.Matrix2D.AddColumn | C++/Example/robodk_api.cpp:3375-3386 | the row count stays and the column count grows by one; the storage is the grown storage with the first min(numel, rows) values written right after the old elements; all old elements are kept |
| Buffer.Matrix2D.Concat | C++/Example/robodk_api.cpp:3388-3404 | with different row counts nothing changes; otherwise the columns add up, the old elements are kept and the other buffer's elements follow them in order, also when the other buffer is this one |
| Buffer.AppendedCell | C++/Example/robodk_api.cpp:3375-3404 | after an append, element (i, j) is the old element (i, j) in the old columns, and element (i, j - c1) of the appended run in the new columns: column concatenation |
| Values.Mat.Extensional | C++/Example/robodk_api.cpp:359-363 | the sixteen entries Mat::Get reads make up the whole pose: two poses with the same entries are the same pose |
| Values.Mat.Set | C++/Example/robodk_api.cpp:351-358 | Get(i, j) afterwards is the value written, and every other entry is unchanged |
| Values.Identity | C++/Example/robodk_api.cpp:286-288 | the default pose: one on the diagonal, zero elsewhere |
| Values.Joints.constructor | C++/Example/robodk_api.cpp:172-177 | the count is ndofs clamped from above to RDK_SIZE_JOINTS_MAX, and the values in use are zero |
| Values.Joints.Copy | C++/Example/robodk_api.cpp:178-180 | the copy has the same count and the same values in use |
| Values.Joints.FromColumn | C++/Example/robodk_api.cpp:181-193 | the count is ndofs, or the row count when ndofs is negative, clamped to RDK_SIZE_JOINTS_MAX; the values are the first entries of column `column` |
| Values.Joints.SetValues | C++/Example/robodk_api.cpp:199-206 | the count becomes ndofs unless ndofs is negative (then it stays); the values in use become the first values given; the entries beyond are unchanged |
| Values.Joints.GetValues | C++/Example/robodk_api.cpp:207-212 | returns the count and copies exactly the values in use to out, leaving the rest of out alone |
| Codec.DecInt | C++/Example/robodk_api.cpp:2940-2952 | with a socket attached, an int that has arrived is consumed, exactly one token; with none, -1 comes back and nothing is consumed |
| Codec.IntRoundTrip | C++/Example/robodk_api.cpp:2940-2958 | an int sent with _send_Int is read back by _recv_Int, and the rest of the stream is not consumed |
| Codec.DecLine | C++/Example/robodk_api.cpp:2920-2932 | a received line is trimmed and exactly one token is consumed; without a line, the empty text comes back and the whole receive buffer is dropped (readAll) |
| Codec.LineRoundTrip | C++/Example/robodk_api.cpp:2920-2938 | a line sent with _send_Line is received trimmed, and a line that is already trimmed comes back unchanged |
| Wire.TrimKeepsMiddle | C++/Example/robodk_api.cpp:2929 | trimming removes white space at the two ends only, and leaves a trimmed text as it is |
| Codec.EncItem | C++/Example/robodk_api.cpp:2976-2985 | one identifier token, which is 0 exactly for a null pointer or an invalid item (Item::Valid) |
| Codec.DecItem | C++/Example/robodk_api.cpp:2960-2975 | without an identifier the null item (0, -1) comes back and nothing is consumed; otherwise the identifier is the one that arrived |
| Codec.ItemRoundTrip | C++/Example/robodk_api.cpp:2960-2985 | an identifier followed by a type is received as that item; a null item is received as an invalid one |
| Codec.EncArray | C++/Example/robodk_api.cpp:3103-3115 | the count, then exactly the first n values in order (none when n is not positive) |
| Codec.DecArray | C++/Example/robodk_api.cpp:3079-3102 | a negative count fails and leaves *psize alone; any other count is stored; a count above the ceiling fails with no values read; a count within it succeeds exactly when that many doubles have arrived, and then reads them in order |
| Codec.ArrayRoundTrip | C++/Example/robodk_api.cpp:3079-3115 | an array sent with a count within the ceiling is received whole, consuming nothing after it |
| Codec.ColumnMajor | C++/Example/robodk_api.cpp:3019-3024 | the wire order of a pose: entry k is row k mod 4 of column k div 4 |
| Codec.FromColumnMajor | C++/Example/robodk_api.cpp:3004-3010 | the pose read from wire order: row i, column j is value 4 * j + i |
| Codec.ColumnMajorInverse | C++/Example/robodk_api.cpp:3004-3024 | reading back the wire order gives the pose, and the other way round |
| Codec.DecPose | C++/Example/robodk_api.cpp:2990-3012 | with fewer than 16 doubles, the identity and nothing consumed; otherwise exactly 16 consumed, with entry (i, j) taken from position 4 * j + i |
| Codec.EncPose | C++/Example/robodk_api.cpp:3013-3026 | 16 doubles; position 4 * j + i carries entry (i, j), so the pose goes out column by column |
| Codec.PoseRoundTrip | C++/Example/robodk_api.cpp:2990-3026 | a pose sent with _send_Pose is received exactly, and nothing after it is consumed |
| Codec.EncMatArray | C++/Example/robodk_api.cpp:3067-3078 | a null pose is the count 0 alone; any other pose is 17 tokens starting with the count 16 |
| Codec.MatArrayIsPose | C++/Example/robodk_api.cpp:3067-3078 | a pose sent as an array is 16 followed by the _send_Pose encoding, and _recv_Array reads back its 16 entries in that order |
| Codec.DecXYZ | C++/Example/robodk_api.cpp:3027-3045 | a point comes back exactly when three doubles have arrived, consuming those three; otherwise nothing is consumed |
| Codec.EncXYZ | C++/Example/robodk_api.cpp:3046-3057 | the three coordinates as three doubles, in order |
| Codec.XYZRoundTrip | C++/Example/robodk_api.cpp:3027-3057 | a point sent with _send_XYZ is received exactly, and nothing after it is consumed |
| Codec.MatrixCount | C++/Example/robodk_api.cpp:3158-3163 | the nested loops send rows * cols elements when both are positive, and none otherwise |
| Codec.EncMatrix2D | C++/Example/robodk_api.cpp:3147-3165 | the two dimensions, then MatrixCount elements |
| Codec.DecMatrix2D | C++/Example/robodk_api.cpp:3116-3125 | negative dimensions, or dimensions outside an `int`, fail with an empty buffer; a zero product succeeds with those dimensions and no values; otherwise the outcome of the element loop on the rest of the stream |
| Codec.DecAfterDims | C++/Example/robodk_api.cpp:3119-3146 | after the two dimensions: refused exactly for a negative dimension or one outside an `int`, consuming nothing more; an empty success for a zero product; otherwise the element loop |
| Codec.DecCells | C++/Example/robodk_api.cpp:3126-3145 | success exactly when rows * cols doubles have arrived, read in stream order; otherwise every double that did arrive is consumed and the buffer is discarded |
| Codec.MatrixRoundTrip | C++/Example/robodk_api.cpp:3116-3165 | a buffer sent with _send_Matrix2D is received with the same dimensions and the same rows * cols elements, so element (i, j) comes back at slot rows * j + i |
| Codec.DecStatus | C++/Example/robodk_api.cpp:2796-2822 | the call failed unless the status is 0 or 2; only codes 2 and 3 consume a message line |
| Codec.StatusRoundTrip | C++/Example/robodk_api.cpp:2796-2822 | every status reply is consumed exactly, and fails exactly unless its code is 0 or 2 |
| Codec.SkipStatusesAdd | C++/Example/robodk_api.cpp:3188-3190 | reading a statuses and then b statuses is reading a + b statuses |
| Codec.SelectTargetKind | C++/Example/robodk_api.cpp:3171-3186 | when any target argument is given, the target sent starts with 3 exactly when an item was given, 1 exactly when only joints were, and 2 exactly when only a pose was; only an item target carries a nonzero identifier |
| Codec.EncTarget | C++/Example/robodk_api.cpp:3171-3182 | a discriminator, a count and an identifier at the end; the discriminator is 3, 1 or 2 exactly for an item, joint or pose target; a nonzero identifier means an item target |
| Codec.TargetRoundTrip | C++/Example/robodk_api.cpp:3171-3182 | each encoded target is read back as its discriminator (3 item, 1 joints, 2 pose), its array (empty, the joint values, or the 16 pose entries) and its identifier (0 unless an item); the discriminator gives the variant back; a joint target with a negative count does not read back, since the array receive refuses it |
| Codec.ItemTargetRoundTrip | C++/Example/robodk_api.cpp:3172-3174 | an item target reads back as 3, an empty array and the item's identifier |
| Codec.JointsTargetRoundTrip | C++/Example/robodk_api.cpp:3176-3178 | a joint target reads back as 1, the values in use and identifier 0 |
| Codec.PoseTargetRoundTrip | C++/Example/robodk_api.cpp:3180-3182 | a pose target reads back as 2, the 16 entries in wire order and identifier 0 |
| Codec.WaitMoveRequest | C++/Example/robodk_api.cpp:1300-1313 | the two tokens Item::WaitMove sends: "WaitMove" and the robot's identifier |
| Codec.MoveXRequest | C++/Example/robodk_api.cpp:3167-3192 | after the wait-move request come "MoveX" and the move type; the request ends there exactly when no target is given |
| Codec.MoveTail | C++/Example/robodk_api.cpp:3171-3191 | empty exactly without a target; otherwise the encoded target, then the robot's identifier, then two more tokens (a wait-move request) exactly when blocking |
| Codec.MoveTailLines | C++/Example/robodk_api.cpp:3171-3191 | the end of a move request holds one "WaitMove" line exactly when a target is given and the move blocks, and no other line |
| Codec.MoveXWaits | C++/Example/robodk_api.cpp:3167-3192 | a _moveX request asks for one wait-move, or two exactly when a target is given and the move blocks, and names "MoveX" once |
| Codec.MoveCRequest | C++/Example/robodk_api.cpp:3194-3237 | after the wait-move request come "MoveC" and the move type 3; the request ends there exactly when the first target is missing |
| Codec.ArcTail | C++/Example/robodk_api.cpp:3198-3236 | empty exactly without a first target; otherwise it starts with the first target's encoding, and is only that when the second target is missing |
| Codec.MoveCWaits | C++/Example/robodk_api.cpp:3194-3237 | a _moveC request asks for one wait-move, or two exactly when both targets are given and the move blocks, and names "MoveC" once |
| Link.JointsOverflow | C++/Example/robodk_api.cpp:3058-3060 | with the ceiling of 50, a count of 13 is accepted with 13 values, more than tJoints holds, and a count of 51 is still stored; with the capacity as the ceiling, 13 is refused |
| Link.PoseColumns | C++/Example/robodk_api.cpp:3071-3076 | m44[c * 4 + r] is entry (r, c): the pose in wire order |
| Link.RoboDK.SendLine | C++/Example/robodk_api.cpp:2933-2938 | on a writable link, emits the line and succeeds; on a link that is not writable, emits nothing and fails |
| Link.RoboDK.RecvLine | C++/Example/robodk_api.cpp:2920-2932 | consumes as DecLine says with a socket attached; an empty text and nothing consumed without a socket |
| Link.RoboDK.SendInt | C++/Example/robodk_api.cpp:2953-2958 | on a writable link, emits the int and succeeds; on a link that is not writable, emits nothing and fails |
| Link.RoboDK.RecvInt | C++/Example/robodk_api.cpp:2940-2952 | reads as DecInt with a socket attached; 0 (its `return false`) and nothing consumed without a socket |
| Link.RoboDK.SendItem | C++/Example/robodk_api.cpp:2976-2985 | emits EncItem of the item, or nothing on a link that is not writable |
| Link.RoboDK.RecvItem | C++/Example/robodk_api.cpp:2960-2975 | reads as DecItem with a socket attached; the null item without a socket |
| Link.RoboDK.SendPose | C++/Example/robodk_api.cpp:3013-3026 | the nested loops (j outer, i inner) emit exactly EncPose of the pose |
| Link.RoboDK.RecvPose | C++/Example/robodk_api.cpp:2990-3012 | the nested loops of Set calls build exactly the pose DecPose gives, and consume what it consumes; the identity without a socket |
| Link.RoboDK.SendXYZ | C++/Example/robodk_api.cpp:3046-3057 | emits the three coordinates in order |
| Link.RoboDK.RecvXYZ | C++/Example/robodk_api.cpp:3027-3045 | fills the point and succeeds exactly when DecXYZ delivers; otherwise the point is untouched |
| Link.RoboDK.SendArray | C++/Example/robodk_api.cpp:3103-3115 | emits exactly EncArray of the values and the count |
| Link.RoboDK.SendJoints | C++/Example/robodk_api.cpp:3061-3066 | a null pointer emits only the count 0; otherwise the count and the values in use |
| Link.RoboDK.SendMatArray | C++/Example/robodk_api.cpp:3067-3078 | a null pose emits only the count 0; otherwise 16 and the entries in wire order |
| Link.RoboDK.RecvArray | C++/Example/robodk_api.cpp:3079-3102 | demands room in values only for a count within the ceiling whose doubles have all arrived; success, the value stored in *psize, the consumed tokens and the values written are those of DecArray with the ceiling of 50; the slots beyond are untouched |
| Link.RoboDK.RecvJoints | C++/Example/robodk_api.cpp:3058-3060 | the corrected joint receive: DecArray with the capacity as the ceiling; a count above the capacity leaves nDOFs alone, so the joint vector stays valid; on success the values in use are the ones received |
| Link.RoboDK.SendMatrix2D | C++/Example/robodk_api.cpp:3147-3165 | emits exactly EncMatrix2D of the buffer's dimensions and storage |
| Link.RoboDK.SendCells | C++/Example/robodk_api.cpp:3157-3163 | the nested loops (j outer, i inner) emit the first rows * cols stored elements in storage order |
| Link.RoboDK.SendColumn | C++/Example/robodk_api.cpp:3159-3162 | the inner loop emits column j: slots rows * j up to rows * (j + 1) |
| Link.RoboDK.RecvMatrix2D | C++/Example/robodk_api.cpp:3116-3146 | the three outcomes of DecMatrix2D, on a fresh buffer: an empty buffer and failure, a filled buffer of the received dimensions and success, or no buffer (null) and failure; a 0 x 0 buffer and success without a socket |
| Link.RoboDK.RecvCells | C++/Example/robodk_api.cpp:3119-3146 | a fresh buffer and the three outcomes of DecAfterDims on what follows the dimensions |
| Link.RoboDK.ReadCells | C++/Example/robodk_api.cpp:3126-3145 | the element loop reads the doubles in the order they arrive into slots 0 onwards, and ends as DecCells says |
| Link.RoboDK.ReadRun | C++/Example/robodk_api.cpp:3137-3143 | the inner loop stores the doubles that arrived at consecutive slots from the current count, consumes exactly them, and leaves the earlier slots alone |
| Link.RoboDK.CheckStatus | C++/Example/robodk_api.cpp:2796-2822 | the result and the consumed tokens are those of DecStatus; no failure and nothing consumed without a socket |
| Link.RoboDK.WaitMove | C++/Example/robodk_api.cpp:1300-1313 | emits "WaitMove" and the robot, reads two statuses, and leaves the timeout at ROBODK_API_TIMEOUT |
| Link.RoboDK.SendItemTarget | C++/Example/robodk_api.cpp:3172-3174 | emits 3, an empty joint array and the item |
| Link.RoboDK.SendJointsTarget | C++/Example/robodk_api.cpp:3176-3178 | emits 1, the joints and a null item |
| Link.RoboDK.SendPoseTarget | C++/Example/robodk_api.cpp:3180-3182 | emits 2, the pose as an array and a null item |
| Link.RoboDK.SendTarget | C++/Example/robodk_api.cpp:3171-3186 | sends the target SelectTarget picks, or nothing when all three are missing |
| Link.RoboDK.StartMove | C++/Example/robodk_api.cpp:3168-3170 | a wait-move exchange, then the command line and the move type |
| Link.RoboDK.SendTail | C++/Example/robodk_api.cpp:3171-3191 | with a target: the target, the robot, one status, and a wait-move exactly when blocking; without one, nothing |
| Link.RoboDK.SendArc | C++/Example/robodk_api.cpp:3198-3236 | the first target as SendTarget sends it, then, only when it exists, the second target with the robot, the status and the wait as SendTail sends them |
| Link.RoboDK.MoveX | C++/Example/robodk_api.cpp:3167-3192 | emits exactly MoveXRequest of the selected target and reads 2, 3 or 5 statuses; it throws exactly when no target is given, after "MoveX" and the move type |
| Link.RoboDK.MoveC | C++/Example/robodk_api.cpp:3194-3237 | emits exactly MoveCRequest of the two selected targets with move type 3; it throws after the first missing target |

## Left out

- Socket and process plumbing is not modelled: connecting, `_check_connection` (called first by `Item::WaitMove`), `_waitline`, `waitForReadyRead` and the timeout's effect on waiting. A receive that would time out is one whose tokens are not in `pending`. The timeout value itself is kept as state only.
- The QDataStream byte layout (big-endian, 4-byte ints, 8-byte ids and doubles) is hidden behind tokens. A token of another kind at the head of the stream counts as "not arrived", while the source would reinterpret its bytes. A read that stops partway through a double in `_recv_Matrix2D` is not modelled.
- A line sent with an embedded newline would arrive as two lines; a `Line` token carries the whole text. UTF-8 conversion is not modelled: strings are sequences of characters.
- Doubles are abstract. The float storage inside QMatrix4x4, which loses precision in `Mat::Set`, is not modelled. `Item::WaitMove` takes its timeout in seconds and multiplies by 1000; `Link.RoboDK.WaitMove` takes the milliseconds directly.
- `I32` tokens carry unbounded integers. The `(qint32)` cast of `_send_Array`'s count is not modelled.
- Link.RoboDK.RecvMatrix2D: dimensions whose product does not fit an `int` are treated like negative dimensions (failure, empty buffer). The source multiplies with undefined overflow there.
- Buffer.Matrix2D.SetSize, Buffer.Matrix2D.AddColumn and Buffer.Matrix2D.Concat require the new sizes and their product to fit an `int`. The source would overflow.
- Definitions in `robodk_api.h` are not part of this model. The model assumes:
  - RDK_SIZE_JOINTS_MAX = 12;
  - the `Item` fields a fresh `Item(this)` starts with: identifier 0, type -1;
  - the default argument of `Item::WaitMove`, which becomes the `waitMs` parameter of `MoveX` and `MoveC`.
- Values.Joints.Copy requires a copy count of at least 0. With a negative count the source leaves `nDOFs` uninitialised.
- Values.Joints.constructor: the entries beyond the count are uninitialised in the source. The model fills them with zero, and states nothing about them.
- `Matrix2D_Delete` and the malloc/free lifetimes are not modelled. Storage is Dafny arrays, and a discarded buffer is a `null` result.
- `_recv_Array(double*, int*)` with a null `psize` is not modelled separately. The value it would store comes back as `size`.
- `qDebug` logging and the status message texts are left out. A status message line is consumed and dropped.
- `throw 0` in `_moveX` / `_moveC` becomes the `threw` result. Send failures inside a move are ignored as in the source. On a link that is not writable every send emits nothing.
- `Matrix2D_Get_ij` is the function `Buffer.Matrix2D.GetIJ`, `Matrix2D_Size` is `Buffer.Matrix2D.Size`, `Mat::Get` is `Values.Mat.Get`, `Item::Valid` is the predicate `Values.Item.Valid`, and the target choice of `_moveX` is `Codec.SelectTarget`. Each is a definition by a single expression, so its own contract only restates it. Their properties are stated through `SetIJ`, `GetCol`, `ColumnMajorIndex`, `IndexInBuffer`, `Mat.Extensional`, `EncItem` and `SelectTargetKind`.
- Values.Joints.SetValues requires ndofs to be at most RDK_SIZE_JOINTS_MAX. The source copies ndofs values without clamping, so a larger count writes past the 12-entry array.
- Buffer.Matrix2D.AddColumn requires a non-negative column count whenever values are written. With a negative count the source writes at a negative offset.
- Buffer.Matrix2D.Concat requires a non-negative product rows * cols whenever elements are copied. With a negative product the source writes at a negative offset.
- A socket that is attached but closed is modelled by the two flags alone. Its receives read from `pending`, which stands for the device's buffer; how Qt reads from a closed device is not modelled.

## Findings

| source | as written | input that shows it | evidently intended | confidence | as-written member | corrected member |
|---|---|---|---|---|---|---|
| C++/Example/robodk_api.cpp:3058-3060 | `_recv_Array(tJoints*)` hands the joint vector's `Values` array and `nDOFs` to `_recv_Array`, whose ceiling is 50. Up to 50 values are written into an array of RDK_SIZE_JOINTS_MAX entries, and any non-negative count is stored in `nDOFs`. | the count 13 followed by 13 doubles (or the count 51) | refuse counts above the joint vector's capacity and keep `nDOFs` within it | medium, not executed; the capacity 12 comes from `robodk_api.h`, which is not part of this model | Link.JointsOverflow | Link.RoboDK.RecvJoints |
