/**
  parseCameraData: the decoder of a COLMAP cameras.bin file.

  Layout: a u64 camera count, then per camera an i32 camera id, an i32
  camera-model id, a u64 width, a u64 height and four f64 parameters, 56
  bytes in all, whatever the model.
 */
module CameraDecoder {
  import opened Wrappers
  import opened LittleEndian
  import opened DataView

  datatype CameraRecord = CameraRecord(cameraId: int, modelId: int, width: nat, height: nat, params: seq<F64>)

  /** Every camera record: 4 + 4 + 8 + 8 + 4 * 8 bytes. */
  const CAMERA_BYTES: nat := 56
  /** Bytes before the parameters: camera id, model id, width and height. */
  const CAMERA_HEAD_BYTES: nat := 24
  /** The loop over parameters always runs four times. */
  const NUM_PARAMS: nat := 4

  /** The four parameters stored from at on. */
  function ParamsAt(buf: seq<Byte>, at: nat): (params: seq<F64>)
    requires Fits(buf, at, 8 * NUM_PARAMS)
    ensures |params| == NUM_PARAMS
  {
    seq(NUM_PARAMS, j requires 0 <= j < NUM_PARAMS => F64At(buf, at + 8 * j))
  }

  /** The camera stored at at, which lies inside the buffer. */
  function CameraRecordAt(buf: seq<Byte>, at: nat): CameraRecord
    requires Fits(buf, at, CAMERA_BYTES)
  {
    CameraRecord(I32At(buf, at), I32At(buf, at + 4), U64At(buf, at + 8), U64At(buf, at + 16), ParamsAt(buf, at + CAMERA_HEAD_BYTES))
  }

  /** The camera at at, or RangeError when its 56 bytes leave the buffer. */
  function CameraAt(buf: seq<Byte>, at: nat): Result<CameraRecord, DecodeError> {
    if Fits(buf, at, CAMERA_BYTES) then Success(CameraRecordAt(buf, at)) else Failure(RangeError)
  }

  /**
    The camera loop of parseCameraData: remaining more cameras from at,
    appended to the cameras already read; a failing read fails the whole decode.
   */
  function CamerasFrom(buf: seq<Byte>, at: nat, remaining: nat, cameras: seq<CameraRecord>): Result<seq<CameraRecord>, DecodeError>
    decreases remaining
  {
    if remaining == 0 then Success(cameras)
    else
      match CameraAt(buf, at)
      case Failure(e) => Failure(e)
      case Success(camera) => CamerasFrom(buf, at + CAMERA_BYTES, remaining - 1, cameras + [camera])
  }

  /** The cameras of a whole buffer: the u64 count at offset 0, then that many records. */
  function DecodeCameras(buf: seq<Byte>): Result<seq<CameraRecord>, DecodeError> {
    if !Fits(buf, 0, 8) then Failure(RangeError) else CamerasFrom(buf, 8, U64At(buf, 0), [])
  }

  /** One pass of parseCameraData's camera loop, inner parameter loop included. */
  method ReadCamera(buf: seq<Byte>, offset0: nat) returns (r: Result<CameraRecord, DecodeError>)
    ensures r == CameraAt(buf, offset0)
  {
    var offset := offset0;
    var cameraId :- GetInt32(buf, offset);
    var modelId :- GetInt32(buf, offset + 4);
    var width :- GetBigUint64(buf, offset + 8);
    var height :- GetBigUint64(buf, offset + 16);
    offset := offset + CAMERA_HEAD_BYTES;

    var params: seq<F64> := [];
    for j := 0 to NUM_PARAMS
      invariant offset == offset0 + CAMERA_HEAD_BYTES + 8 * j
      invariant Fits(buf, offset0, CAMERA_HEAD_BYTES + 8 * j)
      invariant |params| == j
      invariant forall m | 0 <= m < j :: params[m] == F64At(buf, offset0 + CAMERA_HEAD_BYTES + 8 * m)
    {
      var param :- GetFloat64(buf, offset);
      params := params + [param];
      offset := offset + 8;
    }
    assert params == ParamsAt(buf, offset0 + CAMERA_HEAD_BYTES);

    r := Success(CameraRecord(cameraId, modelId, width, height, params));
  }

  /** parseCameraData: the count, then one camera per pass of the loop. */
  method ParseCameraData(buf: seq<Byte>) returns (r: Result<seq<CameraRecord>, DecodeError>)
    ensures r == DecodeCameras(buf)
  {
    var offset: nat := 0;
    var numCameras :- GetBigUint64(buf, offset);
    offset := offset + 8;

    var cameras: seq<CameraRecord> := [];
    var i: nat := 0;
    while i < numCameras
      invariant i <= numCameras
      invariant DecodeCameras(buf) == CamerasFrom(buf, offset, numCameras - i, cameras)
    {
      var camera :- ReadCamera(buf, offset);
      cameras := cameras + [camera];
      offset := offset + CAMERA_BYTES;
      i := i + 1;
    }
    r := Success(cameras);
  }

  // ---------------------------------------------------------------------------
  // The cameras a buffer decodes to, in closed form.

  /** The n cameras stored back to back from at on. */
  function CameraTable(buf: seq<Byte>, at: nat, n: nat): (cameras: seq<CameraRecord>)
    requires at + CAMERA_BYTES * n <= |buf|
    ensures |cameras| == n
  {
    seq(n, i requires 0 <= i < n => CameraRecordAt(buf, at + CAMERA_BYTES * i))
  }

  /**
    The camera loop succeeds exactly when all its records lie in the buffer,
    and then appends record i from offset at + 56 * i.
   */
  lemma {:induction false} CamerasFromClosedForm(buf: seq<Byte>, at: nat, n: nat, cameras: seq<CameraRecord>)
    requires at <= |buf|
    ensures CamerasFrom(buf, at, n, cameras)
      == if at + CAMERA_BYTES * n <= |buf| then Success(cameras + CameraTable(buf, at, n)) else Failure(RangeError)
    decreases n
  {
    if n == 0 {
      assert cameras + CameraTable(buf, at, 0) == cameras;
    } else if Fits(buf, at, CAMERA_BYTES) {
      var first := CameraRecordAt(buf, at);
      CamerasFromClosedForm(buf, at + CAMERA_BYTES, n - 1, cameras + [first]);
      if at + CAMERA_BYTES * n <= |buf| {
        CameraTableCons(buf, at, n);
        assert cameras + [first] + CameraTable(buf, at + CAMERA_BYTES, n - 1) == cameras + CameraTable(buf, at, n);
      }
    }
  }

  lemma CameraTableCons(buf: seq<Byte>, at: nat, n: nat)
    requires 0 < n && at + CAMERA_BYTES * n <= |buf|
    ensures CameraTable(buf, at, n) == [CameraRecordAt(buf, at)] + CameraTable(buf, at + CAMERA_BYTES, n - 1)
  {
    var table, rest := CameraTable(buf, at, n), CameraTable(buf, at + CAMERA_BYTES, n - 1);
    forall i | 0 <= i < n - 1
      ensures table[i + 1] == rest[i]
    {
      assert at + CAMERA_BYTES * (i + 1) == at + CAMERA_BYTES + CAMERA_BYTES * i;
    }
  }

  /**
    A cameras.bin buffer decodes exactly when it holds the u64 count and 56
    bytes per announced camera, and camera i is then the record stored at
    offset 8 + 56 * i, with exactly four parameters whatever its model.
   */
  lemma DecodeCamerasMeaning(buf: seq<Byte>)
    ensures DecodeCameras(buf).Success? <==> |buf| >= 8 && 8 + CAMERA_BYTES * U64At(buf, 0) <= |buf|
    ensures DecodeCameras(buf).Success? ==>
      && |DecodeCameras(buf).value| == U64At(buf, 0)
      && (forall i | 0 <= i < U64At(buf, 0) ::
            && DecodeCameras(buf).value[i] == CameraRecordAt(buf, 8 + CAMERA_BYTES * i)
            && |DecodeCameras(buf).value[i].params| == NUM_PARAMS)
  {
    if |buf| >= 8 {
      var n := U64At(buf, 0);
      CamerasFromClosedForm(buf, 8, n, []);
      if 8 + CAMERA_BYTES * n <= |buf| {
        var table := CameraTable(buf, 8, n);
        assert [] + table == table;
        assert DecodeCameras(buf) == Success(table);
        forall i | 0 <= i < n
          ensures table[i] == CameraRecordAt(buf, 8 + CAMERA_BYTES * i)
          ensures |table[i].params| == NUM_PARAMS
        {
        }
      }
    }
  }

  // ---------------------------------------------------------------------------
  // The encoder DecodeCameras inverts.

  /** A camera a cameras.bin file can hold: 32-bit signed ids, 64-bit sizes, four parameters. */
  predicate WellFormed(camera: CameraRecord) {
    && -TWO_31 <= camera.cameraId < TWO_31
    && -TWO_31 <= camera.modelId < TWO_31
    && camera.width < Pow256(8) && camera.height < Pow256(8)
    && |camera.params| == NUM_PARAMS
  }

  function CameraBytes(camera: CameraRecord): (s: seq<Byte>)
    requires WellFormed(camera)
    ensures |s| == CAMERA_BYTES
  {
    I32Bytes(camera.cameraId) + I32Bytes(camera.modelId) + U64Bytes(camera.width) + U64Bytes(camera.height)
    + F64Bytes(camera.params[0]) + F64Bytes(camera.params[1]) + F64Bytes(camera.params[2]) + F64Bytes(camera.params[3])
  }

  /** The camera's bytes: the 24-byte head, then the four parameters. */
  lemma CameraParts(buf: seq<Byte>, at: nat, camera: CameraRecord)
    requires WellFormed(camera) && Fits(buf, at, CAMERA_BYTES) && buf[at..at + CAMERA_BYTES] == CameraBytes(camera)
    ensures buf[at..at + 4] == I32Bytes(camera.cameraId)
    ensures buf[at + 4..at + 8] == I32Bytes(camera.modelId)
    ensures buf[at + 8..at + 16] == U64Bytes(camera.width)
    ensures buf[at + 16..at + 24] == U64Bytes(camera.height)
    ensures forall j | 0 <= j < NUM_PARAMS :: buf[at + 24 + 8 * j..at + 32 + 8 * j] == F64Bytes(camera.params[j])
  {
    var p := camera.params;
    var b1 := I32Bytes(camera.cameraId);
    var b2 := b1 + I32Bytes(camera.modelId);
    var b3 := b2 + U64Bytes(camera.width);
    var b4 := b3 + U64Bytes(camera.height);
    var b5 := b4 + F64Bytes(p[0]);
    var b6 := b5 + F64Bytes(p[1]);
    var b7 := b6 + F64Bytes(p[2]);
    SliceParts(buf, at, b7, F64Bytes(p[3]));
    SliceParts(buf, at, b6, F64Bytes(p[2]));
    SliceParts(buf, at, b5, F64Bytes(p[1]));
    SliceParts(buf, at, b4, F64Bytes(p[0]));
    SliceParts(buf, at, b3, U64Bytes(camera.height));
    SliceParts(buf, at, b2, U64Bytes(camera.width));
    SliceParts(buf, at, b1, I32Bytes(camera.modelId));
  }

  /** The parameters of a camera written at at read back unchanged. */
  lemma ParamsRoundTrip(buf: seq<Byte>, at: nat, camera: CameraRecord)
    requires WellFormed(camera) && Fits(buf, at, CAMERA_BYTES)
    requires forall j | 0 <= j < NUM_PARAMS :: buf[at + 24 + 8 * j..at + 32 + 8 * j] == F64Bytes(camera.params[j])
    ensures ParamsAt(buf, at + CAMERA_HEAD_BYTES) == camera.params
  {
    forall j | 0 <= j < NUM_PARAMS
      ensures F64At(buf, at + 24 + 8 * j) == camera.params[j]
    {
      F64RoundTrip(buf, at + 24 + 8 * j, camera.params[j]);
    }
  }

  /** A camera written at at reads back unchanged. */
  lemma CameraRoundTrip(buf: seq<Byte>, at: nat, camera: CameraRecord)
    requires WellFormed(camera) && Fits(buf, at, CAMERA_BYTES) && buf[at..at + CAMERA_BYTES] == CameraBytes(camera)
    ensures CameraRecordAt(buf, at) == camera
  {
    CameraParts(buf, at, camera);
    I32RoundTrip(buf, at, camera.cameraId);
    I32RoundTrip(buf, at + 4, camera.modelId);
    U64RoundTrip(buf, at + 8, camera.width);
    U64RoundTrip(buf, at + 16, camera.height);
    ParamsRoundTrip(buf, at, camera);
  }

  /** The cameras one after another. */
  function EncodeRecords(cameras: seq<CameraRecord>): (s: seq<Byte>)
    requires forall i | 0 <= i < |cameras| :: WellFormed(cameras[i])
    ensures |s| == CAMERA_BYTES * |cameras|
  {
    if cameras == [] then [] else CameraBytes(cameras[0]) + EncodeRecords(cameras[1..])
  }

  /** A whole cameras.bin file: the count, then the cameras. */
  function EncodeCameras(cameras: seq<CameraRecord>): seq<Byte>
    requires forall i | 0 <= i < |cameras| :: WellFormed(cameras[i])
  {
    U64Bytes(|cameras|) + EncodeRecords(cameras)
  }

  /** Camera i of an encoded run is the 56 bytes at 56 * i. */
  lemma {:induction false} EncodedCameraAt(cameras: seq<CameraRecord>, i: nat)
    requires forall k | 0 <= k < |cameras| :: WellFormed(cameras[k])
    requires i < |cameras|
    ensures EncodeRecords(cameras)[CAMERA_BYTES * i..CAMERA_BYTES * i + CAMERA_BYTES] == CameraBytes(cameras[i])
    decreases i
  {
    var first, rest := CameraBytes(cameras[0]), EncodeRecords(cameras[1..]);
    if i == 0 {
      assert (first + rest)[..CAMERA_BYTES] == first;
    } else {
      EncodedCameraAt(cameras[1..], i - 1);
      assert (first + rest)[CAMERA_BYTES * i..CAMERA_BYTES * i + CAMERA_BYTES]
          == rest[CAMERA_BYTES * (i - 1)..CAMERA_BYTES * (i - 1) + CAMERA_BYTES];
    }
  }

  /** Camera i of an encoded file is read from offset 8 + 56 * i. */
  lemma CameraInFile(cameras: seq<CameraRecord>, trailing: seq<Byte>, i: nat)
    requires forall k | 0 <= k < |cameras| :: WellFormed(cameras[k])
    requires i < |cameras|
    ensures Fits(EncodeCameras(cameras) + trailing, 8 + CAMERA_BYTES * i, CAMERA_BYTES)
    ensures CameraRecordAt(EncodeCameras(cameras) + trailing, 8 + CAMERA_BYTES * i) == cameras[i]
  {
    var buf := EncodeCameras(cameras) + trailing;
    var body := EncodeRecords(cameras);
    assert buf[8..8 + |body|] == body;
    EncodedCameraAt(cameras, i);
    SliceWithin(buf, 8, body, CAMERA_BYTES * i, CAMERA_BYTES * i + CAMERA_BYTES);
    CameraRoundTrip(buf, 8 + CAMERA_BYTES * i, cameras[i]);
  }

  /** The table read from an encoded file is the cameras that were encoded. */
  lemma EncodedTable(cameras: seq<CameraRecord>, trailing: seq<Byte>)
    requires forall i | 0 <= i < |cameras| :: WellFormed(cameras[i])
    ensures 8 + CAMERA_BYTES * |cameras| <= |EncodeCameras(cameras) + trailing|
    ensures CameraTable(EncodeCameras(cameras) + trailing, 8, |cameras|) == cameras
  {
    var buf := EncodeCameras(cameras) + trailing;
    assert |buf| == 8 + CAMERA_BYTES * |cameras| + |trailing|;
    var table := CameraTable(buf, 8, |cameras|);
    forall i | 0 <= i < |cameras|
      ensures table[i] == cameras[i]
    {
      assert table[i] == CameraRecordAt(buf, 8 + CAMERA_BYTES * i);
      CameraInFile(cameras, trailing, i);
    }
  }

  /** Decoding an encoded file gives back its cameras, whatever bytes follow it. */
  lemma DecodeEncodeCameras(cameras: seq<CameraRecord>, trailing: seq<Byte>)
    requires forall i | 0 <= i < |cameras| :: WellFormed(cameras[i])
    requires |cameras| < Pow256(8)
    ensures DecodeCameras(EncodeCameras(cameras) + trailing) == Success(cameras)
  {
    var buf := EncodeCameras(cameras) + trailing;
    assert buf[0..8] == U64Bytes(|cameras|);
    U64RoundTrip(buf, 0, |cameras|);
    CamerasFromClosedForm(buf, 8, |cameras|, []);
    EncodedTable(cameras, trailing);
    assert [] + cameras == cameras;
  }
}
