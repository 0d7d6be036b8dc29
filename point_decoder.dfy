/**
  parseCOLMAP: the decoder of a COLMAP points3D.bin file, up to the two flat
  arrays it hands to the point-cloud geometry.

  Layout: a u64 point count, then per point a u64 point id, the position
  (three f64), the colour (three u8: r, g, b), the reprojection error (f64),
  a u64 track length and 8 bytes per track entry, which are skipped.
 */
module PointDecoder {
  import opened Wrappers
  import opened LittleEndian
  import opened DataView

  datatype PointRecord = PointRecord(id: nat, x: F64, y: F64, z: F64, r: Byte, g: Byte, b: Byte, error: F64, trackLength: nat)

  /** id, position, colour, error and track length: 8 + 3 * 8 + 3 + 8 + 8 bytes. */
  const POINT_FIXED_BYTES: nat := 51
  /** Each skipped track entry: a u32 image id and a u32 2D-point index. */
  const TRACK_ENTRY_BYTES: nat := 8

  /**
    The point record at at and the offset where the next record starts, or
    RangeError when its fixed fields leave the buffer. The track itself is
    not required to be in the buffer.
   */
  function PointAt(buf: seq<Byte>, at: nat): Result<(PointRecord, nat), DecodeError> {
    if !Fits(buf, at, POINT_FIXED_BYTES) then Failure(RangeError)
    else
      var point := PointRecord(
        U64At(buf, at),
        F64At(buf, at + 8), F64At(buf, at + 16), F64At(buf, at + 24),
        buf[at + 32], buf[at + 33], buf[at + 34],
        F64At(buf, at + 35),
        U64At(buf, at + 43));
      Success((point, at + POINT_FIXED_BYTES + TRACK_ENTRY_BYTES * point.trackLength))
  }

  /**
    The point loop of parseCOLMAP: remaining more points from at, appended to
    the points already read; a failing point fails the whole decode.
   */
  function PointsFrom(buf: seq<Byte>, at: nat, remaining: nat, points: seq<PointRecord>): Result<seq<PointRecord>, DecodeError>
    decreases remaining
  {
    if remaining == 0 then Success(points)
    else
      match PointAt(buf, at)
      case Failure(e) => Failure(e)
      case Success((point, next)) => PointsFrom(buf, next, remaining - 1, points + [point])
  }

  lemma PointsFromStep(buf: seq<Byte>, at: nat, remaining: nat, points: seq<PointRecord>, point: PointRecord, next: nat)
    requires remaining > 0 && PointAt(buf, at) == Success((point, next))
    ensures PointsFrom(buf, at, remaining, points) == PointsFrom(buf, next, remaining - 1, points + [point])
  {
  }

  /** The points of a whole buffer: the u64 count at offset 0, then that many records. */
  function DecodePoints(buf: seq<Byte>): Result<seq<PointRecord>, DecodeError> {
    if !Fits(buf, 0, 8) then Failure(RangeError) else PointsFrom(buf, 8, U64At(buf, 0), [])
  }

  // ---------------------------------------------------------------------------
  // The two arrays parseCOLMAP fills.

  function Position(point: PointRecord): seq<F64> {
    [point.x, point.y, point.z]
  }

  /** The positions of the points, three values per point, in point order. */
  function Positions(points: seq<PointRecord>): (flat: seq<F64>)
    ensures |flat| == 3 * |points|
  {
    if points == [] then [] else Positions(points[..|points| - 1]) + Position(points[|points| - 1])
  }

  /**
    The colour values of one point: colour stands for enhanceColor followed
    by the division of each channel by 255.
   */
  function Colour<C>(colour: (Byte, Byte, Byte) -> (C, C, C), point: PointRecord): seq<C> {
    var c := colour(point.r, point.g, point.b);
    [c.0, c.1, c.2]
  }

  /** The colour values of the points, three per point, in point order. */
  function Colours<C>(colour: (Byte, Byte, Byte) -> (C, C, C), points: seq<PointRecord>): (flat: seq<C>)
    ensures |flat| == 3 * |points|
  {
    if points == [] then [] else Colours(colour, points[..|points| - 1]) + Colour(colour, points[|points| - 1])
  }

  /** What parseCOLMAP puts into the geometry: the position array and the colour array. */
  function DecodeCloud<C>(buf: seq<Byte>, colour: (Byte, Byte, Byte) -> (C, C, C)): Result<(seq<F64>, seq<C>), DecodeError> {
    match DecodePoints(buf)
    case Failure(e) => Failure(e)
    case Success(points) => Success((Positions(points), Colours(colour, points)))
  }

  /** One pass of parseCOLMAP's point loop: the point at offset and the next offset. */
  method ReadPoint(buf: seq<Byte>, offset0: nat) returns (r: Result<(PointRecord, nat), DecodeError>)
    ensures r == PointAt(buf, offset0)
  {
    var offset := offset0;
    var point3DId :- GetBigUint64(buf, offset);
    var x :- GetFloat64(buf, offset + 8);
    var y :- GetFloat64(buf, offset + 16);
    var z :- GetFloat64(buf, offset + 24);
    offset := offset + 32;

    var red :- GetUint8(buf, offset);
    var green :- GetUint8(buf, offset + 1);
    var blue :- GetUint8(buf, offset + 2);
    offset := offset + 3;

    var error :- GetFloat64(buf, offset);
    offset := offset + 8;

    var trackLength :- GetBigUint64(buf, offset);
    offset := offset + 8;
    offset := offset + trackLength * TRACK_ENTRY_BYTES;

    r := Success((PointRecord(point3DId, x, y, z, red, green, blue, error, trackLength), offset));
  }

  /**
    parseCOLMAP up to the geometry: the count, then per point three position
    values and three colour values pushed onto the two arrays.
   */
  method ParseCOLMAP<C>(buf: seq<Byte>, colour: (Byte, Byte, Byte) -> (C, C, C)) returns (r: Result<(seq<F64>, seq<C>), DecodeError>)
    ensures r == DecodeCloud(buf, colour)
  {
    var numPoints :- GetBigUint64(buf, 0);
    var offset: nat := 8;

    var points: seq<F64> := [];
    var colors: seq<C> := [];
    ghost var records: seq<PointRecord> := [];
    var i: nat := 0;
    while i < numPoints
      invariant i <= numPoints && |records| == i
      invariant DecodePoints(buf) == PointsFrom(buf, offset, numPoints - i, records)
      invariant points == Positions(records) && colors == Colours(colour, records)
    {
      var parsed :- ReadPoint(buf, offset);
      var point := parsed.0;
      PointsFromStep(buf, offset, numPoints - i, records, point, parsed.1);
      var c := colour(point.r, point.g, point.b);
      points := points + [point.x, point.y, point.z];
      colors := colors + [c.0, c.1, c.2];
      records := records + [point];
      assert records[..|records| - 1] == records[..i];
      offset := parsed.1;
      i := i + 1;
    }
    r := Success((points, colors));
  }

  // ---------------------------------------------------------------------------
  // What the arrays hold.

  /** Position triple i is point i's (x, y, z), and colour triple i is point i's colour. */
  lemma {:induction false} TripleAt<C>(colour: (Byte, Byte, Byte) -> (C, C, C), points: seq<PointRecord>, i: nat)
    requires i < |points|
    ensures Positions(points)[3 * i..3 * i + 3] == Position(points[i])
    ensures Colours(colour, points)[3 * i..3 * i + 3] == Colour(colour, points[i])
    decreases |points|
  {
    var init := points[..|points| - 1];
    if i < |points| - 1 {
      TripleAt(colour, init, i);
      assert init[i] == points[i];
      assert Positions(points)[3 * i..3 * i + 3] == Positions(init)[3 * i..3 * i + 3];
      assert Colours(colour, points)[3 * i..3 * i + 3] == Colours(colour, init)[3 * i..3 * i + 3];
    } else {
      assert Positions(points)[3 * i..3 * i + 3] == Position(points[i]);
      assert Colours(colour, points)[3 * i..3 * i + 3] == Colour(colour, points[i]);
    }
  }

  /**
    The arrays see only the position and the colour of each point: points
    that differ only in their ids, errors and track lengths give the same arrays.
   */
  lemma {:induction false} CloudIgnoresRest<C>(colour: (Byte, Byte, Byte) -> (C, C, C), points: seq<PointRecord>, others: seq<PointRecord>)
    requires |points| == |others|
    requires forall i | 0 <= i < |points| ::
      && Position(points[i]) == Position(others[i])
      && (points[i].r, points[i].g, points[i].b) == (others[i].r, others[i].g, others[i].b)
    ensures Positions(points) == Positions(others)
    ensures Colours(colour, points) == Colours(colour, others)
    decreases |points|
  {
    if points != [] {
      var n := |points| - 1;
      assert forall i | 0 <= i < n :: points[..n][i] == points[i] && others[..n][i] == others[i];
      CloudIgnoresRest(colour, points[..n], others[..n]);
      assert Position(points[n]) == Position(others[n]);
      assert Colour(colour, points[n]) == Colour(colour, others[n]);
    }
  }

  /** The loop adds one point per pass: a successful decode holds as many points as it was asked for. */
  lemma {:induction false} PointsFromCount(buf: seq<Byte>, at: nat, remaining: nat, points: seq<PointRecord>)
    requires PointsFrom(buf, at, remaining, points).Success?
    ensures |PointsFrom(buf, at, remaining, points).value| == |points| + remaining
    decreases remaining
  {
    if remaining > 0 {
      var (point, next) := PointAt(buf, at).value;
      PointsFromCount(buf, next, remaining - 1, points + [point]);
    }
  }

  /** Both arrays of a decoded file hold three values per point its u64 header announces. */
  lemma CloudSizes<C>(buf: seq<Byte>, colour: (Byte, Byte, Byte) -> (C, C, C))
    requires DecodeCloud(buf, colour).Success?
    ensures |buf| >= 8
    ensures |DecodeCloud(buf, colour).value.0| == 3 * U64At(buf, 0)
    ensures |DecodeCloud(buf, colour).value.1| == 3 * U64At(buf, 0)
  {
    PointsFromCount(buf, 8, U64At(buf, 0), []);
  }

  // ---------------------------------------------------------------------------
  // The encoder DecodePoints inverts.

  /** A point a points3D.bin file can hold: its ids and track length fit in 64 bits. */
  predicate WellFormed(point: PointRecord) {
    point.id < Pow256(8) && point.trackLength < Pow256(8)
  }

  /** The 51 fixed bytes of a point, up to and including its track length. */
  function PointHeader(point: PointRecord): (s: seq<Byte>)
    ensures |s| == POINT_FIXED_BYTES
  {
    U64Bytes(point.id)
    + F64Bytes(point.x) + F64Bytes(point.y) + F64Bytes(point.z)
    + [point.r, point.g, point.b]
    + F64Bytes(point.error)
    + U64Bytes(point.trackLength)
  }

  /** The header of point lies in buf at at. */
  predicate HeaderAt(buf: seq<Byte>, at: nat, point: PointRecord) {
    WellFormed(point) && Fits(buf, at, POINT_FIXED_BYTES) && buf[at..at + POINT_FIXED_BYTES] == PointHeader(point)
  }

  lemma HeaderFields(buf: seq<Byte>, at: nat, point: PointRecord)
    requires HeaderAt(buf, at, point)
    ensures U64At(buf, at) == point.id
    ensures F64At(buf, at + 8) == point.x && F64At(buf, at + 16) == point.y && F64At(buf, at + 24) == point.z
    ensures buf[at + 32] == point.r && buf[at + 33] == point.g && buf[at + 34] == point.b
    ensures F64At(buf, at + 35) == point.error
    ensures U64At(buf, at + 43) == point.trackLength
  {
    var b1 := U64Bytes(point.id);
    var b2 := b1 + F64Bytes(point.x);
    var b3 := b2 + F64Bytes(point.y);
    var b4 := b3 + F64Bytes(point.z);
    var b5 := b4 + [point.r, point.g, point.b];
    var b6 := b5 + F64Bytes(point.error);
    SliceParts(buf, at, b6, U64Bytes(point.trackLength));
    SliceParts(buf, at, b5, F64Bytes(point.error));
    SliceParts(buf, at, b4, [point.r, point.g, point.b]);
    SliceParts(buf, at, b3, F64Bytes(point.z));
    SliceParts(buf, at, b2, F64Bytes(point.y));
    SliceParts(buf, at, b1, F64Bytes(point.x));
    U64RoundTrip(buf, at, point.id);
    F64RoundTrip(buf, at + 8, point.x);
    F64RoundTrip(buf, at + 16, point.y);
    F64RoundTrip(buf, at + 24, point.z);
    assert buf[at + 32..at + 35][0] == point.r;
    assert buf[at + 32..at + 35][1] == point.g;
    assert buf[at + 32..at + 35][2] == point.b;
    F64RoundTrip(buf, at + 35, point.error);
    U64RoundTrip(buf, at + 43, point.trackLength);
  }

  /**
    A point written at at decodes to itself, and the next point is taken to
    start 8 bytes per track entry after its header: none of the track bytes
    is read, nor even required to be in the buffer.
   */
  lemma PointRoundTrip(buf: seq<Byte>, at: nat, point: PointRecord)
    requires HeaderAt(buf, at, point)
    ensures PointAt(buf, at) == Success((point, at + POINT_FIXED_BYTES + TRACK_ENTRY_BYTES * point.trackLength))
  {
    HeaderFields(buf, at, point);
  }

  predicate Encodable(points: seq<PointRecord>, tracks: seq<seq<Byte>>) {
    && |points| == |tracks|
    && (forall i | 0 <= i < |points| :: WellFormed(points[i]) && |tracks[i]| == TRACK_ENTRY_BYTES * points[i].trackLength)
  }

  lemma EncodableTail(points: seq<PointRecord>, tracks: seq<seq<Byte>>)
    requires Encodable(points, tracks) && points != []
    ensures Encodable(points[1..], tracks[1..])
  {
    assert forall i | 0 <= i < |points| - 1 :: points[1..][i] == points[i + 1] && tracks[1..][i] == tracks[i + 1];
  }

  /** The points one after another, each followed by its track. */
  function EncodeRecords(points: seq<PointRecord>, tracks: seq<seq<Byte>>): seq<Byte>
    requires Encodable(points, tracks)
  {
    if points == [] then [] else
      EncodableTail(points, tracks);
      PointHeader(points[0]) + tracks[0] + EncodeRecords(points[1..], tracks[1..])
  }

  /** A whole points3D.bin file: the count, then the points. */
  function EncodePoints(points: seq<PointRecord>, tracks: seq<seq<Byte>>): seq<Byte>
    requires Encodable(points, tracks)
  {
    U64Bytes(|points|) + EncodeRecords(points, tracks)
  }

  /** Point k's header lies at offsets[k], and point k + 1 starts after its track. */
  predicate LaidOut(buf: seq<Byte>, offsets: seq<nat>, points: seq<PointRecord>, k: nat)
    requires k < |points| && |offsets| == |points| + 1
  {
    && HeaderAt(buf, offsets[k], points[k])
    && offsets[k + 1] == offsets[k] + POINT_FIXED_BYTES + TRACK_ENTRY_BYTES * points[k].trackLength
  }

  /** Point k decodes at offsets[k] and ends at offsets[k + 1]. */
  predicate DecodesAt(buf: seq<Byte>, offsets: seq<nat>, points: seq<PointRecord>, k: nat)
    requires k < |points| && |offsets| == |points| + 1
  {
    PointAt(buf, offsets[k]) == Success((points[k], offsets[k + 1]))
  }

  /** An encoded run starts with the first point's header, and the rest of the run follows its track. */
  lemma FirstPointLayout(buf: seq<Byte>, at: nat, points: seq<PointRecord>, tracks: seq<seq<Byte>>) returns (next: nat)
    requires Encodable(points, tracks) && points != []
    requires at + |EncodeRecords(points, tracks)| <= |buf|
    requires buf[at..at + |EncodeRecords(points, tracks)|] == EncodeRecords(points, tracks)
    ensures Encodable(points[1..], tracks[1..])
    ensures LaidOut(buf, [at, next], points[..1], 0)
    ensures next + |EncodeRecords(points[1..], tracks[1..])| <= |buf|
    ensures buf[next..next + |EncodeRecords(points[1..], tracks[1..])|] == EncodeRecords(points[1..], tracks[1..])
  {
    EncodableTail(points, tracks);
    var header := PointHeader(points[0]);
    var rest := EncodeRecords(points[1..], tracks[1..]);
    SliceParts(buf, at, header + tracks[0], rest);
    SliceParts(buf, at, header, tracks[0]);
    next := at + |header| + |tracks[0]|;
  }

  lemma LaidOutShift(buf: seq<Byte>, at: nat, tail: seq<nat>, points: seq<PointRecord>, k: nat)
    requires 0 < k < |points| && |tail| == |points|
    requires LaidOut(buf, tail, points[1..], k - 1)
    ensures LaidOut(buf, [at] + tail, points, k)
  {
    assert ([at] + tail)[k] == tail[k - 1] && ([at] + tail)[k + 1] == tail[k];
    assert points[k] == points[1..][k - 1];
  }

  /** Where each point of an encoded run starts: its header is there, and the next starts after its track. */
  lemma {:induction false} PointOffsets(buf: seq<Byte>, at: nat, points: seq<PointRecord>, tracks: seq<seq<Byte>>) returns (offsets: seq<nat>)
    requires Encodable(points, tracks)
    requires at + |EncodeRecords(points, tracks)| <= |buf|
    requires buf[at..at + |EncodeRecords(points, tracks)|] == EncodeRecords(points, tracks)
    ensures |offsets| == |points| + 1 && offsets[0] == at
    ensures forall k | 0 <= k < |points| :: LaidOut(buf, offsets, points, k)
    decreases |points|
  {
    if points == [] {
      offsets := [at];
    } else {
      var next := FirstPointLayout(buf, at, points, tracks);
      var tail := PointOffsets(buf, next, points[1..], tracks[1..]);
      offsets := [at] + tail;
      forall k | 0 <= k < |points|
        ensures LaidOut(buf, offsets, points, k)
      {
        if k > 0 {
          LaidOutShift(buf, at, tail, points, k);
        }
      }
    }
  }

  lemma DecodeOne(buf: seq<Byte>, offsets: seq<nat>, points: seq<PointRecord>, k: nat)
    requires k < |points| && |offsets| == |points| + 1
    requires LaidOut(buf, offsets, points, k)
    ensures DecodesAt(buf, offsets, points, k)
  {
    PointRoundTrip(buf, offsets[k], points[k]);
  }

  /** Points that decode one after the other are what the point loop returns. */
  lemma {:induction false} PointsFromChain(buf: seq<Byte>, offsets: seq<nat>, points: seq<PointRecord>, done: seq<PointRecord>)
    requires |offsets| == |points| + 1
    requires forall k | 0 <= k < |points| :: DecodesAt(buf, offsets, points, k)
    ensures PointsFrom(buf, offsets[0], |points|, done) == Success(done + points)
    decreases |points|
  {
    if points == [] {
      assert done + points == done;
    } else {
      assert DecodesAt(buf, offsets, points, 0);
      PointsFromStep(buf, offsets[0], |points|, done, points[0], offsets[1]);
      forall k | 0 <= k < |points| - 1
        ensures DecodesAt(buf, offsets[1..], points[1..], k)
      {
        assert DecodesAt(buf, offsets, points, k + 1);
      }
      PointsFromChain(buf, offsets[1..], points[1..], done + [points[0]]);
      assert done + [points[0]] + points[1..] == done + points;
    }
  }

  lemma DecodeChain(buf: seq<Byte>, offsets: seq<nat>, points: seq<PointRecord>)
    requires |offsets| == |points| + 1 && offsets[0] == 8
    requires forall k | 0 <= k < |points| :: LaidOut(buf, offsets, points, k)
    requires Fits(buf, 0, 8) && U64At(buf, 0) == |points|
    ensures DecodePoints(buf) == Success(points)
  {
    forall k | 0 <= k < |points|
      ensures DecodesAt(buf, offsets, points, k)
    {
      DecodeOne(buf, offsets, points, k);
    }
    PointsFromChain(buf, offsets, points, []);
    assert [] + points == points;
  }

  /** Decoding an encoded file gives back its points, whatever bytes follow it. */
  lemma DecodeEncodePoints(points: seq<PointRecord>, tracks: seq<seq<Byte>>, trailing: seq<Byte>)
    requires Encodable(points, tracks) && |points| < Pow256(8)
    ensures DecodePoints(EncodePoints(points, tracks) + trailing) == Success(points)
  {
    var buf := EncodePoints(points, tracks) + trailing;
    var body := EncodeRecords(points, tracks);
    assert buf[0..8 + |body|] == U64Bytes(|points|) + body;
    SliceParts(buf, 0, U64Bytes(|points|), body);
    U64RoundTrip(buf, 0, |points|);
    var offsets := PointOffsets(buf, 8, points, tracks);
    DecodeChain(buf, offsets, points);
  }
}
