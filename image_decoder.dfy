/**
  parseImageData: the decoder of a COLMAP images.bin file.

  Layout: a u64 image count, then per image a u32 image id, the quaternion
  qvec (four f64, stored w, x, y, z), the translation tvec (three f64), a u32
  camera id, the image name as bytes ended by a 0 byte, a u64 count of 2D
  points and 24 bytes per 2D point, which are skipped.
 */
module ImageDecoder {
  import opened Wrappers
  import opened LittleEndian
  import opened DataView

  datatype ImageRecord = ImageRecord(id: nat, qvec: seq<F64>, tvec: seq<F64>, cameraId: nat, name: string)

  /** id, qvec, tvec and camera id: 4 + 4 * 8 + 3 * 8 + 4 bytes. */
  const FIXED_BYTES: nat := 64
  /** Each skipped 2D point: two f64 coordinates and an 8-byte point id. */
  const POINT2D_BYTES: nat := 24

  /** String.fromCharCode of one byte. */
  function ByteChar(b: Byte): char {
    (b as int) as char
  }

  /**
    The name field starting at at: the characters of the bytes before the first
    0 byte (or before the end of the buffer), paired with the offset just after
    that 0 byte (or the end of the buffer).
   */
  function ScanName(buf: seq<Byte>, at: nat): (string, nat)
    decreases |buf| - at
  {
    if at >= |buf| then ([], at)
    else if buf[at] == 0 then ([], at + 1)
    else
      var (name, next) := ScanName(buf, at + 1);
      ([ByteChar(buf[at])] + name, next)
  }

  /**
    The image record at at and the offset where the next record starts, or
    RangeError when the fixed block or the 2D-point count leaves the buffer.
    The skipped 2D points themselves are not required to be in the buffer.
   */
  function ImageAt(buf: seq<Byte>, at: nat): Result<(ImageRecord, nat), DecodeError> {
    if !Fits(buf, at, FIXED_BYTES) then Failure(RangeError)
    else
      var (name, afterName) := ScanName(buf, at + FIXED_BYTES);
      if !Fits(buf, afterName, 8) then Failure(RangeError)
      else
        var rec := ImageRecord(
          U32At(buf, at),
          [F64At(buf, at + 4), F64At(buf, at + 12), F64At(buf, at + 20), F64At(buf, at + 28)],
          [F64At(buf, at + 36), F64At(buf, at + 44), F64At(buf, at + 52)],
          U32At(buf, at + 60),
          name);
        Success((rec, afterName + 8 + POINT2D_BYTES * U64At(buf, afterName)))
  }

  /**
    The record loop of parseImageData: remaining more records from at,
    appended to the records already read; a failing record fails the whole
    decode.
   */
  function ImagesFrom(buf: seq<Byte>, at: nat, remaining: nat, images: seq<ImageRecord>): Result<seq<ImageRecord>, DecodeError>
    decreases remaining
  {
    if remaining == 0 then Success(images)
    else
      match ImageAt(buf, at)
      case Failure(e) => Failure(e)
      case Success((image, next)) => ImagesFrom(buf, next, remaining - 1, images + [image])
  }

  lemma ImagesFromStep(buf: seq<Byte>, at: nat, remaining: nat, images: seq<ImageRecord>, image: ImageRecord, next: nat)
    requires remaining > 0 && ImageAt(buf, at) == Success((image, next))
    ensures ImagesFrom(buf, at, remaining, images) == ImagesFrom(buf, next, remaining - 1, images + [image])
  {
  }

  /** The images of a whole buffer: the u64 count at offset 0, then that many records. */
  function DecodeImages(buf: seq<Byte>): Result<seq<ImageRecord>, DecodeError> {
    if !Fits(buf, 0, 8) then Failure(RangeError) else ImagesFrom(buf, 8, U64At(buf, 0), [])
  }

  /**
    The name loop of parseImageData: from offset, append one character per
    byte until a 0 byte (consumed, not appended) or the end of the buffer.
   */
  method ReadImageName(buf: seq<Byte>, offset0: nat) returns (imageName: string, offset: nat)
    requires offset0 <= |buf|
    ensures (imageName, offset) == ScanName(buf, offset0)
  {
    offset := offset0;
    imageName := [];
    while offset < |buf|
      invariant offset0 <= offset <= |buf|
      invariant ScanName(buf, offset0).0 == imageName + ScanName(buf, offset).0
      invariant ScanName(buf, offset0).1 == ScanName(buf, offset).1
    {
      var charCode := buf[offset];
      offset := offset + 1;
      if charCode == 0 {
        assert ScanName(buf, offset - 1) == ([], offset);
        assert imageName + [] == imageName;
        return;
      }
      assert ScanName(buf, offset - 1).0 == [ByteChar(charCode)] + ScanName(buf, offset).0;
      assert imageName + ScanName(buf, offset - 1).0 == (imageName + [ByteChar(charCode)]) + ScanName(buf, offset).0;
      imageName := imageName + [ByteChar(charCode)];
    }
    assert imageName + [] == imageName;
  }

  /** One pass of parseImageData's record loop: the record at offset and the next offset. */
  method ReadImage(buf: seq<Byte>, offset0: nat) returns (r: Result<(ImageRecord, nat), DecodeError>)
    ensures r == ImageAt(buf, offset0)
  {
    var offset := offset0;
    var imageId :- GetUint32(buf, offset);
    offset := offset + 4;

    var q0 :- GetFloat64(buf, offset);
    var q1 :- GetFloat64(buf, offset + 8);
    var q2 :- GetFloat64(buf, offset + 16);
    var q3 :- GetFloat64(buf, offset + 24);
    var t0 :- GetFloat64(buf, offset + 32);
    var t1 :- GetFloat64(buf, offset + 40);
    var t2 :- GetFloat64(buf, offset + 48);
    offset := offset + 56;

    var cameraId :- GetUint32(buf, offset);
    offset := offset + 4;

    var imageName;
    imageName, offset := ReadImageName(buf, offset);

    var numPoints2D :- GetBigUint64(buf, offset);
    offset := offset + 8;
    offset := offset + numPoints2D * POINT2D_BYTES;

    r := Success((ImageRecord(imageId, [q0, q1, q2, q3], [t0, t1, t2], cameraId, imageName), offset));
  }

  /** parseImageData: the count, then one record per pass of the loop. */
  method ParseImageData(buf: seq<Byte>) returns (r: Result<seq<ImageRecord>, DecodeError>)
    ensures r == DecodeImages(buf)
  {
    var offset: nat := 0;
    var numRegImages :- GetBigUint64(buf, offset);
    offset := offset + 8;

    var images: seq<ImageRecord> := [];
    var i: nat := 0;
    while i < numRegImages
      invariant i <= numRegImages && |images| == i
      invariant DecodeImages(buf) == ImagesFrom(buf, offset, numRegImages - i, images)
    {
      var parsed :- ReadImage(buf, offset);
      var image := parsed.0;
      ImagesFromStep(buf, offset, numRegImages - i, images, image, parsed.1);
      offset := parsed.1;
      images := images + [image];
      i := i + 1;
    }
    // The count check after the loop: one record is pushed per pass, so it never raises.
    assert |images| == numRegImages;
    r := Success(images);
  }

  // ---------------------------------------------------------------------------
  // What a decoded record means, and the encoder it inverts.

  /** The characters of a run of bytes, one per byte. */
  function Chars(bytes: seq<Byte>): (name: string) {
    seq(|bytes|, i requires 0 <= i < |bytes| => ByteChar(bytes[i]))
  }

  /** The characters a name field can hold: one byte each, none of them the terminator. */
  predicate NameChars(name: string) {
    forall i | 0 <= i < |name| :: 0 < name[i] as int < 256
  }

  /** A record an images.bin file can hold: 32-bit ids, four plus three 64-bit fields, a storable name. */
  predicate WellFormed(rec: ImageRecord) {
    && rec.id < TWO_32
    && |rec.qvec| == 4 && |rec.tvec| == 3
    && rec.cameraId < TWO_32
    && NameChars(rec.name)
  }

  /** The bytes of a name field without its terminator. */
  function NameBytes(name: string): (s: seq<Byte>)
    requires NameChars(name)
    ensures |s| == |name|
  {
    seq(|name|, i requires 0 <= i < |name| => (name[i] as int) as Byte)
  }

  /** The 64-byte fixed block of a record. */
  function FixedBytes(rec: ImageRecord): (s: seq<Byte>)
    requires |rec.qvec| == 4 && |rec.tvec| == 3
    ensures |s| == FIXED_BYTES
  {
    U32Bytes(rec.id)
    + F64Bytes(rec.qvec[0]) + F64Bytes(rec.qvec[1]) + F64Bytes(rec.qvec[2]) + F64Bytes(rec.qvec[3])
    + F64Bytes(rec.tvec[0]) + F64Bytes(rec.tvec[1]) + F64Bytes(rec.tvec[2])
    + U32Bytes(rec.cameraId)
  }

  /** Everything of a record up to its 2D points: fixed block, name, terminator, point count. */
  function ImageHeader(rec: ImageRecord, numPoints2D: nat): (s: seq<Byte>)
    requires WellFormed(rec)
    ensures |s| == FIXED_BYTES + |rec.name| + 1 + 8
  {
    FixedBytes(rec) + NameBytes(rec.name) + [0] + U64Bytes(numPoints2D)
  }

  /**
    The name field is the characters of the bytes before the first 0 byte.
    Either that 0 byte is in the buffer and the field ends just after it, or
    there is none and the field runs to the end of the buffer.
   */
  lemma {:induction false} ScanNameMeaning(buf: seq<Byte>, at: nat)
    requires at <= |buf|
    ensures var (name, next) := ScanName(buf, at);
      && at + |name| <= |buf|
      && name == Chars(buf[at..at + |name|])
      && (forall k | at <= k < at + |name| :: buf[k] != 0)
      && ((at + |name| < |buf| && buf[at + |name|] == 0 && next == at + |name| + 1)
          || (at + |name| == |buf| && next == |buf|))
    decreases |buf| - at
  {
    if at < |buf| && buf[at] != 0 {
      ScanNameMeaning(buf, at + 1);
      var (rest, _) := ScanName(buf, at + 1);
      assert buf[at..at + 1 + |rest|] == [buf[at]] + buf[at + 1..at + 1 + |rest|];
    }
  }

  /** A name written with its terminator is scanned back exactly, and the scan stops after the terminator. */
  lemma {:induction false} ScanNameBytes(buf: seq<Byte>, at: nat, name: string)
    requires NameChars(name)
    requires at + |name| < |buf| && buf[at..at + |name| + 1] == NameBytes(name) + [0]
    ensures ScanName(buf, at) == (name, at + |name| + 1)
    decreases |name|
  {
    assert buf[at] == (NameBytes(name) + [0])[0];
    if name != [] {
      assert NameBytes(name[1..]) == NameBytes(name)[1..];
      assert buf[at + 1..at + |name| + 1] == NameBytes(name[1..]) + [0];
      ScanNameBytes(buf, at + 1, name[1..]);
      assert [ByteChar(buf[at])] + name[1..] == name;
    }
  }

  /** A record whose name has no terminator before the end of the buffer fails to decode. */
  lemma UnterminatedNameFails(buf: seq<Byte>, at: nat)
    requires Fits(buf, at, FIXED_BYTES)
    requires forall k | at + FIXED_BYTES <= k < |buf| :: buf[k] != 0
    ensures ImageAt(buf, at) == Failure(RangeError)
  {
    ScanNameMeaning(buf, at + FIXED_BYTES);
  }

  /** Every record ImageAt produces could have been written to a file. */
  lemma ImageAtWellFormed(buf: seq<Byte>, at: nat)
    requires ImageAt(buf, at).Success?
    ensures WellFormed(ImageAt(buf, at).value.0)
  {
    ScanNameMeaning(buf, at + FIXED_BYTES);
  }

  lemma FixedBlockRoundTrip(buf: seq<Byte>, at: nat, rec: ImageRecord)
    requires WellFormed(rec)
    requires Fits(buf, at, FIXED_BYTES) && buf[at..at + FIXED_BYTES] == FixedBytes(rec)
    ensures U32At(buf, at) == rec.id
    ensures [F64At(buf, at + 4), F64At(buf, at + 12), F64At(buf, at + 20), F64At(buf, at + 28)] == rec.qvec
    ensures [F64At(buf, at + 36), F64At(buf, at + 44), F64At(buf, at + 52)] == rec.tvec
    ensures U32At(buf, at + 60) == rec.cameraId
  {
    var q, t := rec.qvec, rec.tvec;
    var b1 := U32Bytes(rec.id);
    var b2 := b1 + F64Bytes(q[0]);
    var b3 := b2 + F64Bytes(q[1]);
    var b4 := b3 + F64Bytes(q[2]);
    var b5 := b4 + F64Bytes(q[3]);
    var b6 := b5 + F64Bytes(t[0]);
    var b7 := b6 + F64Bytes(t[1]);
    var b8 := b7 + F64Bytes(t[2]);
    SliceParts(buf, at, b8, U32Bytes(rec.cameraId));
    SliceParts(buf, at, b7, F64Bytes(t[2]));
    SliceParts(buf, at, b6, F64Bytes(t[1]));
    SliceParts(buf, at, b5, F64Bytes(t[0]));
    SliceParts(buf, at, b4, F64Bytes(q[3]));
    SliceParts(buf, at, b3, F64Bytes(q[2]));
    SliceParts(buf, at, b2, F64Bytes(q[1]));
    SliceParts(buf, at, b1, F64Bytes(q[0]));
    U32RoundTrip(buf, at, rec.id);
    F64RoundTrip(buf, at + 4, q[0]);
    F64RoundTrip(buf, at + 12, q[1]);
    F64RoundTrip(buf, at + 20, q[2]);
    F64RoundTrip(buf, at + 28, q[3]);
    F64RoundTrip(buf, at + 36, t[0]);
    F64RoundTrip(buf, at + 44, t[1]);
    F64RoundTrip(buf, at + 52, t[2]);
    U32RoundTrip(buf, at + 60, rec.cameraId);
  }

  /** The header of rec, announcing numPoints2D points, lies in buf at at. */
  predicate HeaderAt(buf: seq<Byte>, at: nat, rec: ImageRecord, numPoints2D: nat) {
    && WellFormed(rec) && numPoints2D < Pow256(8)
    && at + |ImageHeader(rec, numPoints2D)| <= |buf|
    && buf[at..at + |ImageHeader(rec, numPoints2D)|] == ImageHeader(rec, numPoints2D)
  }

  /** The record ImageAt builds from fields read back as rec's. */
  lemma ImageAtFields(buf: seq<Byte>, at: nat, rec: ImageRecord, afterName: nat)
    requires Fits(buf, at, FIXED_BYTES)
    requires U32At(buf, at) == rec.id && U32At(buf, at + 60) == rec.cameraId
    requires [F64At(buf, at + 4), F64At(buf, at + 12), F64At(buf, at + 20), F64At(buf, at + 28)] == rec.qvec
    requires [F64At(buf, at + 36), F64At(buf, at + 44), F64At(buf, at + 52)] == rec.tvec
    requires ScanName(buf, at + FIXED_BYTES) == (rec.name, afterName) && Fits(buf, afterName, 8)
    ensures ImageAt(buf, at) == Success((rec, afterName + 8 + POINT2D_BYTES * U64At(buf, afterName)))
  {
  }

  /** A header written at at holds the fixed block, then the terminated name, then the point count. */
  lemma HeaderParts(buf: seq<Byte>, at: nat, rec: ImageRecord, numPoints2D: nat)
    requires WellFormed(rec)
    requires at + |ImageHeader(rec, numPoints2D)| <= |buf|
    requires buf[at..at + |ImageHeader(rec, numPoints2D)|] == ImageHeader(rec, numPoints2D)
    ensures buf[at..at + FIXED_BYTES] == FixedBytes(rec)
    ensures buf[at + FIXED_BYTES..at + FIXED_BYTES + |rec.name| + 1] == NameBytes(rec.name) + [0]
    ensures buf[at + FIXED_BYTES + |rec.name| + 1..at + |ImageHeader(rec, numPoints2D)|] == U64Bytes(numPoints2D)
  {
    var fixed, name := FixedBytes(rec), NameBytes(rec.name);
    SliceParts(buf, at, fixed + name + [0], U64Bytes(numPoints2D));
    SliceParts(buf, at, fixed, name + [0]);
    assert fixed + name + [0] == fixed + (name + [0]);
  }

  /** The fixed block of a header written at at reads back as written. */
  lemma HeaderFixedFields(buf: seq<Byte>, at: nat, rec: ImageRecord, numPoints2D: nat)
    requires WellFormed(rec) && numPoints2D < Pow256(8)
    requires at + |ImageHeader(rec, numPoints2D)| <= |buf|
    requires buf[at..at + |ImageHeader(rec, numPoints2D)|] == ImageHeader(rec, numPoints2D)
    ensures U32At(buf, at) == rec.id && U32At(buf, at + 60) == rec.cameraId
    ensures [F64At(buf, at + 4), F64At(buf, at + 12), F64At(buf, at + 20), F64At(buf, at + 28)] == rec.qvec
    ensures [F64At(buf, at + 36), F64At(buf, at + 44), F64At(buf, at + 52)] == rec.tvec
  {
    HeaderParts(buf, at, rec, numPoints2D);
    FixedBlockRoundTrip(buf, at, rec);
  }

  /** The name of a header written at at scans back as written. */
  lemma HeaderName(buf: seq<Byte>, at: nat, rec: ImageRecord, numPoints2D: nat)
    requires WellFormed(rec) && numPoints2D < Pow256(8)
    requires at + |ImageHeader(rec, numPoints2D)| <= |buf|
    requires buf[at..at + |ImageHeader(rec, numPoints2D)|] == ImageHeader(rec, numPoints2D)
    ensures ScanName(buf, at + FIXED_BYTES) == (rec.name, at + FIXED_BYTES + |rec.name| + 1)
  {
    HeaderParts(buf, at, rec, numPoints2D);
    ScanNameBytes(buf, at + FIXED_BYTES, rec.name);
  }

  /** The 2D-point count of a header written at at reads back as written. */
  lemma HeaderCount(buf: seq<Byte>, at: nat, rec: ImageRecord, numPoints2D: nat)
    requires WellFormed(rec) && numPoints2D < Pow256(8)
    requires at + |ImageHeader(rec, numPoints2D)| <= |buf|
    requires buf[at..at + |ImageHeader(rec, numPoints2D)|] == ImageHeader(rec, numPoints2D)
    ensures U64At(buf, at + FIXED_BYTES + |rec.name| + 1) == numPoints2D
  {
    HeaderParts(buf, at, rec, numPoints2D);
    U64RoundTrip(buf, at + FIXED_BYTES + |rec.name| + 1, numPoints2D);
  }

  /**
    A record written at at decodes to itself, whatever its 2D-point count, and
    the next record is taken to start 24 bytes per 2D point after the header:
    none of the 2D-point bytes is read, nor even required to be in the buffer.
   */
  lemma ImageRoundTrip(buf: seq<Byte>, at: nat, rec: ImageRecord, numPoints2D: nat, next: nat)
    requires HeaderAt(buf, at, rec, numPoints2D)
    requires next == at + |ImageHeader(rec, numPoints2D)| + POINT2D_BYTES * numPoints2D
    ensures ImageAt(buf, at) == Success((rec, next))
  {
    HeaderFixedFields(buf, at, rec, numPoints2D);
    HeaderName(buf, at, rec, numPoints2D);
    HeaderCount(buf, at, rec, numPoints2D);
    ImageAtFields(buf, at, rec, at + FIXED_BYTES + |rec.name| + 1);
  }

  /** A record followed by its 2D points, 24 bytes each. */
  function EncodeImage(rec: ImageRecord, points2D: seq<Byte>): (s: seq<Byte>)
    requires WellFormed(rec) && |points2D| % POINT2D_BYTES == 0
  {
    ImageHeader(rec, |points2D| / POINT2D_BYTES) + points2D
  }

  predicate Encodable(recs: seq<ImageRecord>, points2D: seq<seq<Byte>>) {
    && |recs| == |points2D|
    && (forall i | 0 <= i < |recs| :: WellFormed(recs[i]))
    && (forall i | 0 <= i < |recs| :: |points2D[i]| % POINT2D_BYTES == 0 && |points2D[i]| / POINT2D_BYTES < Pow256(8))
  }

  /** The records one after another, each with its 2D points. */
  function EncodeRecords(recs: seq<ImageRecord>, points2D: seq<seq<Byte>>): seq<Byte>
    requires Encodable(recs, points2D)
  {
    if recs == [] then [] else
      EncodableTail(recs, points2D);
      EncodeImage(recs[0], points2D[0]) + EncodeRecords(recs[1..], points2D[1..])
  }

  lemma EncodableTail(recs: seq<ImageRecord>, points2D: seq<seq<Byte>>)
    requires Encodable(recs, points2D) && recs != []
    ensures Encodable(recs[1..], points2D[1..])
  {
    assert forall i | 0 <= i < |recs| - 1 :: recs[1..][i] == recs[i + 1] && points2D[1..][i] == points2D[i + 1];
  }

  /** A whole images.bin file: the count, then the records. */
  function EncodeImages(recs: seq<ImageRecord>, points2D: seq<seq<Byte>>): seq<Byte>
    requires Encodable(recs, points2D)
  {
    U64Bytes(|recs|) + EncodeRecords(recs, points2D)
  }

  /** Record k's header lies at offsets[k], and record k + 1 starts after its 2D points. */
  predicate LaidOut(buf: seq<Byte>, offsets: seq<nat>, recs: seq<ImageRecord>, points2D: seq<seq<Byte>>, k: nat)
    requires k < |recs| == |points2D| && |offsets| == |recs| + 1
  {
    var n := |points2D[k]| / POINT2D_BYTES;
    && HeaderAt(buf, offsets[k], recs[k], n)
    && offsets[k + 1] == offsets[k] + |ImageHeader(recs[k], n)| + POINT2D_BYTES * n
  }

  /** Record k decodes at offsets[k] and ends at offsets[k + 1]. */
  predicate DecodesAt(buf: seq<Byte>, offsets: seq<nat>, recs: seq<ImageRecord>, k: nat)
    requires k < |recs| && |offsets| == |recs| + 1
  {
    ImageAt(buf, offsets[k]) == Success((recs[k], offsets[k + 1]))
  }

  /**
    Where each record of an encoded run starts: its header is there, and the
    next record starts after its 2D points.
   */
  lemma {:induction false} RecordOffsets(buf: seq<Byte>, at: nat, recs: seq<ImageRecord>, points2D: seq<seq<Byte>>) returns (offsets: seq<nat>)
    requires Encodable(recs, points2D)
    requires at + |EncodeRecords(recs, points2D)| <= |buf|
    requires buf[at..at + |EncodeRecords(recs, points2D)|] == EncodeRecords(recs, points2D)
    ensures |offsets| == |recs| + 1 && offsets[0] == at
    ensures forall k | 0 <= k < |recs| :: LaidOut(buf, offsets, recs, points2D, k)
    decreases |recs|
  {
    if recs == [] {
      offsets := [at];
    } else {
      var next := FirstRecordLayout(buf, at, recs, points2D);
      var tail := RecordOffsets(buf, next, recs[1..], points2D[1..]);
      offsets := [at] + tail;
      forall k | 0 <= k < |recs|
        ensures LaidOut(buf, offsets, recs, points2D, k)
      {
        if k > 0 {
          LaidOutShift(buf, at, tail, recs, points2D, k);
        }
      }
    }
  }

  /**
    An encoded run starts with the first record's header, and the rest of the
    run follows that record's 2D points.
   */
  lemma FirstRecordLayout(buf: seq<Byte>, at: nat, recs: seq<ImageRecord>, points2D: seq<seq<Byte>>) returns (next: nat)
    requires Encodable(recs, points2D) && recs != []
    requires at + |EncodeRecords(recs, points2D)| <= |buf|
    requires buf[at..at + |EncodeRecords(recs, points2D)|] == EncodeRecords(recs, points2D)
    ensures Encodable(recs[1..], points2D[1..])
    ensures LaidOut(buf, [at, next], recs[..1], points2D[..1], 0)
    ensures next + |EncodeRecords(recs[1..], points2D[1..])| <= |buf|
    ensures buf[next..next + |EncodeRecords(recs[1..], points2D[1..])|] == EncodeRecords(recs[1..], points2D[1..])
  {
    EncodableTail(recs, points2D);
    var header := ImageHeader(recs[0], |points2D[0]| / POINT2D_BYTES);
    var rest := EncodeRecords(recs[1..], points2D[1..]);
    SliceParts(buf, at, EncodeImage(recs[0], points2D[0]), rest);
    SliceParts(buf, at, header, points2D[0]);
    next := at + |header| + |points2D[0]|;
  }

  /** Laying out a record in front of a laid-out run shifts the run's indices by one. */
  lemma LaidOutShift(buf: seq<Byte>, at: nat, tail: seq<nat>, recs: seq<ImageRecord>, points2D: seq<seq<Byte>>, k: nat)
    requires 0 < k < |recs| == |points2D| && |tail| == |recs|
    requires LaidOut(buf, tail, recs[1..], points2D[1..], k - 1)
    ensures LaidOut(buf, [at] + tail, recs, points2D, k)
  {
    assert ([at] + tail)[k] == tail[k - 1] && ([at] + tail)[k + 1] == tail[k];
    assert recs[k] == recs[1..][k - 1] && points2D[k] == points2D[1..][k - 1];
  }

  /** Records that decode one after the other are what the record loop returns. */
  lemma {:induction false} ImagesFromChain(buf: seq<Byte>, offsets: seq<nat>, recs: seq<ImageRecord>, images: seq<ImageRecord>)
    requires |offsets| == |recs| + 1
    requires forall k | 0 <= k < |recs| :: DecodesAt(buf, offsets, recs, k)
    ensures ImagesFrom(buf, offsets[0], |recs|, images) == Success(images + recs)
    decreases |recs|
  {
    if recs == [] {
      assert images + recs == images;
    } else {
      assert DecodesAt(buf, offsets, recs, 0);
      ImagesFromStep(buf, offsets[0], |recs|, images, recs[0], offsets[1]);
      forall k | 0 <= k < |recs| - 1
        ensures DecodesAt(buf, offsets[1..], recs[1..], k)
      {
        assert DecodesAt(buf, offsets, recs, k + 1);
      }
      ImagesFromChain(buf, offsets[1..], recs[1..], images + [recs[0]]);
      assert images + [recs[0]] + recs[1..] == images + recs;
    }
  }

  /** Each header laid out at its offset decodes to its record, ending at the next offset. */
  lemma DecodeAtOffsets(buf: seq<Byte>, offsets: seq<nat>, recs: seq<ImageRecord>, points2D: seq<seq<Byte>>)
    requires |recs| == |points2D| && |offsets| == |recs| + 1
    requires forall k | 0 <= k < |recs| :: LaidOut(buf, offsets, recs, points2D, k)
    ensures forall k | 0 <= k < |recs| :: DecodesAt(buf, offsets, recs, k)
  {
    forall k | 0 <= k < |recs|
      ensures DecodesAt(buf, offsets, recs, k)
    {
      assert LaidOut(buf, offsets, recs, points2D, k);
      ImageRoundTrip(buf, offsets[k], recs[k], |points2D[k]| / POINT2D_BYTES, offsets[k + 1]);
    }
  }

  /** A buffer holding the count of recs and then records that decode one after the other decodes to recs. */
  lemma DecodeChain(buf: seq<Byte>, offsets: seq<nat>, recs: seq<ImageRecord>)
    requires Fits(buf, 0, 8) && U64At(buf, 0) == |recs|
    requires |offsets| == |recs| + 1 && offsets[0] == 8
    requires forall k | 0 <= k < |recs| :: DecodesAt(buf, offsets, recs, k)
    ensures DecodeImages(buf) == Success(recs)
  {
    ImagesFromChain(buf, offsets, recs, []);
    assert [] + recs == recs;
  }

  /** Decoding an encoded file gives back its records, whatever bytes follow it. */
  lemma DecodeEncodeImages(recs: seq<ImageRecord>, points2D: seq<seq<Byte>>, trailing: seq<Byte>)
    requires Encodable(recs, points2D) && |recs| < Pow256(8)
    ensures DecodeImages(EncodeImages(recs, points2D) + trailing) == Success(recs)
  {
    var buf := EncodeImages(recs, points2D) + trailing;
    var body := EncodeRecords(recs, points2D);
    assert buf[0..8 + |body|] == U64Bytes(|recs|) + body;
    SliceParts(buf, 0, U64Bytes(|recs|), body);
    U64RoundTrip(buf, 0, |recs|);
    var offsets := RecordOffsets(buf, 8, recs, points2D);
    DecodeAtOffsets(buf, offsets, recs, points2D);
    DecodeChain(buf, offsets, recs);
  }

  /** The loop adds one record per pass: a successful decode holds as many records as it was asked for. */
  lemma {:induction false} ImagesFromCount(buf: seq<Byte>, at: nat, remaining: nat, images: seq<ImageRecord>)
    requires ImagesFrom(buf, at, remaining, images).Success?
    ensures |ImagesFrom(buf, at, remaining, images).value| == |images| + remaining
    decreases remaining
  {
    if remaining > 0 {
      var (image, next) := ImageAt(buf, at).value;
      ImagesFromCount(buf, next, remaining - 1, images + [image]);
    }
  }

  /** A decoded file holds exactly the number of records its u64 header announces. */
  lemma DecodeImagesCount(buf: seq<Byte>)
    requires DecodeImages(buf).Success?
    ensures |buf| >= 8 && |DecodeImages(buf).value| == U64At(buf, 0)
  {
    ImagesFromCount(buf, 8, U64At(buf, 0), []);
  }
}
