/**
  The little-endian DataView reads the COLMAP decoders make. Each read either
  returns the value stored at a byte offset or raises the RangeError a
  DataView raises when the read would leave the buffer.
 */
module DataView {
  import opened Wrappers
  import opened LittleEndian

  /**
    A 64-bit float field, kept as the eight bytes it is stored as (lowest
    first) and never interpreted as a number.
   */
  datatype F64 = F64(b0: Byte, b1: Byte, b2: Byte, b3: Byte, b4: Byte, b5: Byte, b6: Byte, b7: Byte)

  /** The only way a DataView read fails: the bytes asked for are not all in the buffer. */
  datatype DecodeError = RangeError

  /** True when the width bytes starting at at lie inside buf. */
  predicate Fits(buf: seq<Byte>, at: nat, width: nat) {
    at + width <= |buf|
  }

  /** getUint8(at). */
  function GetUint8(buf: seq<Byte>, at: nat): (r: Result<Byte, DecodeError>)
    ensures r.Success? <==> Fits(buf, at, 1)
    ensures r.Success? ==> r.value == buf[at]
  {
    if Fits(buf, at, 1) then Success(buf[at]) else Failure(RangeError)
  }

  /** getUint32(at, true). */
  function GetUint32(buf: seq<Byte>, at: nat): (r: Result<nat, DecodeError>)
    ensures r.Success? <==> Fits(buf, at, 4)
  {
    if Fits(buf, at, 4) then Success(U32At(buf, at)) else Failure(RangeError)
  }

  /** getInt32(at, true). */
  function GetInt32(buf: seq<Byte>, at: nat): (r: Result<int, DecodeError>)
    ensures r.Success? <==> Fits(buf, at, 4)
  {
    if Fits(buf, at, 4) then Success(I32At(buf, at)) else Failure(RangeError)
  }

  /** getBigUint64(at, true). */
  function GetBigUint64(buf: seq<Byte>, at: nat): (r: Result<nat, DecodeError>)
    ensures r.Success? <==> Fits(buf, at, 8)
  {
    if Fits(buf, at, 8) then Success(U64At(buf, at)) else Failure(RangeError)
  }

  /** getFloat64(at, true), without interpreting the eight bytes. */
  function GetFloat64(buf: seq<Byte>, at: nat): (r: Result<F64, DecodeError>)
    ensures r.Success? <==> Fits(buf, at, 8)
  {
    if Fits(buf, at, 8) then Success(F64At(buf, at)) else Failure(RangeError)
  }

  // The values stored at an offset known to be in bounds, written out byte by byte.

  function U32At(buf: seq<Byte>, at: nat): nat
    requires Fits(buf, at, 4)
  {
    buf[at] as nat + 0x100 * buf[at + 1] as nat + 0x1_0000 * buf[at + 2] as nat + 0x100_0000 * buf[at + 3] as nat
  }

  function I32At(buf: seq<Byte>, at: nat): int
    requires Fits(buf, at, 4)
  {
    ToInt32(U32At(buf, at))
  }

  function U64At(buf: seq<Byte>, at: nat): nat
    requires Fits(buf, at, 8)
  {
    U32At(buf, at) + 0x1_0000_0000 * U32At(buf, at + 4)
  }

  function F64At(buf: seq<Byte>, at: nat): F64
    requires Fits(buf, at, 8)
  {
    F64(buf[at], buf[at + 1], buf[at + 2], buf[at + 3], buf[at + 4], buf[at + 5], buf[at + 6], buf[at + 7])
  }

  /** Reading four bytes in place agrees with decoding them on their own. */
  lemma U32AtSlice(buf: seq<Byte>, at: nat)
    requires Fits(buf, at, 4)
    ensures U32At(buf, at) == FromLE(buf[at..at + 4])
  {
    var b0, b1, b2, b3 := buf[at] as nat, buf[at + 1] as nat, buf[at + 2] as nat, buf[at + 3] as nat;
    assert buf[at + 3..at + 4][1..] == [];
    assert FromLE(buf[at + 3..at + 4]) == b3;
    assert buf[at + 2..at + 4][1..] == buf[at + 3..at + 4];
    assert FromLE(buf[at + 2..at + 4]) == b2 + 256 * b3;
    assert buf[at + 1..at + 4][1..] == buf[at + 2..at + 4];
    assert FromLE(buf[at + 1..at + 4]) == b1 + 256 * b2 + 0x1_0000 * b3;
    assert buf[at..at + 4][1..] == buf[at + 1..at + 4];
    assert FromLE(buf[at..at + 4]) == b0 + 256 * b1 + 0x1_0000 * b2 + 0x100_0000 * b3;
  }

  /** Reading eight bytes in place agrees with decoding them on their own. */
  lemma U64AtSlice(buf: seq<Byte>, at: nat)
    requires Fits(buf, at, 8)
    ensures U64At(buf, at) == FromLE(buf[at..at + 8])
  {
    U32AtSlice(buf, at);
    U32AtSlice(buf, at + 4);
    FromLEAppend(buf[at..at + 4], buf[at + 4..at + 8]);
    assert buf[at..at + 4] + buf[at + 4..at + 8] == buf[at..at + 8];
    Pow256Widths();
  }

  /** A buffer region holding a + b holds a, then b. */
  lemma SliceParts(buf: seq<Byte>, at: nat, a: seq<Byte>, b: seq<Byte>)
    requires at + |a| + |b| <= |buf| && buf[at..at + |a| + |b|] == a + b
    ensures buf[at..at + |a|] == a
    ensures buf[at + |a|..at + |a| + |b|] == b
  {
    var whole := buf[at..at + |a| + |b|];
    assert buf[at..at + |a|] == whole[..|a|];
    assert buf[at + |a|..at + |a| + |b|] == whole[|a|..];
    assert (a + b)[..|a|] == a;
    assert (a + b)[|a|..] == b;
  }

  /** A buffer region holding part holds each slice of part at the matching place. */
  lemma SliceWithin(buf: seq<Byte>, at: nat, part: seq<Byte>, i: nat, j: nat)
    requires at + |part| <= |buf| && buf[at..at + |part|] == part && i <= j <= |part|
    ensures buf[at + i..at + j] == part[i..j]
  {
    forall k | 0 <= k < j - i
      ensures buf[at + i..at + j][k] == part[i..j][k]
    {
      assert buf[at + i + k] == buf[at..at + |part|][i + k];
    }
  }

  // Writers used to state round trips: the bytes a field of each kind occupies.

  function U32Bytes(n: nat): (s: seq<Byte>)
    ensures |s| == 4
  {
    ToLE(n, 4)
  }

  function I32Bytes(v: int): (s: seq<Byte>)
    requires -TWO_31 <= v < TWO_31
    ensures |s| == 4
  {
    ToLE(FromInt32(v), 4)
  }

  function U64Bytes(n: nat): (s: seq<Byte>)
    ensures |s| == 8
  {
    ToLE(n, 8)
  }

  function F64Bytes(f: F64): (s: seq<Byte>)
    ensures |s| == 8
  {
    [f.b0, f.b1, f.b2, f.b3, f.b4, f.b5, f.b6, f.b7]
  }

  /** A u32 written at at is read back unchanged, whatever surrounds it. */
  lemma U32RoundTrip(buf: seq<Byte>, at: nat, n: nat)
    requires n < TWO_32 && Fits(buf, at, 4) && buf[at..at + 4] == U32Bytes(n)
    ensures U32At(buf, at) == n
  {
    Pow256Widths();
    U32AtSlice(buf, at);
    FromToLE(n, 4);
  }

  /** An i32 written at at is read back unchanged, sign included. */
  lemma I32RoundTrip(buf: seq<Byte>, at: nat, v: int)
    requires -TWO_31 <= v < TWO_31 && Fits(buf, at, 4) && buf[at..at + 4] == I32Bytes(v)
    ensures I32At(buf, at) == v
  {
    Pow256Widths();
    U32AtSlice(buf, at);
    FromToLE(FromInt32(v), 4);
  }

  /** A u64 written at at is read back unchanged. */
  lemma U64RoundTrip(buf: seq<Byte>, at: nat, n: nat)
    requires n < Pow256(8) && Fits(buf, at, 8) && buf[at..at + 8] == U64Bytes(n)
    ensures U64At(buf, at) == n
  {
    U64AtSlice(buf, at);
    FromToLE(n, 8);
  }

  /** The bit pattern of an f64 written at at is read back unchanged. */
  lemma F64RoundTrip(buf: seq<Byte>, at: nat, f: F64)
    requires Fits(buf, at, 8) && buf[at..at + 8] == F64Bytes(f)
    ensures F64At(buf, at) == f
  {
    var field := buf[at..at + 8];
    assert buf[at] == field[0] && buf[at + 1] == field[1] && buf[at + 2] == field[2] && buf[at + 3] == field[3];
    assert buf[at + 4] == field[4] && buf[at + 5] == field[5] && buf[at + 6] == field[6] && buf[at + 7] == field[7];
  }
}
