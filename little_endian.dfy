/**
  Unsigned little-endian integers of a fixed byte width, the integer encoding
  of every COLMAP binary file.
 */
module LittleEndian {

  /** One octet of a buffer. */
  newtype Byte = x: int | 0 <= x < 256

  /** 256 raised to the power k: the number of values a k-byte integer can hold. */
  function Pow256(k: nat): (p: nat)
    ensures p >= 1
  {
    if k == 0 then 1 else 256 * Pow256(k - 1)
  }

  /** The value of the bytes s read as an unsigned little-endian integer. */
  function FromLE(s: seq<Byte>): (n: nat)
    ensures n < Pow256(|s|)
  {
    if s == [] then 0 else s[0] as nat + 256 * FromLE(s[1..])
  }

  /** The k-byte little-endian encoding of n (the bytes above k are dropped). */
  function ToLE(n: nat, k: nat): (s: seq<Byte>)
    ensures |s| == k
  {
    if k == 0 then [] else [(n % 256) as Byte] + ToLE(n / 256, k - 1)
  }

  /** Decoding a k-byte encoding gives back every value that fits in k bytes. */
  lemma {:induction false} FromToLE(n: nat, k: nat)
    requires n < Pow256(k)
    ensures FromLE(ToLE(n, k)) == n
  {
    if k > 0 {
      var s := ToLE(n, k);
      assert s[1..] == ToLE(n / 256, k - 1);
      FromToLE(n / 256, k - 1);
    }
  }

  /** Encoding the value of a byte string at its own width gives the byte string back. */
  lemma {:induction false} ToFromLE(s: seq<Byte>)
    ensures ToLE(FromLE(s), |s|) == s
  {
    if s != [] {
      var n := FromLE(s);
      assert n % 256 == s[0] as nat;
      assert n / 256 == FromLE(s[1..]);
      ToFromLE(s[1..]);
    }
  }

  /** The value of a concatenation: the high part counts Pow256(|lo|) times. */
  lemma {:induction false} FromLEAppend(lo: seq<Byte>, hi: seq<Byte>)
    ensures FromLE(lo + hi) == FromLE(lo) + Pow256(|lo|) * FromLE(hi)
  {
    if lo == [] {
      assert lo + hi == hi;
    } else {
      assert (lo + hi)[1..] == lo[1..] + hi;
      FromLEAppend(lo[1..], hi);
      var p, h := Pow256(|lo| - 1), FromLE(hi);
      var r := FromLE(lo[1..]);
      calc {
        FromLE(lo + hi);
        lo[0] as nat + 256 * FromLE(lo[1..] + hi);
        lo[0] as nat + 256 * (r + p * h);
        { MulAssoc(256, p, h); }
        lo[0] as nat + 256 * r + (256 * p) * h;
      }
    }
  }

  lemma MulAssoc(a: int, b: int, c: int)
    ensures a * (b * c) == (a * b) * c
  {
  }

  const TWO_32: int := 0x1_0000_0000
  const TWO_31: int := 0x8000_0000

  lemma Pow256Widths()
    ensures Pow256(4) == TWO_32
    ensures Pow256(8) == 0x1_0000_0000_0000_0000
  {
  }

  /** Two's-complement reading of a 32-bit unsigned value, as DataView.getInt32 does. */
  function ToInt32(u: nat): (v: int)
    requires u < TWO_32
    ensures -TWO_31 <= v < TWO_31
    ensures FromInt32(v) == u
  {
    if u >= TWO_31 then u - TWO_32 else u
  }

  /** The 32-bit two's-complement bit pattern of v, read as unsigned. */
  function FromInt32(v: int): (u: nat)
    requires -TWO_31 <= v < TWO_31
    ensures u < TWO_32
  {
    if v < 0 then v + TWO_32 else v
  }

  lemma Int32RoundTrip(v: int)
    requires -TWO_31 <= v < TWO_31
    ensures ToInt32(FromInt32(v)) == v
  {
  }
}
