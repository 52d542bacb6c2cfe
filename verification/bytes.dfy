/** Fixed-width integers and their big-endian byte representations.
    Every multi-byte integer of the database file, the WAL and the record format
    is stored most significant byte first. */
module Bytes {

  type byte = x: int | 0 <= x < 0x100
  type u16 = x: int | 0 <= x < 0x1_0000
  type u32 = x: int | 0 <= x < 0x1_0000_0000
  type u64 = x: int | 0 <= x < 0x1_0000_0000_0000_0000
  type i32 = x: int | -0x8000_0000 <= x < 0x8000_0000
  type i64 = x: int | -0x8000_0000_0000_0000 <= x < 0x8000_0000_0000_0000

  /** 256 to the power k: the number of distinct values of a k-byte field. */
  function Pow256(k: nat): (r: nat)
    ensures r >= 1
  {
    if k == 0 then 1 else 256 * Pow256(k - 1)
  }

  /** Unsigned big-endian value of a byte string (Rust's `from_be_bytes` on unsigned types). */
  function BeValue(s: seq<byte>): (r: nat)
    ensures r < Pow256(|s|)
  {
    if |s| == 0 then 0
    else
      var p := BeValue(s[..|s| - 1]);
      assert p * 256 + s[|s| - 1] < Pow256(|s| - 1) * 256;
      p * 256 + s[|s| - 1]
  }

  /** The k-byte big-endian representation of x (Rust's `to_be_bytes` on unsigned types). */
  function BeBytes(x: nat, k: nat): (r: seq<byte>)
    requires x < Pow256(k)
    ensures |r| == k
    ensures BeValue(r) == x
  {
    if k == 0 then []
    else
      var r := BeBytes(x / 256, k - 1) + [x % 256];
      assert r[..k - 1] == BeBytes(x / 256, k - 1);
      r
  }

  /** Encoding a decoded field gives back the same bytes: big-endian decoding is injective. */
  lemma {:induction false} BeBytesOfValue(s: seq<byte>)
    ensures BeBytes(BeValue(s), |s|) == s
  {
    if |s| > 0 {
      var k := |s| - 1;
      var p := BeValue(s[..k]);
      assert BeValue(s) / 256 == p && BeValue(s) % 256 == s[k];
      BeBytesOfValue(s[..k]);
      assert s == s[..k] + [s[k]];
    }
  }

  /** Concatenation of big-endian fields: the left part is scaled by the width of the right. */
  lemma {:induction false} BeValueAppend(a: seq<byte>, b: seq<byte>)
    ensures BeValue(a + b) == BeValue(a) * Pow256(|b|) + BeValue(b)
  {
    if |b| > 0 {
      var k := |b| - 1;
      assert (a + b)[..|a| + k] == a + b[..k];
      BeValueAppend(a, b[..k]);
      calc {
        BeValue(a + b);
        BeValue(a + b[..k]) * 256 + b[k];
        (BeValue(a) * Pow256(k) + BeValue(b[..k])) * 256 + b[k];
        { MulDistrib(BeValue(a) * Pow256(k), BeValue(b[..k]), 256); }
        BeValue(a) * Pow256(k) * 256 + (BeValue(b[..k]) * 256 + b[k]);
        { MulAssoc(BeValue(a), Pow256(k), 256); }
        BeValue(a) * Pow256(|b|) + BeValue(b);
      }
    } else {
      assert a + b == a;
    }
  }

  lemma MulDistrib(x: int, y: int, z: int)
    ensures (x + y) * z == x * z + y * z
  {
  }

  lemma MulAssoc(x: int, y: int, z: int)
    ensures x * y * z == x * (y * z)
  {
  }

  /** Signed two's-complement big-endian value of a byte string
      (Rust's `from_be_bytes` on i8, i16, i32 and i64): negative exactly when
      the top bit of the first byte is set. */
  function SignedBe(s: seq<byte>): (r: int)
    requires |s| >= 1
  {
    if s[0] >= 0x80 then BeValue(s) - Pow256(|s|) else BeValue(s)
  }

  /** Half the range of a k-byte field: signed k-byte integers lie in [-Half(k), Half(k)). */
  function Half(k: nat): (r: nat)
    requires k >= 1
    ensures 2 * r == Pow256(k)
  {
    128 * Pow256(k - 1)
  }

  /** The k-byte two's-complement big-endian representation of a signed integer. */
  function SignedBeBytes(x: int, k: nat): (r: seq<byte>)
    requires k >= 1 && -(Half(k) as int) <= x < Half(k)
    ensures |r| == k
  {
    BeBytes(if x < 0 then x + Pow256(k) else x, k)
  }

  /** The top bit of the first byte is set exactly when the value reaches half the field's range. */
  lemma {:induction false} SignBit(s: seq<byte>)
    requires |s| >= 1
    ensures (s[0] >= 0x80) == (BeValue(s) >= Half(|s|))
  {
    var k := |s| - 1;
    if k > 0 {
      assert s[..k][0] == s[0];
      SignBit(s[..k]);
    }
  }

  /** Signed big-endian decoding inverts signed encoding over the whole k-byte range. */
  lemma SignedRoundTrip(x: int, k: nat)
    requires k >= 1 && -(Half(k) as int) <= x < Half(k)
    ensures SignedBe(SignedBeBytes(x, k)) == x
  {
    SignBit(SignedBeBytes(x, k));
  }

  /** Sign extension: prefixing a copy of the sign byte does not change the signed value.
      This is how 24-bit and 48-bit integers are widened to i32 and i64. */
  lemma SignExtend(e: byte, s: seq<byte>)
    requires |s| >= 1
    requires e == (if s[0] <= 127 then 0 else 255)
    ensures SignedBe([e] + s) == SignedBe(s)
  {
    BeValueAppend([e], s);
    assert BeValue([e]) == e;
    assert Pow256(|s| + 1) == 256 * Pow256(|s|);
  }

  /** Rust's `u16::from_be_bytes` applied to the two bytes at pos. */
  function ReadU16(buf: seq<byte>, pos: nat): (r: u16)
    requires pos + 2 <= |buf|
    ensures BeBytes(r, 2) == buf[pos..pos + 2]
  {
    BeBytesOfValue(buf[pos..pos + 2]);
    BeValue(buf[pos..pos + 2])
  }

  /** Rust's `read_u32`: the big-endian u32 stored at pos. */
  function ReadU32(buf: seq<byte>, pos: nat): (r: u32)
    requires pos + 4 <= |buf|
    ensures BeBytes(r, 4) == buf[pos..pos + 4]
  {
    BeBytesOfValue(buf[pos..pos + 4]);
    BeValue(buf[pos..pos + 4])
  }

  /** Rust's `i32::to_be_bytes`: the two's-complement image of x in four bytes. */
  function I32Bytes(x: i32): (r: seq<byte>)
    ensures |r| == 4 && SignedBe(r) == x
  {
    SignedRoundTrip(x, 4);
    SignedBeBytes(x, 4)
  }

  /** Rust's `i32::from_be_bytes`. */
  function I32Value(s: seq<byte>): (r: i32)
    requires |s| == 4
    ensures I32Bytes(r) == s
  {
    var v := SignedBe(s);
    SignedValueBytes(s);
    v
  }

  /** Signed decoding is injective too: re-encoding a decoded field gives the same bytes. */
  lemma SignedValueBytes(s: seq<byte>)
    requires |s| >= 1
    ensures -(Half(|s|) as int) <= SignedBe(s) < Half(|s|)
    ensures SignedBeBytes(SignedBe(s), |s|) == s
  {
    var k := |s|;
    var u := BeValue(s);
    SignBit(s);
    BeBytesOfValue(s);
    if s[0] >= 0x80 {
      assert SignedBe(s) == u - Pow256(k) && Half(k) <= u < Pow256(k);
      assert SignedBe(s) + Pow256(k) == u;
    } else {
      assert SignedBe(s) == u < Half(k);
    }
  }
}
