/** The SQLite variable-length integer ("varint") of section 1.6 of the SQLite Database
    File Format: one to nine bytes, most significant group first. Each of the first eight
    bytes contributes its low seven bits and uses its top bit as a continuation flag; a
    ninth byte, when present, contributes all eight bits. */
module Varint {
  import opened Wrappers
  import opened Bytes

  /** 128 to the power k: the values that fit in k seven-bit groups. */
  function Pow128(k: nat): (r: nat)
    ensures r >= 1
  {
    if k == 0 then 1 else 128 * Pow128(k - 1)
  }

  lemma {:induction false} Pow128Monotone(i: nat, j: nat)
    requires i <= j
    ensures Pow128(i) <= Pow128(j)
  {
    if i < j {
      Pow128Monotone(i, j - 1);
    }
  }

  lemma Pow128Values()
    ensures Pow128(1) == 0x80 && Pow128(2) == 0x4000
    ensures Pow128(8) == 0x100_0000_0000_0000
  {
    assert Pow128(4) == 0x1000_0000;
  }

  /** The first eight bytes all carry the continuation bit, so a ninth byte is consumed. */
  predicate NeedsNinthByte(buf: seq<byte>) {
    |buf| >= 8 && buf[0] >= 0x80 && buf[1] >= 0x80 && buf[2] >= 0x80 && buf[3] >= 0x80
    && buf[4] >= 0x80 && buf[5] >= 0x80 && buf[6] >= 0x80 && buf[7] >= 0x80
  }

  /** read_varint stays inside buf: it reads the ninth byte without a bounds check. */
  predicate Readable(buf: seq<byte>) {
    NeedsNinthByte(buf) ==> |buf| >= 9
  }

  /** Bytes i to 7 all carry the continuation bit: started at iteration i, the decoding
      loop reaches the ninth byte. */
  predicate ContinuesTo8(buf: seq<byte>, i: nat)
    requires i <= 8
    decreases 8 - i
  {
    i == 8 || (i < |buf| && buf[i] >= 0x80 && ContinuesTo8(buf, i + 1))
  }

  lemma {:induction false} ContinuesAt(buf: seq<byte>, i: nat)
    requires i <= 8 && ContinuesTo8(buf, i)
    ensures i < 8 ==> 8 <= |buf|
    ensures forall j :: i <= j < 8 ==> buf[j] >= 0x80
    decreases 8 - i
  {
    if i < 8 {
      ContinuesAt(buf, i + 1);
    }
  }

  /** The loop reaches the ninth byte from its first iteration exactly when the first
      eight bytes carry the continuation bit. */
  lemma ContinuesFromStart(buf: seq<byte>)
    ensures ContinuesTo8(buf, 0) <==> NeedsNinthByte(buf)
  {
    if ContinuesTo8(buf, 0) {
      ContinuesAt(buf, 0);
    }
  }

  /** Iteration i of the decoding loop of read_varint applied to the bytes of buf from
      start on, v being the value accumulated so far. Running out of bytes in the first
      eight iterations is corruption; the unchecked read of the ninth byte aborts. */
  function ReadFrom(buf: seq<byte>, start: nat, i: nat, v: nat): (r: Result<(u64, nat)>)
    requires i <= 8 && v < Pow128(i)
    ensures r.Success? ==> i < r.value.1 <= 9 && start + r.value.1 <= |buf|
    decreases 8 - i
  {
    if i == 8 then
      if start + 8 >= |buf| then Failure(Panic)
      else
        NinthByteBound(v, buf[start + 8]);
        Success((v * 256 + buf[start + 8], 9))
    else if start + i >= |buf| then
      Failure(Corrupt)
    else
      var c := buf[start + i];
      var w := v * 128 + c % 128;
      GroupBound(i, v, c);
      if c < 0x80 then Success((w, i + 1))
      else ReadFrom(buf, start, i + 1, w)
  }

  /** One more seven-bit group keeps the accumulated value within 56 bits. */
  lemma GroupBound(i: nat, v: nat, c: byte)
    requires i < 8 && v < Pow128(i)
    ensures v * 128 + c % 128 < Pow128(i + 1) <= 0x100_0000_0000_0000
  {
    Pow128Values();
    Pow128Monotone(i + 1, 8);
  }

  /** The ninth byte contributes eight bits to 56: the result fits in a u64. */
  lemma NinthByteBound(v: nat, b: byte)
    requires v < Pow128(8)
    ensures v * 256 + b < 0x1_0000_0000_0000_0000
  {
    Pow128Values();
  }

  /** Bytes i up to n of buf all carry the continuation bit. */
  predicate Continuing(buf: seq<byte>, i: nat, n: nat)
    requires i <= n <= |buf|
    decreases n - i
  {
    i == n || (buf[i] >= 0x80 && Continuing(buf, i + 1, n))
  }

  /** The decoding loop started at iteration i reports corruption exactly when the
      input ends, before the eighth byte, on a run of continuation bytes. */
  lemma {:induction false} ReadFromCorrupt(buf: seq<byte>, i: nat, v: nat)
    requires i <= 8 && i <= |buf| && v < Pow128(i)
    ensures var r := ReadFrom(buf, 0, i, v);
            r.Failure? && r.error.Corrupt? <==> |buf| < 8 && Continuing(buf, i, |buf|)
    decreases 8 - i
  {
    if i < 8 && i < |buf| && buf[i] >= 0x80 {
      ReadStep(buf, i, v);
      ReadFromCorrupt(buf, i + 1, v * 128 + buf[i] % 128);
    }
  }

  /** ... and aborts exactly when it reaches the ninth byte of an eight-byte input. */
  lemma {:induction false} ReadFromPanic(buf: seq<byte>, i: nat, v: nat)
    requires i <= 8 && i <= |buf| && v < Pow128(i)
    ensures var r := ReadFrom(buf, 0, i, v);
            r.Failure? && r.error.Panic? <==> ContinuesTo8(buf, i) && |buf| < 9
    decreases 8 - i
  {
    if i < 8 && i < |buf| && buf[i] >= 0x80 {
      ReadStep(buf, i, v);
      ReadFromPanic(buf, i + 1, v * 128 + buf[i] % 128);
    }
  }

  /** ... and otherwise stops after the first byte without the continuation bit, or
      after the ninth byte. */
  lemma {:induction false} ReadFromSuccess(buf: seq<byte>, i: nat, v: nat)
    requires i <= 8 && i <= |buf| && v < Pow128(i)
    ensures var r := ReadFrom(buf, 0, i, v);
            r.Success? ==> Continuing(buf, i, r.value.1 - 1) && (r.value.1 < 9 ==> buf[r.value.1 - 1] < 0x80)
    decreases 8 - i
  {
    if i < 8 && i < |buf| && buf[i] >= 0x80 {
      ReadStep(buf, i, v);
      ReadFromSuccess(buf, i + 1, v * 128 + buf[i] % 128);
    }
  }

  /** read_varint: the decoded value and the number of bytes it occupies.
      It fails with Corrupt exactly when the input ends before a byte with a clear top
      bit, and aborts exactly when eight continuation bytes are the whole input; the
      length is the position of the first byte with a clear top bit, or nine. */
  function ReadVarint(buf: seq<byte>): (r: Result<(u64, nat)>)
    ensures r.Failure? && r.error.Corrupt? <==> |buf| < 8 && Continuing(buf, 0, |buf|)
    ensures r.Failure? && r.error.Panic? <==> !Readable(buf)
    ensures r.Success? ==>
              1 <= r.value.1 <= 9 && r.value.1 <= |buf| && Continuing(buf, 0, r.value.1 - 1)
              && (r.value.1 < 9 ==> buf[r.value.1 - 1] < 0x80)
  {
    ReadFromCorrupt(buf, 0, 0);
    ReadFromPanic(buf, 0, 0);
    ReadFromSuccess(buf, 0, 0);
    ContinuesFromStart(buf);
    ReadFrom(buf, 0, 0, 0)
  }

  /** Reading from a position of a buffer is reading the slice that starts there. */
  lemma {:induction false} ReadFromShift(buf: seq<byte>, start: nat, i: nat, v: nat)
    requires start <= |buf| && i <= 8 && v < Pow128(i)
    ensures ReadFrom(buf, start, i, v) == ReadFrom(buf[start..], 0, i, v)
    decreases 8 - i
  {
    var tail := buf[start..];
    assert |tail| == |buf| - start;
    if i < 8 && start + i < |buf| {
      assert tail[i] == buf[start + i];
      GroupBound(i, v, buf[start + i]);
      ReadFromShift(buf, start, i + 1, v * 128 + buf[start + i] % 128);
    } else if i == 8 && start + 8 < |buf| {
      assert tail[8] == buf[start + 8];
    }
  }

  /** Little-endian seven-bit groups of x, each with the continuation bit set:
      the `encoded` array that write_varint fills in its general case. */
  function Groups(x: nat): (r: seq<byte>)
    ensures x < Pow128(|r|)
    ensures x > 0 ==> |r| >= 1 && Pow128(|r| - 1) <= x
  {
    if x == 0 then [] else [0x80 + x % 128] + Groups(x / 128)
  }

  /** The low k seven-bit groups of x, most significant first, each with the continuation bit set. */
  function HighGroups(x: nat, k: nat): (r: seq<byte>)
    ensures |r| == k
  {
    if k == 0 then [] else HighGroups(x / 128, k - 1) + [x % 128 + 0x80]
  }

  function Reverse(s: seq<byte>): (r: seq<byte>)
    ensures |r| == |s|
  {
    if |s| == 0 then [] else Reverse(s[1..]) + [s[0]]
  }

  /** The bytes write_varint stores for v, in its four cases: one byte, two bytes,
      the nine-byte form when the top byte of v is non-zero, and otherwise the
      reversed seven-bit groups with the continuation bit cleared on the last byte.
      The length is the least number of seven-bit groups that hold v, or nine. */
  function EncodeVarint(v: u64): (r: seq<byte>)
    ensures 1 <= |r| <= 9
    ensures |r| == 1 <==> v <= 0x7f
    ensures |r| == 2 <==> 0x7f < v <= 0x3fff
    ensures |r| == 9 <==> v >= 0x100_0000_0000_0000
    ensures |r| <= 8 ==> v < Pow128(|r|)
    ensures 2 <= |r| <= 8 ==> Pow128(|r| - 1) <= v
  {
    Pow128Values();
    if v <= 0x7f then
      [v % 0x80]
    else if v <= 0x3fff then
      [(v / 0x80) % 0x80 + 0x80, v % 0x80]
    else if v >= 0x100_0000_0000_0000 then
      HighGroups(v / 0x100, 8) + [v % 0x100]
    else
      var encoded := Groups(v);
      GroupsWidth(v);
      Reverse([encoded[0] % 0x80] + encoded[1..])
  }

  /** The number of bytes the varint of v takes: one per started seven-bit group, and
      nine for every value of more than 56 bits. */
  function VarintLength(v: u64): (n: nat)
  {
    if v <= 0x7f then 1
    else if v <= 0x3fff then 2
    else if v <= 0x1f_ffff then 3
    else if v <= 0xfff_ffff then 4
    else if v <= 0x7_ffff_ffff then 5
    else if v <= 0x3ff_ffff_ffff then 6
    else if v <= 0x1_ffff_ffff_ffff then 7
    else if v <= 0xff_ffff_ffff_ffff then 8
    else 9
  }

  lemma EncodedLength(v: u64)
    ensures |EncodeVarint(v)| == VarintLength(v)
  {
    Pow128Table();
    var n := |EncodeVarint(v)|;
    if n <= 2 {
    } else if n <= 5 {
      assert n == 3 || n == 4 || n == 5;
    } else if n <= 8 {
      assert n == 6 || n == 7 || n == 8;
    }
  }

  lemma Pow128Table()
    ensures Pow128(1) == 0x80 && Pow128(2) == 0x4000 && Pow128(3) == 0x20_0000 && Pow128(4) == 0x1000_0000
    ensures Pow128(5) == 0x8_0000_0000 && Pow128(6) == 0x400_0000_0000 && Pow128(7) == 0x2_0000_0000_0000
    ensures Pow128(8) == 0x100_0000_0000_0000
  {
  }

  lemma GroupsWidth(v: nat)
    requires 0x3fff < v < 0x100_0000_0000_0000
    ensures 3 <= |Groups(v)| <= 8
  {
    var n := |Groups(v)|;
    Pow128Values();
    if n >= 9 { Pow128Monotone(8, n - 1); }
  }

  /** Decoding the bytes HighGroups(x, k) from the start of the buffer accumulates x. */
  lemma {:induction false} ReadHigh(buf: seq<byte>, x: nat, k: nat)
    requires k <= 8 && k <= |buf| && x < Pow128(k)
    requires buf[..k] == HighGroups(x, k)
    ensures ReadFrom(buf, 0, 0, 0) == ReadFrom(buf, 0, k, x)
  {
    if k > 0 {
      HighGroupsLast(buf, x, k);
      ReadHighStep(buf, x, k);
      ReadHigh(buf, x / 128, k - 1);
    } else {
      assert x == 0;
    }
  }

  /** HighGroups(x, k) is HighGroups(x / 128, k - 1) followed by one continuation byte. */
  lemma HighGroupsLast(buf: seq<byte>, x: nat, k: nat)
    requires 0 < k <= |buf| && buf[..k] == HighGroups(x, k)
    ensures buf[..k - 1] == HighGroups(x / 128, k - 1) && buf[k - 1] == x % 128 + 0x80
  {
    assert HighGroups(x, k) == HighGroups(x / 128, k - 1) + [x % 128 + 0x80];
    assert buf[..k - 1] == buf[..k][..k - 1];
    assert buf[k - 1] == buf[..k][k - 1];
  }

  /** The last continuation byte of HighGroups(x, k) takes the accumulator from x / 128 to x. */
  lemma ReadHighStep(buf: seq<byte>, x: nat, k: nat)
    requires 0 < k <= 8 && k <= |buf| && x < Pow128(k)
    requires buf[k - 1] == x % 128 + 0x80
    ensures x / 128 < Pow128(k - 1)
    ensures ReadFrom(buf, 0, k - 1, x / 128) == ReadFrom(buf, 0, k, x)
  {
    ReadStep(buf, k - 1, x / 128);
    LowGroup(x, buf[k - 1]);
  }

  /** A continuation byte built from x carries the low seven bits of x. */
  lemma LowGroup(x: nat, b: int)
    requires b == x % 128 + 0x80
    ensures b % 128 == x % 128 && x / 128 * 128 + b % 128 == x
  {
  }

  /** One iteration of the decoding loop over a byte with the continuation bit set. */
  lemma ReadStep(buf: seq<byte>, i: nat, w: nat)
    requires i < 8 && i < |buf| && w < Pow128(i) && buf[i] >= 0x80
    ensures w * 128 + buf[i] % 128 < Pow128(i + 1)
    ensures ReadFrom(buf, 0, i, w) == ReadFrom(buf, 0, i + 1, w * 128 + buf[i] % 128)
  {
  }

  lemma {:induction false} ReverseGroups(x: nat)
    ensures Reverse(Groups(x)) == HighGroups(x, |Groups(x)|)
  {
    if x > 0 {
      var g := Groups(x);
      assert g[1..] == Groups(x / 128);
      ReverseGroups(x / 128);
    }
  }

  /** Every varint write_varint produces has the shape of continuation groups of
      v / 128 (or v / 256) followed by one final byte. */
  lemma EncodeShape(v: u64)
    ensures var e := EncodeVarint(v); var n := |e|;
            if n == 9 then e == HighGroups(v / 0x100, 8) + [v % 0x100]
            else e == HighGroups(v / 0x80, n - 1) + [v % 0x80]
  {
    Pow128Values();
    if v <= 0x7f {
    } else if v <= 0x3fff {
      assert HighGroups(v / 0x80, 1) == [(v / 0x80) % 0x80 + 0x80];
    } else if v < 0x100_0000_0000_0000 {
      EncodeShapeGroups(v);
    }
  }

  /** The general case of write_varint: the reversed groups are the high groups of v / 128
      followed by the low seven bits. */
  lemma EncodeShapeGroups(v: u64)
    requires 0x3fff < v < 0x100_0000_0000_0000
    ensures EncodeVarint(v) == HighGroups(v / 0x80, |Groups(v)| - 1) + [v % 0x80]
  {
    var encoded := Groups(v);
    GroupsWidth(v);
    assert [encoded[0] % 0x80] + encoded[1..] == [v % 0x80] + Groups(v / 0x80);
    ReverseGroups(v / 0x80);
    assert Reverse([v % 0x80] + Groups(v / 0x80)) == Reverse(Groups(v / 0x80)) + [v % 0x80] by {
      assert ([v % 0x80] + Groups(v / 0x80))[1..] == Groups(v / 0x80);
    }
  }

  /** Varint round trip: reading the bytes write_varint produced, followed by anything,
      yields the written value and the written length. */
  lemma ReadEncoded(v: u64, rest: seq<byte>)
    ensures Readable(EncodeVarint(v) + rest)
    ensures ReadVarint(EncodeVarint(v) + rest) == Success((v, |EncodeVarint(v)|))
  {
    EncodeShape(v);
    var e := EncodeVarint(v);
    if |e| == 9 {
      ReadShapedNine(v, e, rest);
    } else {
      ReadShapedShort(v, e, rest);
    }
  }

  /** Reading the nine-byte form: eight continuation groups of v / 256, then v % 256. */
  lemma ReadShapedNine(v: u64, e: seq<byte>, rest: seq<byte>)
    requires e == HighGroups(v / 0x100, 8) + [v % 0x100]
    ensures Readable(e + rest) && ReadVarint(e + rest) == Success((v, |e|))
  {
    var buf := e + rest;
    var x := v / 0x100;
    assert x * 256 + v % 0x100 == v;
    assert buf[..8] == HighGroups(x, 8) && buf[8] == v % 0x100 by {
      assert buf[..8] == e[..8] && buf[8] == e[8];
    }
    Pow128Values();
    ReadNineBytes(x, v % 0x100, buf);
  }

  /** Reading the shorter forms: continuation groups of v / 128, then v % 128. */
  lemma ReadShapedShort(v: u64, e: seq<byte>, rest: seq<byte>)
    requires 1 <= |e| <= 8 && v < Pow128(|e|)
    requires e == HighGroups(v / 0x80, |e| - 1) + [v % 0x80]
    ensures Readable(e + rest) && ReadVarint(e + rest) == Success((v, |e|))
  {
    var n := |e|;
    var x, b := v / 0x80, v % 0x80;
    assert x < Pow128(n - 1) && x * 128 + b == v;
    ReadGroupsThenLast(x, b, e, rest);
  }

  /** k continuation groups of x and a last byte b below 0x80, followed by anything. */
  lemma ReadGroupsThenLast(x: nat, b: byte, e: seq<byte>, rest: seq<byte>)
    requires 1 <= |e| <= 8 && x < Pow128(|e| - 1) && b < 0x80
    requires e == HighGroups(x, |e| - 1) + [b]
    ensures Readable(e + rest) && ReadVarint(e + rest) == Success((x * 128 + b, |e|))
  {
    var n := |e|;
    var buf := e + rest;
    assert buf[..n - 1] == HighGroups(x, n - 1) && buf[n - 1] == b by {
      assert buf[..n - 1] == e[..n - 1] && buf[n - 1] == e[n - 1];
    }
    ReadShort(x, b, n - 1, buf);
  }

  /** Eight continuation groups of x and a final byte b decode to x * 256 + b. */
  lemma ReadNineBytes(x: nat, b: byte, buf: seq<byte>)
    requires x < Pow128(8) && 9 <= |buf| && buf[..8] == HighGroups(x, 8) && buf[8] == b
    ensures Readable(buf) && ReadVarint(buf) == Success((x * 256 + b, 9))
  {
    ReadHigh(buf, x, 8);
    Pow128Values();
  }

  /** k continuation groups of x and a final byte b without the continuation bit
      decode to x * 128 + b, in k + 1 bytes. */
  lemma ReadShort(x: nat, b: byte, k: nat, buf: seq<byte>)
    requires k < 8 && x < Pow128(k) && b < 0x80
    requires k < |buf| && buf[..k] == HighGroups(x, k) && buf[k] == b
    ensures Readable(buf) && ReadVarint(buf) == Success((x * 128 + b, k + 1))
  {
    ShortIsReadable(buf, k);
    assert !ContinuesTo8(buf, k);
    ReadHigh(buf, x, k);
    ReadLast(buf, k, x);
  }

  /** An iteration over a byte without the continuation bit ends the loop. */
  lemma ReadLast(buf: seq<byte>, i: nat, v: nat)
    requires i < 8 && i < |buf| && buf[i] < 0x80 && v < Pow128(i)
    ensures ReadFrom(buf, 0, i, v) == Success((v * 128 + buf[i], i + 1))
  {
  }

  /** A byte without the continuation bit among the first eight means the ninth is never read. */
  lemma ShortIsReadable(buf: seq<byte>, k: nat)
    requires k < 8 && k < |buf| && buf[k] < 0x80
    ensures Readable(buf)
  {
    if k == 0 {} else if k == 1 {} else if k == 2 {} else if k == 3 {}
    else if k == 4 {} else if k == 5 {} else if k == 6 {} else {}
  }

  /** write_varint into a buffer with room for the encoding: the first n bytes are
      replaced by the varint of v, the rest is untouched, and read_varint of the
      result gives back (v, n). */
  function WriteVarint(buf: seq<byte>, v: u64): (r: (seq<byte>, nat))
    requires |EncodeVarint(v)| <= |buf|
    ensures |r.0| == |buf| && r.1 <= |buf| && r.0[r.1..] == buf[r.1..]
    ensures r.1 == |EncodeVarint(v)| && r.0[..r.1] == EncodeVarint(v)
    ensures Readable(r.0) && ReadVarint(r.0) == Success((v, r.1))
  {
    var e := EncodeVarint(v);
    ReadEncoded(v, buf[|e|..]);
    (e + buf[|e|..], |e|)
  }

  /** write_varint_to_vec: appends the varint of v to payload, which reads back as v. */
  function WriteVarintToVec(v: u64, payload: seq<byte>): (r: seq<byte>)
    ensures |payload| < |r| <= |payload| + 9 && r[..|payload|] == payload
    ensures Readable(r[|payload|..])
    ensures ReadVarint(r[|payload|..]) == Success((v, |r| - |payload|))
  {
    var (varint, n) := WriteVarint(seq(9, _ => 0), v);
    ReadEncoded(v, []);
    assert varint[..n] == EncodeVarint(v);
    var r := payload + varint[..n];
    assert r[|payload|..] == EncodeVarint(v) + [];
    r
  }
}
