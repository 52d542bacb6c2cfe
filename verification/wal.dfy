/** The write-ahead log: the header and frame-header layouts and the cumulative checksum
    (section 4 of the SQLite Database File Format, The Write-Ahead Log). */
module Wal {
  import opened Wrappers
  import opened Bytes

  const WalHeaderSize: nat := 32
  const WalFrameHeaderSize: nat := 24
  /** The magic number of a log whose checksums read little-endian words. */
  const WalMagicLe: u32 := 0x377f0682
  /** The same number with its low bit set: checksums read big-endian words. */
  const WalMagicBe: u32 := 0x377f0683

  /** The 32-byte log header, eight big-endian words. */
  datatype WalHeader = WalHeader(
    magic: u32,
    fileFormat: u32,
    pageSize: u32,
    checkpointSeq: u32,
    salt1: u32,
    salt2: u32,
    checksum1: u32,
    checksum2: u32)

  /** The 24-byte header in front of every page image in the log, six big-endian words. */
  datatype WalFrameHeader = WalFrameHeader(
    pageNumber: u32,
    dbSize: u32,
    salt1: u32,
    salt2: u32,
    checksum1: u32,
    checksum2: u32)

  /** Concatenated big-endian images of a list of words. */
  function Words(ws: seq<u32>): (r: seq<byte>)
    ensures |r| == 4 * |ws|
  {
    if ws == [] then [] else BeBytes(ws[0], 4) + Words(ws[1..])
  }

  /** A word read past a prefix is the word read from what follows the prefix. */
  lemma ReadU32Shift(a: seq<byte>, b: seq<byte>, pos: nat)
    requires pos + 4 <= |b|
    ensures ReadU32(a + b, |a| + pos) == ReadU32(b, pos)
  {
    assert (a + b)[|a| + pos..|a| + pos + 4] == b[pos..pos + 4];
  }

  /** Reading the k-th word back out of the concatenation gives the k-th word. */
  lemma {:induction false} WordsRead(ws: seq<u32>, k: nat, rest: seq<byte>)
    requires k < |ws|
    ensures ReadU32(Words(ws) + rest, 4 * k) == ws[k]
  {
    var head := BeBytes(ws[0], 4);
    assert Words(ws) + rest == head + (Words(ws[1..]) + rest);
    if k == 0 {
      assert (head + (Words(ws[1..]) + rest))[0..4] == head;
    } else {
      WordsRead(ws[1..], k - 1, rest);
      ReadU32Shift(head, Words(ws[1..]) + rest, 4 * (k - 1));
    }
  }

  /** Splitting a byte string into words and concatenating them again gives the string back. */
  lemma {:induction false} WordsOfRead(buf: seq<byte>, ws: seq<u32>)
    requires |buf| == 4 * |ws|
    requires forall k :: 0 <= k < |ws| ==> ws[k] == ReadU32(buf, 4 * k)
    ensures Words(ws) == buf
  {
    if ws != [] {
      BeBytesOfValue(buf[0..4]);
      forall k | 0 <= k < |ws| - 1
        ensures ws[1..][k] == ReadU32(buf[4..], 4 * k)
      {
        assert buf[4..][4 * k..4 * k + 4] == buf[4 * (k + 1)..4 * (k + 1) + 4];
      }
      WordsOfRead(buf[4..], ws[1..]);
      assert buf == buf[0..4] + buf[4..];
    }
  }

  function HeaderWords(h: WalHeader): seq<u32>
  {
    [h.magic, h.fileFormat, h.pageSize, h.checkpointSeq, h.salt1, h.salt2, h.checksum1, h.checksum2]
  }

  /** The header image the log writer puts at offset 0 of the log file. */
  function WriteWalHeader(h: WalHeader): (r: seq<byte>)
    ensures |r| == WalHeaderSize
  {
    Words(HeaderWords(h))
  }

  /** Parses the log header from the first 32 bytes of a buffer; a shorter buffer is an
      out-of-bounds index. */
  function ReadWalHeader(buf: seq<byte>): (r: Result<WalHeader>)
    ensures r.Failure? <==> |buf| < WalHeaderSize
    ensures r.Failure? ==> r.error == Panic
  {
    if |buf| < WalHeaderSize then Failure(Panic)
    else Success(WalHeader(ReadU32(buf, 0), ReadU32(buf, 4), ReadU32(buf, 8), ReadU32(buf, 12),
                           ReadU32(buf, 16), ReadU32(buf, 20), ReadU32(buf, 24), ReadU32(buf, 28)))
  }

  /** A written header reads back as the same header, whatever follows it in the buffer. */
  lemma WalHeaderRoundTrip(h: WalHeader, rest: seq<byte>)
    ensures ReadWalHeader(WriteWalHeader(h) + rest) == Success(h)
  {
    var ws := HeaderWords(h);
    WordsRead(ws, 0, rest); WordsRead(ws, 1, rest); WordsRead(ws, 2, rest); WordsRead(ws, 3, rest);
    WordsRead(ws, 4, rest); WordsRead(ws, 5, rest); WordsRead(ws, 6, rest); WordsRead(ws, 7, rest);
  }

  /** Every 32-byte prefix is the image of the header parsed from it: parsing loses nothing. */
  lemma WalHeaderOfBytes(buf: seq<byte>)
    requires |buf| >= WalHeaderSize
    ensures ReadWalHeader(buf).Success?
    ensures WriteWalHeader(ReadWalHeader(buf).value) == buf[..WalHeaderSize]
  {
    var ws := HeaderWords(ReadWalHeader(buf).value);
    var b := buf[..WalHeaderSize];
    forall k | 0 <= k < 8
      ensures ws[k] == ReadU32(b, 4 * k)
    {
      assert b[4 * k..4 * k + 4] == buf[4 * k..4 * k + 4];
    }
    WordsOfRead(b, ws);
  }

  function FrameHeaderWords(f: WalFrameHeader): seq<u32>
  {
    [f.pageNumber, f.dbSize, f.salt1, f.salt2, f.checksum1, f.checksum2]
  }

  /** The 24-byte frame header as the frame writer lays it out. */
  function WriteFrameHeader(f: WalFrameHeader): (r: seq<byte>)
    ensures |r| == WalFrameHeaderSize
  {
    Words(FrameHeaderWords(f))
  }

  /** The six fields of a frame header, read as big-endian words. */
  function ReadFrameHeader(buf: seq<byte>): (r: Result<WalFrameHeader>)
    ensures r.Failure? <==> |buf| < WalFrameHeaderSize
    ensures r.Failure? ==> r.error == Panic
  {
    if |buf| < WalFrameHeaderSize then Failure(Panic)
    else Success(WalFrameHeader(ReadU32(buf, 0), ReadU32(buf, 4), ReadU32(buf, 8),
                                ReadU32(buf, 12), ReadU32(buf, 16), ReadU32(buf, 20)))
  }

  /** A frame header reads back as written. */
  lemma FrameHeaderRoundTrip(f: WalFrameHeader, rest: seq<byte>)
    ensures ReadFrameHeader(WriteFrameHeader(f) + rest) == Success(f)
  {
    var ws := FrameHeaderWords(f);
    WordsRead(ws, 0, rest); WordsRead(ws, 1, rest); WordsRead(ws, 2, rest);
    WordsRead(ws, 3, rest); WordsRead(ws, 4, rest); WordsRead(ws, 5, rest);
  }

  // ---------------------------------------------------------------------------
  // The checksum

  const U32Modulus: nat := 0x1_0000_0000

  /** `u32::wrapping_add`. */
  function WrappingAdd(a: u32, b: u32): (r: u32)
    ensures r == if a + b < U32Modulus then a + b else a + b - U32Modulus
  {
    (a + b) % U32Modulus
  }

  /** The four bytes in the opposite order. */
  function Swap4(b: seq<byte>): (r: seq<byte>)
    requires |b| == 4
    ensures |r| == 4
  {
    [b[3], b[2], b[1], b[0]]
  }

  /** The 32-bit word at `buf[i..i + 4]`, read big-endian or little-endian. */
  function Word(buf: seq<byte>, i: nat, bigEndian: bool): (r: u32)
    requires i + 4 <= |buf|
  {
    if bigEndian then ReadU32(buf, i) else ReadU32(Swap4(buf[i..i + 4]), 0)
  }

  /** `u32::from_ne_bytes` on a host of the given byte order. */
  function FromNeBytes(b: seq<byte>, hostBig: bool): (r: u32)
    requires |b| == 4
  {
    if hostBig then ReadU32(b, 0) else ReadU32(Swap4(b), 0)
  }

  /** `u32::swap_bytes`. */
  function SwapBytes(v: u32): (r: u32)
  {
    ReadU32(Swap4(BeBytes(v, 4)), 0)
  }

  /** The word the checksum loop reads at `i`: in host order when `nativeEndian`, otherwise
      byte-swapped from host order. */
  function LoopWord(buf: seq<byte>, i: nat, nativeEndian: bool, hostBig: bool): (r: u32)
    requires i + 4 <= |buf|
  {
    var v := FromNeBytes(buf[i..i + 4], hostBig);
    if nativeEndian then v else SwapBytes(v)
  }

  /** The loop reads big-endian words exactly when `nativeEndian` agrees with the host order. */
  lemma LoopWordOrder(buf: seq<byte>, i: nat, nativeEndian: bool, hostBig: bool)
    requires i + 4 <= |buf|
    ensures LoopWord(buf, i, nativeEndian, hostBig) == Word(buf, i, nativeEndian == hostBig)
  {
    var b := buf[i..i + 4];
    assert b[0..4] == b && Swap4(b)[0..4] == Swap4(b) && Swap4(Swap4(b)) == b;
    BeBytesOfValue(b);
    BeBytesOfValue(Swap4(b));
  }

  /** One round of the checksum over the word pair (v0, v1). */
  function Mix(s: (u32, u32), v0: u32, v1: u32): (r: (u32, u32))
  {
    var s0 := WrappingAdd(s.0, WrappingAdd(v0, s.1));
    (s0, WrappingAdd(s.1, WrappingAdd(v1, s0)))
  }

  /** The checksum of `buf` continued from `s`, folding `Mix` over its 8-byte chunks from the
      front; the words are read in the given byte order. (Every caller passes a multiple of 8
      bytes; on other lengths the trailing partial chunk is not read.) */
  function Checksum(buf: seq<byte>, s: (u32, u32), bigEndian: bool): (r: (u32, u32))
    decreases |buf|
  {
    if |buf| < 8 then s
    else Checksum(buf[8..], Mix(s, Word(buf, 0, bigEndian), Word(buf, 4, bigEndian)), bigEndian)
  }

  /** Checksumming a concatenation is checksumming the second part from the checksum of the
      first: the cumulative log checksum can be computed frame by frame. */
  lemma {:induction false} ChecksumAppend(a: seq<byte>, b: seq<byte>, s: (u32, u32), bigEndian: bool)
    requires |a| % 8 == 0
    ensures Checksum(a + b, s, bigEndian) == Checksum(b, Checksum(a, s, bigEndian), bigEndian)
  {
    if |a| == 0 {
      assert a + b == b;
    } else {
      var ab := a + b;
      assert ab[0..4] == a[0..4] && ab[4..8] == a[4..8];
      assert ab[8..] == a[8..] + b;
      ChecksumAppend(a[8..], b, Mix(s, Word(a, 0, bigEndian), Word(a, 4, bigEndian)), bigEndian);
    }
  }

  /** When a multiple of 8 bytes remains after i, a whole chunk starts at i. */
  lemma NextChunk(i: nat, n: nat)
    requires (n - i) % 8 == 0 && i < n
    ensures i + 8 <= n && (n - (i + 8)) % 8 == 0
  {
  }

  /** Checksumming from chunk i on is one round over chunk i, then the rest. */
  lemma ChecksumStep(buf: seq<byte>, i: nat, s: (u32, u32), bigEndian: bool)
    requires i + 8 <= |buf|
    ensures Checksum(buf[i..], s, bigEndian)
         == Checksum(buf[i + 8..], Mix(s, Word(buf, i, bigEndian), Word(buf, i + 4, bigEndian)), bigEndian)
  {
    var b := buf[i..];
    assert b[0..4] == buf[i..i + 4] && b[4..8] == buf[i + 4..i + 8];
    assert b[8..] == buf[i + 8..];
  }

  /** `checksum_wal`: the checksum of `buf` continued from `input`. A length that is not a
      multiple of 8 fails the source's assertion. The host byte order is a parameter. */
  method ChecksumWal(buf: seq<byte>, input: (u32, u32), nativeEndian: bool, hostBig: bool)
    returns (r: Result<(u32, u32)>)
    ensures r.Failure? <==> |buf| % 8 != 0
    ensures r.Failure? ==> r.error == Panic
    ensures r.Success? ==> r.value == Checksum(buf, input, nativeEndian == hostBig)
    ensures |buf| == 0 ==> r == Success(input)
  {
    if |buf| % 8 != 0 {
      return Failure(Panic);
    }
    var big := nativeEndian == hostBig;
    var s0: u32 := input.0;
    var s1: u32 := input.1;
    var i := 0;
    while i < |buf|
      invariant i <= |buf| && (|buf| - i) % 8 == 0
      invariant Checksum(buf[i..], (s0, s1), big) == Checksum(buf, input, big)
    {
      NextChunk(i, |buf|);
      var v0 := LoopWord(buf, i, nativeEndian, hostBig);
      var v1 := LoopWord(buf, i + 4, nativeEndian, hostBig);
      LoopWordOrder(buf, i, nativeEndian, hostBig);
      LoopWordOrder(buf, i + 4, nativeEndian, hostBig);
      ChecksumStep(buf, i, (s0, s1), big);
      s0 := WrappingAdd(s0, WrappingAdd(v0, s1));
      s1 := WrappingAdd(s1, WrappingAdd(v1, s0));
      i := i + 8;
    }
    assert buf[i..] == [];
    return Success((s0, s1));
  }

  /** Whether the log's checksums read big-endian words: the magic number's low bit. */
  function ChecksumsBigEndian(magic: u32): bool
  {
    magic % 2 == 1
  }

  /** The frame writer's `use_native_endian`: the host is big-endian exactly when the magic
      number asks for big-endian words. */
  function UseNativeEndian(magic: u32, hostBig: bool): bool
  {
    hostBig == (magic % 2 == 1)
  }

  /** Whatever the host, the words the checksum reads are big-endian exactly when the magic
      number's low bit is set; the two magic constants select the two orders. */
  lemma ChecksumOrderFollowsMagic(magic: u32, hostBig: bool, buf: seq<byte>, i: nat)
    requires i + 4 <= |buf|
    ensures (UseNativeEndian(magic, hostBig) == hostBig) == ChecksumsBigEndian(magic)
    ensures LoopWord(buf, i, UseNativeEndian(magic, hostBig), hostBig)
              == Word(buf, i, ChecksumsBigEndian(magic))
    ensures ChecksumsBigEndian(WalMagicBe) && !ChecksumsBigEndian(WalMagicLe)
  {
    LoopWordOrder(buf, i, UseNativeEndian(magic, hostBig), hostBig);
  }

  /** The number of page bytes after the frame header that the frame checksum covers. */
  const WalChecksumSpan: nat := 4096

  /** The frame the log writer produces for one page: the frame header and the page image,
      and the cumulative checksum after it. `pageId` is truncated to 32 bits as the source's
      cast does. The frame buffer is exactly as long as the header and the page, and the
      writer zero-fills and then checksums the 4096 bytes after the header, so a page of
      fewer than 4096 bytes runs past the buffer and aborts; the bytes of a longer page
      past 4096 are copied but not checksummed. */
  function WriteWalFrame(pageId: nat, dbSize: u32, h: WalHeader, checksums: (u32, u32),
                         page: seq<byte>, hostBig: bool): (r: Result<(seq<byte>, (u32, u32))>)
    ensures r.Failure? <==> |page| < WalChecksumSpan
    ensures r.Failure? ==> r.error == Panic
    ensures r.Success? ==> |r.value.0| == WalFrameHeaderSize + |page|
    ensures r.Success? ==> r.value.0[WalFrameHeaderSize..] == page
  {
    if |page| < WalChecksumSpan then Failure(Panic)
    else
      var native := UseNativeEndian(h.magic, hostBig);
      var first := Words([pageId % U32Modulus, dbSize]);
      var headerSum := Checksum(first, checksums, native == hostBig);
      var sum := Checksum(page[..WalChecksumSpan], headerSum, native == hostBig);
      var fh := WalFrameHeader(pageId % U32Modulus, dbSize, h.salt1, h.salt2, sum.0, sum.1);
      Success((WriteFrameHeader(fh) + page, sum))
  }

  /** The checksum a written frame returns is that of its first 8 bytes followed by the
      first 4096 bytes of the page, continued from the previous frame's checksum, in the
      byte order the magic number selects. */
  lemma WalFrameSum(pageId: nat, dbSize: u32, h: WalHeader, checksums: (u32, u32),
                    page: seq<byte>, hostBig: bool)
    requires |page| >= WalChecksumSpan
    ensures WriteWalFrame(pageId, dbSize, h, checksums, page, hostBig).Success?
    ensures var r := WriteWalFrame(pageId, dbSize, h, checksums, page, hostBig).value;
      r.1 == Checksum(r.0[..8] + r.0[WalFrameHeaderSize..WalFrameHeaderSize + WalChecksumSpan],
                      checksums, ChecksumsBigEndian(h.magic))
  {
    var r := WriteWalFrame(pageId, dbSize, h, checksums, page, hostBig).value;
    var fh := WalFrameHeader(pageId % U32Modulus, dbSize, h.salt1, h.salt2, r.1.0, r.1.1);
    assert r.0 == WriteFrameHeader(fh) + page;
    var ws := FrameHeaderWords(fh);
    assert r.0[..8] == Words([pageId % U32Modulus, dbSize]) by {
      assert Words(ws) == BeBytes(ws[0], 4) + (BeBytes(ws[1], 4) + Words(ws[2..]));
      assert Words([pageId % U32Modulus, dbSize]) == BeBytes(ws[0], 4) + (BeBytes(ws[1], 4) + []);
    }
    assert r.0[WalFrameHeaderSize..WalFrameHeaderSize + WalChecksumSpan] == page[..WalChecksumSpan];
    ChecksumAppend(r.0[..8], page[..WalChecksumSpan], checksums, ChecksumsBigEndian(h.magic));
  }

  /** A written frame's header holds the page number (mod 2^32), the database size, the log
      header's salts and the checksum the writer returns. */
  lemma WalFrameHeaderFields(pageId: nat, dbSize: u32, h: WalHeader, checksums: (u32, u32),
                             page: seq<byte>, hostBig: bool)
    requires |page| >= WalChecksumSpan
    ensures WriteWalFrame(pageId, dbSize, h, checksums, page, hostBig).Success?
    ensures var r := WriteWalFrame(pageId, dbSize, h, checksums, page, hostBig).value;
      ReadFrameHeader(r.0) == Success(WalFrameHeader(pageId % U32Modulus, dbSize, h.salt1,
                                                     h.salt2, r.1.0, r.1.1))
  {
    var r := WriteWalFrame(pageId, dbSize, h, checksums, page, hostBig).value;
    var fh := WalFrameHeader(pageId % U32Modulus, dbSize, h.salt1, h.salt2, r.1.0, r.1.1);
    assert r.0 == WriteFrameHeader(fh) + page;
    FrameHeaderRoundTrip(fh, page);
  }
}
