/** The 100-byte database header at the start of page 1
    (section 1.3, The Database Header, of the SQLite Database File Format). */
module DbHeader {
  import opened Bytes

  /** Length of the header on disk. */
  const DatabaseHeaderSize: nat := 100
  /** The cache size a header reports when its stored value is zero. */
  const DefaultCacheSize: i32 := -2000

  type Magic = s: seq<byte> | |s| == 16 witness [0, 0, 0, 0, 0, 0, 0, 0, 0, 0, 0, 0, 0, 0, 0, 0]
  type Reserved = s: seq<byte> | |s| == 20
    witness [0, 0, 0, 0, 0, 0, 0, 0, 0, 0, 0, 0, 0, 0, 0, 0, 0, 0, 0, 0]

  /** "SQLite format 3" followed by a NUL byte. */
  const SqliteMagic: Magic := [0x53, 0x51, 0x4c, 0x69, 0x74, 0x65, 0x20, 0x66,
                               0x6f, 0x72, 0x6d, 0x61, 0x74, 0x20, 0x33, 0x00]

  datatype DatabaseHeader = DatabaseHeader(
    magic: Magic,
    pageSize: u16,
    writeVersion: byte,
    readVersion: byte,
    reservedSpace: byte,
    maxEmbedFrac: byte,
    minEmbedFrac: byte,
    minLeafFrac: byte,
    changeCounter: u32,
    databaseSize: u32,
    freelistTrunkPage: u32,
    freelistPages: u32,
    schemaCookie: u32,
    schemaFormat: u32,
    defaultPageCacheSize: i32,
    vacuumModeLargestRootPage: u32,
    textEncoding: u32,
    userVersion: u32,
    incrementalVacuumEnabled: u32,
    applicationId: u32,
    reservedForExpansion: Reserved,
    versionValidFor: u32,
    versionNumber: u32)

  /** The header a new database starts with. */
  function DefaultHeader(): DatabaseHeader
  {
    DatabaseHeader(
      SqliteMagic, 4096, 2, 2, 0, 64, 32, 32,
      1, 1, 0, 0, 0, 4, 500,
      0, 1, 0, 0, 0,
      [0, 0, 0, 0, 0, 0, 0, 0, 0, 0, 0, 0, 0, 0, 0, 0, 0, 0, 0, 0],
      3047000, 3047000)
  }

  /** A header the file format admits: the magic string, a power-of-two page size
      from 512 to 32768 (or 1, meaning 65536), legacy or WAL file format versions,
      the fixed payload fractions 64/32/32, schema format 1 to 4 and a text encoding
      of UTF-8, UTF-16le or UTF-16be. */
  predicate WellFormed(h: DatabaseHeader)
  {
    && h.magic == SqliteMagic
    && h.pageSize in {1, 512, 1024, 2048, 4096, 8192, 16384, 32768}
    && h.writeVersion in {1, 2} && h.readVersion in {1, 2}
    && h.maxEmbedFrac == 64 && h.minEmbedFrac == 32 && h.minLeafFrac == 32
    && 1 <= h.schemaFormat <= 4
    && 1 <= h.textEncoding <= 3
  }

  // Byte groups of the header, in the order `write_header_to_buf` stores them.

  /** Bytes 0..24: magic, page size and the six one-byte fields. */
  function Identity(h: DatabaseHeader): (r: seq<byte>)
    ensures |r| == 24
  {
    h.magic + BeBytes(h.pageSize, 2)
      + [h.writeVersion, h.readVersion, h.reservedSpace, h.maxEmbedFrac, h.minEmbedFrac, h.minLeafFrac]
  }

  /** Bytes 24..52: the six counters and the suggested cache size. */
  function Counters(h: DatabaseHeader): (r: seq<byte>)
    ensures |r| == 28
  {
    BeBytes(h.changeCounter, 4) + BeBytes(h.databaseSize, 4) + BeBytes(h.freelistTrunkPage, 4)
      + BeBytes(h.freelistPages, 4) + BeBytes(h.schemaCookie, 4) + BeBytes(h.schemaFormat, 4)
      + I32Bytes(h.defaultPageCacheSize)
  }

  /** Bytes 52..72: vacuum, encoding, user version, incremental vacuum and application id. */
  function Settings(h: DatabaseHeader): (r: seq<byte>)
    ensures |r| == 20
  {
    BeBytes(h.vacuumModeLargestRootPage, 4) + BeBytes(h.textEncoding, 4) + BeBytes(h.userVersion, 4)
      + BeBytes(h.incrementalVacuumEnabled, 4) + BeBytes(h.applicationId, 4)
  }

  /** Bytes 92..100: the two version fields. */
  function Versions(h: DatabaseHeader): (r: seq<byte>)
    ensures |r| == 8
  {
    BeBytes(h.versionValidFor, 4) + BeBytes(h.versionNumber, 4)
  }

  /** The 100 bytes `write_header_to_buf` stores. */
  function HeaderBytes(h: DatabaseHeader): (r: seq<byte>)
    ensures |r| == DatabaseHeaderSize
    ensures r[..16] == h.magic && r[72..92] == h.reservedForExpansion
  {
    var r := Identity(h) + Counters(h) + Settings(h) + h.reservedForExpansion + Versions(h);
    assert r[..24] == Identity(h);
    assert r[..16] == Identity(h)[..16];
    r
  }

  /** `write_header_to_buf`: the header replaces the first 100 bytes of the page
      buffer and every later byte is left as it was. */
  function WriteHeaderToBuf(buf: seq<byte>, h: DatabaseHeader): (r: seq<byte>)
    requires |buf| >= DatabaseHeaderSize
    ensures |r| == |buf|
    ensures r[DatabaseHeaderSize..] == buf[DatabaseHeaderSize..]
    ensures r[..16] == h.magic
  {
    var r := HeaderBytes(h) + buf[DatabaseHeaderSize..];
    assert r[..DatabaseHeaderSize] == HeaderBytes(h);
    assert r[..16] == HeaderBytes(h)[..16];
    r
  }

  /** The stored cache size as the header reports it: zero stands for the default. */
  function CacheSizeOf(stored: i32): (r: i32)
    ensures r != 0
    ensures stored != 0 ==> r == stored
  {
    if stored == 0 then DefaultCacheSize else stored
  }

  /** `finish_read_database_header`: every field read from its fixed offset. */
  function ReadDatabaseHeader(buf: seq<byte>): (h: DatabaseHeader)
    requires |buf| >= DatabaseHeaderSize
    ensures h.magic == buf[..16] && h.reservedForExpansion == buf[72..92]
    ensures h.defaultPageCacheSize != 0
  {
    DatabaseHeader(
      buf[0..16], ReadU16(buf, 16),
      buf[18], buf[19], buf[20], buf[21], buf[22], buf[23],
      ReadU32(buf, 24), ReadU32(buf, 28), ReadU32(buf, 32), ReadU32(buf, 36),
      ReadU32(buf, 40), ReadU32(buf, 44), CacheSizeOf(I32Value(buf[48..52])),
      ReadU32(buf, 52), ReadU32(buf, 56), ReadU32(buf, 60), ReadU32(buf, 64), ReadU32(buf, 68),
      buf[72..92],
      ReadU32(buf, 92), ReadU32(buf, 96))
  }

  /** What reading back a written header gives: the same header, except that a
      zero cache size comes back as the default. */
  function Reread(h: DatabaseHeader): DatabaseHeader
  {
    h.(defaultPageCacheSize := CacheSizeOf(h.defaultPageCacheSize))
  }

  // Where each group sits in a buffer that starts with a written header.

  lemma GroupsAt(buf: seq<byte>, h: DatabaseHeader)
    requires |buf| >= DatabaseHeaderSize && buf[..DatabaseHeaderSize] == HeaderBytes(h)
    ensures buf[0..24] == Identity(h)
    ensures buf[24..52] == Counters(h)
    ensures buf[52..72] == Settings(h)
    ensures buf[72..92] == h.reservedForExpansion
    ensures buf[92..100] == Versions(h)
  {
    var w := buf[..DatabaseHeaderSize];
    assert buf[0..24] == w[0..24];
    assert buf[24..52] == w[24..52];
    assert buf[52..72] == w[52..72];
    assert buf[92..100] == w[92..100];
  }

  lemma IdentityFields(s: seq<byte>, h: DatabaseHeader)
    requires s == Identity(h)
    ensures s[0..16] == h.magic && s[16..18] == BeBytes(h.pageSize, 2)
    ensures s[18] == h.writeVersion && s[19] == h.readVersion && s[20] == h.reservedSpace
    ensures s[21] == h.maxEmbedFrac && s[22] == h.minEmbedFrac && s[23] == h.minLeafFrac
  {
  }

  lemma CounterFields(s: seq<byte>, h: DatabaseHeader)
    requires s == Counters(h)
    ensures s[0..4] == BeBytes(h.changeCounter, 4) && s[4..8] == BeBytes(h.databaseSize, 4)
    ensures s[8..12] == BeBytes(h.freelistTrunkPage, 4) && s[12..16] == BeBytes(h.freelistPages, 4)
    ensures s[16..20] == BeBytes(h.schemaCookie, 4) && s[20..24] == BeBytes(h.schemaFormat, 4)
    ensures s[24..28] == I32Bytes(h.defaultPageCacheSize)
  {
  }

  lemma SettingFields(s: seq<byte>, h: DatabaseHeader)
    requires s == Settings(h)
    ensures s[0..4] == BeBytes(h.vacuumModeLargestRootPage, 4) && s[4..8] == BeBytes(h.textEncoding, 4)
    ensures s[8..12] == BeBytes(h.userVersion, 4) && s[12..16] == BeBytes(h.incrementalVacuumEnabled, 4)
    ensures s[16..20] == BeBytes(h.applicationId, 4)
  {
  }

  /** A u32 field read from inside a group: the group's bytes decide it. */
  lemma U32In(buf: seq<byte>, base: nat, group: seq<byte>, off: nat, x: u32)
    requires base + |group| <= |buf| && buf[base..base + |group|] == group
    requires off + 4 <= |group| && group[off..off + 4] == BeBytes(x, 4)
    ensures ReadU32(buf, base + off) == x
  {
    var read, stored := buf[base + off..base + off + 4], group[off..off + 4];
    forall k | 0 <= k < 4
      ensures read[k] == stored[k]
    {
      assert buf[base..base + |group|][off + k] == buf[base + off + k];
    }
    assert read == stored;
    var r := ReadU32(buf, base + off);
    assert BeBytes(r, 4) == BeBytes(x, 4);
    assert BeValue(BeBytes(r, 4)) == r && BeValue(BeBytes(x, 4)) == x;
  }

  lemma ReadIdentity(w: seq<byte>, h: DatabaseHeader)
    requires |w| >= DatabaseHeaderSize && w[0..24] == Identity(h)
    ensures w[0..16] == h.magic && ReadU16(w, 16) == h.pageSize
    ensures w[18] == h.writeVersion && w[19] == h.readVersion && w[20] == h.reservedSpace
    ensures w[21] == h.maxEmbedFrac && w[22] == h.minEmbedFrac && w[23] == h.minLeafFrac
  {
    var id := w[0..24];
    IdentityFields(id, h);
    assert w[16..18] == id[16..18];
    assert w[18] == id[18] && w[19] == id[19] && w[20] == id[20];
    assert w[21] == id[21] && w[22] == id[22] && w[23] == id[23];
    BeBytesOfValue(w[16..18]);
  }

  lemma ReadCounters(w: seq<byte>, h: DatabaseHeader)
    requires |w| >= DatabaseHeaderSize && w[24..52] == Counters(h)
    ensures ReadU32(w, 24) == h.changeCounter && ReadU32(w, 28) == h.databaseSize
    ensures ReadU32(w, 32) == h.freelistTrunkPage && ReadU32(w, 36) == h.freelistPages
    ensures ReadU32(w, 40) == h.schemaCookie && ReadU32(w, 44) == h.schemaFormat
    ensures I32Value(w[48..52]) == h.defaultPageCacheSize
  {
    var ct := w[24..52];
    CounterFields(ct, h);
    U32In(w, 24, ct, 0, h.changeCounter);
    U32In(w, 24, ct, 4, h.databaseSize);
    U32In(w, 24, ct, 8, h.freelistTrunkPage);
    U32In(w, 24, ct, 12, h.freelistPages);
    U32In(w, 24, ct, 16, h.schemaCookie);
    U32In(w, 24, ct, 20, h.schemaFormat);
    assert w[48..52] == ct[24..28];
    SignedValueBytes(w[48..52]);
  }

  lemma ReadSettings(w: seq<byte>, h: DatabaseHeader)
    requires |w| >= DatabaseHeaderSize && w[52..72] == Settings(h)
    ensures ReadU32(w, 52) == h.vacuumModeLargestRootPage && ReadU32(w, 56) == h.textEncoding
    ensures ReadU32(w, 60) == h.userVersion && ReadU32(w, 64) == h.incrementalVacuumEnabled
    ensures ReadU32(w, 68) == h.applicationId
  {
    var st := w[52..72];
    SettingFields(st, h);
    U32In(w, 52, st, 0, h.vacuumModeLargestRootPage);
    U32In(w, 52, st, 4, h.textEncoding);
    U32In(w, 52, st, 8, h.userVersion);
    U32In(w, 52, st, 12, h.incrementalVacuumEnabled);
    U32In(w, 52, st, 16, h.applicationId);
  }

  lemma ReadVersions(w: seq<byte>, h: DatabaseHeader)
    requires |w| >= DatabaseHeaderSize && w[92..100] == Versions(h)
    ensures ReadU32(w, 92) == h.versionValidFor && ReadU32(w, 96) == h.versionNumber
  {
    var vs := w[92..100];
    assert vs[0..4] == BeBytes(h.versionValidFor, 4) && vs[4..8] == BeBytes(h.versionNumber, 4);
    U32In(w, 92, vs, 0, h.versionValidFor);
    U32In(w, 92, vs, 4, h.versionNumber);
  }

  /** Header round trip: after `write_header_to_buf`, `finish_read_database_header`
      reads back every field as written, except that a zero cache size reads as -2000. */
  lemma ReadWrittenHeader(buf: seq<byte>, h: DatabaseHeader)
    requires |buf| >= DatabaseHeaderSize
    ensures ReadDatabaseHeader(WriteHeaderToBuf(buf, h)) == Reread(h)
  {
    var w := WriteHeaderToBuf(buf, h);
    assert w[..DatabaseHeaderSize] == HeaderBytes(h);
    GroupsAt(w, h);
    ReadIdentity(w, h);
    ReadCounters(w, h);
    ReadSettings(w, h);
    ReadVersions(w, h);
  }

  /** The converse: writing back a header just read reproduces the buffer, unless
      its stored cache size was zero (then bytes 48..52 become the encoding of -2000). */
  lemma WriteReadHeader(buf: seq<byte>)
    requires |buf| >= DatabaseHeaderSize
    requires buf[48..52] != [0, 0, 0, 0]
    ensures WriteHeaderToBuf(buf, ReadDatabaseHeader(buf)) == buf
  {
    var h := ReadDatabaseHeader(buf);
    IdentityOfRead(buf);
    CountersOfRead(buf);
    SettingsOfRead(buf);
    assert Versions(h) == buf[92..100];
    assert HeaderBytes(h) == buf[..DatabaseHeaderSize];
    assert buf == buf[..DatabaseHeaderSize] + buf[DatabaseHeaderSize..];
  }

  lemma IdentityOfRead(buf: seq<byte>)
    requires |buf| >= DatabaseHeaderSize
    ensures Identity(ReadDatabaseHeader(buf)) == buf[0..24]
  {
    assert buf[0..24] == buf[0..16] + buf[16..18] + [buf[18], buf[19], buf[20], buf[21], buf[22], buf[23]];
  }

  lemma CountersOfRead(buf: seq<byte>)
    requires |buf| >= DatabaseHeaderSize
    requires buf[48..52] != [0, 0, 0, 0]
    ensures Counters(ReadDatabaseHeader(buf)) == buf[24..52]
  {
    assert I32Value(buf[48..52]) != 0 by { ZeroField(buf[48..52]); }
    assert buf[24..52] == buf[24..28] + buf[28..32] + buf[32..36] + buf[36..40]
      + buf[40..44] + buf[44..48] + buf[48..52];
  }

  lemma SettingsOfRead(buf: seq<byte>)
    requires |buf| >= DatabaseHeaderSize
    ensures Settings(ReadDatabaseHeader(buf)) == buf[52..72]
  {
    assert buf[52..72] == buf[52..56] + buf[56..60] + buf[60..64] + buf[64..68] + buf[68..72];
  }

  /** A header read from a buffer whose stored cache size is zero reports -2000. */
  lemma ZeroCacheSizeReadsDefault(buf: seq<byte>)
    requires |buf| >= DatabaseHeaderSize && buf[48..52] == [0, 0, 0, 0]
    ensures ReadDatabaseHeader(buf).defaultPageCacheSize == DefaultCacheSize
  {
    ZeroField(buf[48..52]);
  }

  /** A four-byte signed field is zero exactly when all four bytes are. */
  lemma ZeroField(s: seq<byte>)
    requires |s| == 4
    ensures (SignedBe(s) == 0) == (s == [0, 0, 0, 0])
  {
    assert BeValue(s[..1]) == s[0] by { assert s[..1][..0] == []; }
    assert BeValue(s[..2]) == s[0] as int * 256 + s[1] by { assert s[..2][..1] == s[..1]; }
    assert BeValue(s[..3]) == (s[0] as int * 256 + s[1]) * 256 + s[2] by { assert s[..3][..2] == s[..2]; }
    assert BeValue(s) == BeValue(s[..3]) * 256 + s[3];
  }

  /** The default header is one the file format admits, and it survives a write and a read. */
  lemma DefaultHeaderRoundTrips(buf: seq<byte>)
    requires |buf| >= DatabaseHeaderSize
    ensures WellFormed(DefaultHeader())
    ensures ReadDatabaseHeader(WriteHeaderToBuf(buf, DefaultHeader())) == DefaultHeader()
  {
    ReadWrittenHeader(buf, DefaultHeader());
  }
}
