/** The record format of section 2.1 of the SQLite Database File Format: a header made of
    a varint header size and one serial-type varint per column, followed by the column
    bodies. Integers are big-endian two's complement, text and blobs are raw bytes. */
module Record {
  import opened Wrappers
  import opened Bytes
  import opened Varint

  type SerialType = u64

  const SERIAL_TYPE_NULL: SerialType := 0
  const SERIAL_TYPE_INT8: SerialType := 1
  const SERIAL_TYPE_BEINT16: SerialType := 2
  const SERIAL_TYPE_BEINT24: SerialType := 3
  const SERIAL_TYPE_BEINT32: SerialType := 4
  const SERIAL_TYPE_BEINT48: SerialType := 5
  const SERIAL_TYPE_BEINT64: SerialType := 6
  const SERIAL_TYPE_BEFLOAT64: SerialType := 7
  const SERIAL_TYPE_CONSTINT0: SerialType := 8
  const SERIAL_TYPE_CONSTINT1: SerialType := 9

  /** A decoded column value. A float is kept as its eight stored bytes. */
  datatype Value =
    | Null
    | Integer(i: i64)
    | Float(bits: seq<byte>)
    | Blob(data: seq<byte>)
    | Text(data: seq<byte>)

  predicate IsBlob(st: SerialType) {
    st >= 12 && st % 2 == 0
  }

  predicate IsString(st: SerialType) {
    st >= 13 && st % 2 == 1
  }

  /** Length of a blob column: serial type 12 + 2n holds n bytes. */
  function BlobSize(st: SerialType): (r: nat)
    requires IsBlob(st)
    ensures 12 + 2 * r == st
  {
    (st - 12) / 2
  }

  /** Length of a text column: serial type 13 + 2n holds n bytes. */
  function StringSize(st: SerialType): (r: nat)
    requires IsString(st)
    ensures 13 + 2 * r == st
  {
    (st - 13) / 2
  }

  predicate IsValid(st: SerialType) {
    st <= 9 || IsBlob(st) || IsString(st)
  }

  /** validate_serial_type: every serial type is accepted except the two reserved
      codes 10 and 11, which are Corrupt. */
  function ValidateSerialType(value: u64): (r: Result<SerialType>)
    ensures r.Success? <==> value != 10 && value != 11
    ensures r.Success? ==> r.value == value
    ensures r.Failure? ==> r.error.Corrupt?
  {
    if IsValid(value) then Success(value)
    else Failure(Corrupt)
  }

  /** Width in bytes of the integer serial types 1 to 6. */
  function IntWidth(st: SerialType): (r: nat)
    requires 1 <= st <= 6
  {
    if st <= 4 then st else if st == 5 then 6 else 8
  }

  /** Number of body bytes a column of serial type st occupies, after the table of
      section 2.1 of the SQLite Database File Format. */
  function ContentSize(st: SerialType): nat
    requires IsValid(st)
  {
    if st == 0 || st == 8 || st == 9 then 0
    else if 1 <= st <= 6 then IntWidth(st)
    else if st == 7 then 8
    else if IsBlob(st) then BlobSize(st)
    else StringSize(st)
  }

  lemma HalfMonotone(i: nat, j: nat)
    requires 1 <= i <= j
    ensures Half(i) <= Half(j)
  {
    if i < j {
      HalfMonotone(i, j - 1);
    }
  }

  /** Two's-complement big-endian integer of up to eight bytes, as an i64. */
  function BeInt(s: seq<byte>): (r: i64)
    requires 1 <= |s| <= 8
    ensures r == SignedBe(s)
  {
    SignedValueBytes(s);
    HalfMonotone(|s|, 8);
    assert Half(8) == 0x8000_0000_0000_0000;
    SignedBe(s)
  }

  /** The value v can be stored under serial type st. */
  predicate Matches(st: SerialType, v: Value) {
    match v
    case Null => st == SERIAL_TYPE_NULL
    case Integer(x) =>
      (1 <= st <= 6 && -(Half(IntWidth(st)) as int) <= x < Half(IntWidth(st)))
      || (st == SERIAL_TYPE_CONSTINT0 && x == 0)
      || (st == SERIAL_TYPE_CONSTINT1 && x == 1)
    case Float(bits) => st == SERIAL_TYPE_BEFLOAT64 && |bits| == 8
    case Blob(d) => IsBlob(st) && BlobSize(st) == |d|
    case Text(d) => IsString(st) && StringSize(st) == |d|
  }

  /** The body bytes of v under serial type st: the reference encoder that read_value inverts. */
  function EncodeValue(st: SerialType, v: Value): (r: seq<byte>)
    requires Matches(st, v)
    ensures IsValid(st) && |r| == ContentSize(st)
  {
    match v
    case Null => []
    case Integer(x) => if 1 <= st <= 6 then SignedBeBytes(x, IntWidth(st)) else []
    case Float(bits) => bits
    case Blob(d) => d
    case Text(d) => d
  }

  /** read_value: decodes one column body of serial type st from the front of buf and
      reports how many bytes it consumed. Fails with Corrupt exactly when st is reserved
      or buf is shorter than the column's width; otherwise consumes exactly the width and
      yields a value storable under st. */
  function ReadValue(buf: seq<byte>, st: SerialType): (r: Result<(Value, nat)>)
    ensures r.Failure? <==> !IsValid(st) || |buf| < ContentSize(st)
    ensures r.Failure? ==> r.error.Corrupt?
    ensures r.Success? ==>
              IsValid(st) && r.value.1 == ContentSize(st) && r.value.1 <= |buf|
              && Matches(st, r.value.0)
  {
    if st == SERIAL_TYPE_NULL then Success((Null, 0))
    else if 1 <= st <= 6 then ReadInteger(buf, st)
    else if st == SERIAL_TYPE_BEFLOAT64 then
      if |buf| < 8 then Failure(Corrupt)
      else Success((Float(buf[..8]), 8))
    else if st == SERIAL_TYPE_CONSTINT0 then Success((Integer(0), 0))
    else if st == SERIAL_TYPE_CONSTINT1 then Success((Integer(1), 0))
    else if IsBlob(st) then
      var n := BlobSize(st);
      if |buf| < n then Failure(Corrupt)
      else if n == 0 then Success((Blob([]), 0))
      else Success((Blob(buf[..n]), n))
    else if IsString(st) then
      var n := StringSize(st);
      if |buf| < n then Failure(Corrupt)
      else if n == 0 then Success((Text([]), 0))
      else Success((Text(buf[..n]), n))
    else
      Failure(Corrupt)
  }

  /** The integer branches of read_value (serial types 1 to 6): each needs its width
      of bytes, and the result is the two's-complement value of those bytes. */
  function ReadInteger(buf: seq<byte>, st: SerialType): (r: Result<(Value, nat)>)
    requires 1 <= st <= 6
    ensures r.Failure? <==> |buf| < IntWidth(st)
    ensures r.Failure? ==> r.error.Corrupt?
    ensures r.Success? ==> r.value.1 == IntWidth(st) && r.value.0 == Integer(BeInt(buf[..IntWidth(st)]))
    ensures r.Success? ==> Matches(st, r.value.0)
  {
    var width := IntWidth(st);
    if |buf| < width then Failure(Corrupt)
    else
      var body := buf[..width];
      IntFits(body, st);
      Success((Integer(Widened(body)), width))
  }

  /** The engine reads 24-bit and 48-bit bodies by prefixing sign-extension bytes to
      make 32 and 64 bits; the prefix keeps the two's-complement value. */
  function Widened(body: seq<byte>): (r: i64)
    requires 1 <= |body| <= 6 || |body| == 8
    ensures r == SignedBe(body)
  {
    var ext: byte := if body[0] <= 127 then 0 else 255;
    if |body| == 3 then
      SignExtend(ext, body);
      BeInt([ext] + body)
    else if |body| == 6 then
      SignExtend2(ext, body);
      BeInt([ext, ext] + body)
    else BeInt(body)
  }

  /** Two sign-extension bytes, as used to widen a 48-bit integer to 64 bits. */
  lemma SignExtend2(e: byte, s: seq<byte>)
    requires |s| >= 1
    requires e == (if s[0] <= 127 then 0 else 255)
    ensures SignedBe([e, e] + s) == SignedBe(s)
  {
    SignExtend(e, s);
    SignExtend(e, [e] + s);
    assert [e, e] + s == [e] + ([e] + s);
  }

  /** The signed value of an integer body of serial type st is in st's range and
      re-encodes to the same bytes. */
  lemma IntFits(s: seq<byte>, st: SerialType)
    requires 1 <= st <= 6 && |s| == IntWidth(st)
    ensures -(Half(|s|) as int) <= SignedBe(s) < Half(|s|)
    ensures SignedBeBytes(SignedBe(s), |s|) == s
  {
    SignedValueBytes(s);
  }

  lemma MatchesValid(st: SerialType, v: Value)
    requires Matches(st, v)
    ensures IsValid(st)
  {
  }

  /** read_value inverts the encoder: the full i8/i16/i24/i32/i48/i64 ranges, the two
      constant integers, floats, blobs and text all read back, whatever follows them. */
  lemma ReadValueRoundTrip(st: SerialType, v: Value, rest: seq<byte>)
    requires Matches(st, v)
    ensures ReadValue(EncodeValue(st, v) + rest, st) == Success((v, ContentSize(st)))
  {
    var e := EncodeValue(st, v);
    var buf := e + rest;
    assert buf[..|e|] == e;
    if 1 <= st <= 6 {
      SignedRoundTrip(v.i, IntWidth(st));
      assert ReadInteger(buf, st) == Success((v, IntWidth(st)));
    }
  }

  /** read_value consumes exactly the encoding of the value it returns: no two
      distinct bodies decode to the same value. */
  lemma ReadValueExact(buf: seq<byte>, st: SerialType)
    requires ReadValue(buf, st).Success?
    ensures var (v, n) := ReadValue(buf, st).value; EncodeValue(st, v) == buf[..n]
  {
    if 1 <= st <= 6 {
      IntFits(buf[..IntWidth(st)], st);
      assert ReadValue(buf, st) == ReadInteger(buf, st);
    }
  }

  /** The serial-type varints of a record header (the first loop of read_record):
      buf starts at the first serial type and remaining header bytes are left to read. */
  function ReadSerialTypes(buf: seq<byte>, remaining: nat): (r: Result<seq<SerialType>>)
    ensures r.Success? ==> remaining <= |buf| && |r.value| <= remaining
    ensures r.Success? ==> forall i :: 0 <= i < |r.value| ==> IsValid(r.value[i])
    decreases remaining
  {
    if remaining == 0 then Success([])
    else
      var (serialType, nr) :- ReadVarint(buf);
      var st :- ValidateSerialType(serialType);
      if remaining < nr then Failure(Panic)
      else
        var tail :- ReadSerialTypes(buf[nr..], remaining - nr);
        Success([st] + tail)
  }

  /** Every serial type in the list is one read_value accepts. */
  predicate AllValid(types: seq<SerialType>) {
    forall i :: 0 <= i < |types| ==> IsValid(types[i])
  }

  /** The number of body bytes the columns of the given types take together. */
  function BodySize(types: seq<SerialType>): nat
    requires AllValid(types)
  {
    if |types| == 0 then 0 else ContentSize(types[0]) + BodySize(types[1..])
  }

  /** The column bodies, one per serial type, read from the front of buf (the second
      loop of read_record). It never aborts; with valid serial types it fails exactly
      when the bodies do not fit in the buffer. */
  function ReadValues(buf: seq<byte>, types: seq<SerialType>): (r: Result<seq<Value>>)
    ensures r.Failure? ==> r.error == Corrupt
    ensures AllValid(types) ==> (r.Success? <==> BodySize(types) <= |buf|)
    ensures r.Success? ==> |r.value| == |types|
    ensures r.Success? ==> forall i :: 0 <= i < |types| ==> Matches(types[i], r.value[i])
    decreases |types|
  {
    if |types| == 0 then Success([])
    else
      var (v, n) :- ReadValue(buf, types[0]);
      var tail :- ReadValues(buf[n..], types[1..]);
      Success([v] + tail)
  }

  /** read_record: decodes the header and then every column of a record payload.
      A header size smaller than its own varint, or a serial-type varint running past
      the header size, is an assertion failure in the engine (Panic). Each column takes
      at least one header byte, so a record never has more columns than its payload
      has bytes after the header-size varint. */
  function ReadRecord(payload: seq<byte>): (r: Result<seq<Value>>)
    ensures r.Success? ==> |r.value| < |payload|
    ensures ReadVarint(payload).Failure? ==> r == Failure(ReadVarint(payload).error)
    ensures var hv := ReadVarint(payload);
            hv.Success? && hv.value.0 < hv.value.1 ==> r == Failure(Panic)
    ensures var hv := ReadVarint(payload);
            hv.Success? && hv.value.1 <= hv.value.0 ==>
              var types := ReadSerialTypes(payload[hv.value.1..], hv.value.0 - hv.value.1);
              (types.Failure? ==> r == Failure(types.error))
              && (types.Success? ==>
                    hv.value.0 <= |payload| && AllValid(types.value)
                    && (r.Success? <==> hv.value.0 + BodySize(types.value) <= |payload|))
  {
    var (headerSize, nr) :- ReadVarint(payload);
    if headerSize < nr then Failure(Panic)
    else
      var types :- ReadSerialTypes(payload[nr..], headerSize - nr);
      ReadValues(payload[headerSize..], types)
  }

  /** Concatenated serial-type varints of a record header (reference encoder). */
  function HeaderTypes(types: seq<SerialType>): seq<byte>
  {
    if |types| == 0 then [] else EncodeVarint(types[0]) + HeaderTypes(types[1..])
  }

  /** Concatenated column bodies (reference encoder). */
  function Bodies(types: seq<SerialType>, values: seq<Value>): seq<byte>
    requires |types| == |values|
    requires forall i :: 0 <= i < |types| ==> Matches(types[i], values[i])
  {
    if |types| == 0 then [] else EncodeValue(types[0], values[0]) + Bodies(types[1..], values[1..])
  }

  /** A record: header-size varint (counting itself), serial types, bodies. */
  function EncodeRecord(headerSize: u64, types: seq<SerialType>, values: seq<Value>): seq<byte>
    requires |types| == |values|
    requires forall i :: 0 <= i < |types| ==> Matches(types[i], values[i])
  {
    EncodeVarint(headerSize) + HeaderTypes(types) + Bodies(types, values)
  }

  /** The header loop reads back the serial types whose varints it is given. */
  lemma {:induction false} ReadSerialTypesEncoded(types: seq<SerialType>, rest: seq<byte>)
    requires forall i :: 0 <= i < |types| ==> IsValid(types[i])
    ensures ReadSerialTypes(HeaderTypes(types) + rest, |HeaderTypes(types)|) == Success(types)
    decreases |types|
  {
    if |types| > 0 {
      var e := EncodeVarint(types[0]);
      var tail := HeaderTypes(types[1..]);
      var buf := HeaderTypes(types) + rest;
      assert buf == e + (tail + rest);
      ReadEncoded(types[0], tail + rest);
      assert buf[|e|..] == tail + rest;
      ReadSerialTypesEncoded(types[1..], rest);
      assert [types[0]] + types[1..] == types;
    }
  }

  /** The body loop reads back the values whose encodings it is given. */
  lemma {:induction false} ReadValuesEncoded(types: seq<SerialType>, values: seq<Value>, rest: seq<byte>)
    requires |types| == |values|
    requires forall i :: 0 <= i < |types| ==> Matches(types[i], values[i])
    ensures ReadValues(Bodies(types, values) + rest, types) == Success(values)
    decreases |types|
  {
    if |types| > 0 {
      var e := EncodeValue(types[0], values[0]);
      var tail := Bodies(types[1..], values[1..]);
      var buf := Bodies(types, values) + rest;
      assert buf == e + (tail + rest);
      ReadValueRoundTrip(types[0], values[0], tail + rest);
      assert buf[|e|..] == tail + rest;
      ReadValuesEncoded(types[1..], values[1..], rest);
      assert [values[0]] + values[1..] == values;
    }
  }

  /** Record round trip: a record whose header size counts its own varint reads back
      as exactly its column values, whatever bytes follow it. */
  lemma ReadRecordRoundTrip(headerSize: u64, types: seq<SerialType>, values: seq<Value>, rest: seq<byte>)
    requires |types| == |values|
    requires forall i :: 0 <= i < |types| ==> Matches(types[i], values[i])
    requires headerSize == |EncodeVarint(headerSize)| + |HeaderTypes(types)|
    ensures ReadRecord(EncodeRecord(headerSize, types, values) + rest) == Success(values)
  {
    var h := EncodeVarint(headerSize);
    var ht := HeaderTypes(types);
    var b := Bodies(types, values);
    forall i | 0 <= i < |types|
      ensures IsValid(types[i])
    {
      MatchesValid(types[i], values[i]);
    }
    ReadEncoded(headerSize, ht + (b + rest));
    ReadSerialTypesEncoded(types, b + rest);
    ReadValuesEncoded(types, values, rest);
    ReadRecordOfParts(h, ht, b, rest, headerSize, types, values);
  }

  /** read_record over a header-size varint h, serial types ht and bodies b, each of
      which reads back on its own. */
  lemma ReadRecordOfParts(h: seq<byte>, ht: seq<byte>, b: seq<byte>, rest: seq<byte>,
                          headerSize: u64, types: seq<SerialType>, values: seq<Value>)
    requires ReadVarint(h + (ht + (b + rest))) == Success((headerSize, |h|))
    requires headerSize == |h| + |ht|
    requires ReadSerialTypes(ht + (b + rest), |ht|) == Success(types)
    requires ReadValues(b + rest, types) == Success(values)
    ensures ReadRecord(h + ht + b + rest) == Success(values)
  {
    var payload := h + ht + b + rest;
    assert payload == h + (ht + (b + rest)) && payload[|h|..] == ht + (b + rest)
           && payload[|h| + |ht|..] == b + rest by {
      Layout(h, ht, b, rest);
    }
    ReadRecordSteps(payload, headerSize, |h|, types, values, ht + (b + rest), b + rest);
  }

  /** Where the header types and the bodies start inside an encoded record. */
  lemma Layout(h: seq<byte>, ht: seq<byte>, b: seq<byte>, rest: seq<byte>)
    ensures h + ht + b + rest == h + (ht + (b + rest))
    ensures (h + ht + b + rest)[|h|..] == ht + (b + rest)
    ensures (h + ht + b + rest)[|h| + |ht|..] == b + rest
  {
  }

  /** read_record succeeds when its header-size varint, its header loop and its body
      loop each do. */
  lemma ReadRecordSteps(payload: seq<byte>, headerSize: u64, nr: nat, types: seq<SerialType>, values: seq<Value>,
                        header: seq<byte>, bodies: seq<byte>)
    requires ReadVarint(payload) == Success((headerSize, nr))
    requires nr <= headerSize <= |payload|
    requires payload[nr..] == header && payload[headerSize..] == bodies
    requires ReadSerialTypes(header, headerSize - nr) == Success(types)
    requires ReadValues(bodies, types) == Success(values)
    ensures ReadRecord(payload) == Success(values)
  {
  }

}
