/** B-tree pages and cells (sections 1.6, B-tree Pages, and 1.7, Cell Payload Overflow
    Pages, of the SQLite Database File Format): the page-type byte, the page header,
    how a cell's payload is split between the page and its overflow chain, and how a
    cell is decoded and measured. */
module BTree {
  import opened Wrappers
  import opened Bytes
  import opened Varint

  datatype PageType = IndexInterior | TableInterior | IndexLeaf | TableLeaf

  /** The byte each page type is stored as. */
  function TypeByte(t: PageType): byte
  {
    match t
    case IndexInterior => 2
    case TableInterior => 5
    case IndexLeaf => 10
    case TableLeaf => 13
  }

  predicate IsLeafType(t: PageType) {
    t == IndexLeaf || t == TableLeaf
  }

  predicate IsIndexType(t: PageType) {
    t == IndexInterior || t == IndexLeaf
  }

  /** Bit 3 of the page-type byte, which the file format sets on leaf pages. */
  predicate LeafFlag(b: byte) {
    b / 8 % 2 == 1
  }

  /** `PageType::try_from`: only the four type bytes decode; anything else is corruption. */
  function PageTypeFromByte(b: byte): (r: Result<PageType>)
    ensures r.Success? <==> b in {2, 5, 10, 13}
    ensures r.Success? ==> TypeByte(r.value) == b
    ensures r.Failure? ==> r.error.Corrupt?
  {
    if b == 2 then Success(IndexInterior)
    else if b == 5 then Success(TableInterior)
    else if b == 10 then Success(IndexLeaf)
    else if b == 13 then Success(TableLeaf)
    else Failure(Corrupt)
  }

  /** Decoding inverts the stored representation. */
  lemma PageTypeRoundTrip(t: PageType)
    ensures PageTypeFromByte(TypeByte(t)) == Success(t)
  {
  }

  /** A page: its buffer and the offset of the b-tree page header inside it
      (100 on page 1, after the database header; 0 elsewhere). */
  datatype PageContent = PageContent(offset: nat, buf: seq<byte>)

  predicate HasPageType(p: PageContent) {
    p.offset < |p.buf| && PageTypeFromByte(p.buf[p.offset]).Success?
  }

  /** `page_type`. The source unwraps the decoded byte, so only pages with a valid
      type byte are in its domain. */
  function PageTypeOf(p: PageContent): (t: PageType)
    requires HasPageType(p)
    ensures TypeByte(t) == p.buf[p.offset]
  {
    PageTypeFromByte(p.buf[p.offset]).value
  }

  /** `is_leaf`: agrees with the leaf bit of the type byte. */
  function IsLeaf(p: PageContent): (r: bool)
    requires HasPageType(p)
    ensures r <==> LeafFlag(p.buf[p.offset])
  {
    match PageTypeOf(p)
    case IndexInterior => false
    case TableInterior => false
    case IndexLeaf => true
    case TableLeaf => true
  }

  /** `header_size`: the b-tree page header is 8 bytes on leaves and 12 on interior
      pages, whose last four bytes hold the right-most child pointer. */
  function HeaderSize(p: PageContent): (r: nat)
    requires HasPageType(p)
    ensures r == if LeafFlag(p.buf[p.offset]) then 8 else 12
  {
    match PageTypeOf(p)
    case IndexInterior => 12
    case TableInterior => 12
    case IndexLeaf => 8
    case TableLeaf => 8
  }

  /** `rightmost_pointer`: present exactly on interior pages, read from header bytes 8..12. */
  function RightmostPointer(p: PageContent): (r: Option<u32>)
    requires HasPageType(p)
    requires !IsLeafType(PageTypeOf(p)) ==> p.offset + 12 <= |p.buf|
    ensures r.Some? <==> !LeafFlag(p.buf[p.offset])
    ensures r.Some? ==> BeBytes(r.value, 4) == p.buf[p.offset + 8..p.offset + 12]
  {
    match PageTypeOf(p)
    case IndexInterior => Some(ReadU32(p.buf, p.offset + 8))
    case TableInterior => Some(ReadU32(p.buf, p.offset + 8))
    case IndexLeaf => None
    case TableLeaf => None
  }

  /** The three page-header accessors agree: a page has the 12-byte header exactly
      when it is not a leaf, and exactly when it has a right-most pointer. */
  lemma HeaderAccessorsAgree(p: PageContent)
    requires HasPageType(p) && p.offset + 12 <= |p.buf|
    ensures HeaderSize(p) == 12 <==> !IsLeaf(p)
    ensures RightmostPointer(p).Some? <==> !IsLeaf(p)
    ensures IsLeaf(p) <==> IsLeafType(PageTypeOf(p))
  {
  }

  /** `cell_count`: header bytes 3..5. */
  function CellCount(p: PageContent): (r: u16)
    requires p.offset + 5 <= |p.buf|
    ensures BeBytes(r, 2) == p.buf[p.offset + 3..p.offset + 5]
  {
    ReadU16(p.buf, p.offset + 3)
  }

  /** `payload_overflows`: whether a payload of the given size spills onto overflow
      pages, and if so how many bytes the cell keeps on the page, counting the 4-byte
      pointer to the first overflow page (LocalPartChoice says which local size is
      chosen). The source's usize arithmetic aborts when the payload is below minLocal
      or the usable size is at most 4, so those are excluded. */
  function PayloadOverflows(payloadSize: nat, maxLocal: nat, minLocal: nat, usableSize: nat): (r: (bool, nat))
    requires payloadSize > maxLocal ==> minLocal <= payloadSize && usableSize > 4
    ensures !r.0 <==> payloadSize <= maxLocal
    ensures !r.0 ==> r.1 == 0
    ensures r.0 ==> r.1 >= minLocal + 4
    ensures r.0 && minLocal <= maxLocal ==> r.1 <= maxLocal + 4
  {
    if payloadSize <= maxLocal then (false, 0)
    else
      var spaceLeft := minLocal + (payloadSize - minLocal) % (usableSize - 4);
      var spaceLeft := if spaceLeft > maxLocal then minLocal else spaceLeft;
      (true, spaceLeft + 4)
  }

  /** k bytes kept locally leave an overflow chain of whole overflow pages (each holds
      the usable size minus its 4-byte next pointer), and k is the least such value
      from minLocal up. */
  predicate FillsPages(payloadSize: nat, k: nat, minLocal: nat, usableSize: nat)
    requires usableSize > 4
  {
    minLocal <= k < minLocal + (usableSize - 4) && k <= payloadSize
    && (payloadSize - k) % (usableSize - 4) == 0
  }

  /** Which local size `payload_overflows` picks: the one that fills the overflow pages
      exactly, if it fits under maxLocal, and otherwise minLocal, in which case no
      local size that fills the pages fits. */
  lemma LocalPartChoice(payloadSize: nat, maxLocal: nat, minLocal: nat, usableSize: nat)
    requires minLocal <= maxLocal < payloadSize && usableSize > 4
    ensures var k := PayloadOverflows(payloadSize, maxLocal, minLocal, usableSize).1 - 4;
            || (FillsPages(payloadSize, k, minLocal, usableSize) && k <= maxLocal)
            || (k == minLocal && forall j: nat :: FillsPages(payloadSize, j, minLocal, usableSize) ==> j > maxLocal)
  {
    var d := usableSize - 4;
    var m := payloadSize - minLocal;
    var j0 := minLocal + m % d;
    RemainderFills(m, d);
    assert FillsPages(payloadSize, j0, minLocal, usableSize);
    forall j: nat | FillsPages(payloadSize, j, minLocal, usableSize)
      ensures j == j0
    {
      ModUnique(m, j - minLocal, d);
    }
  }

  /** Taking away the remainder leaves a multiple. */
  lemma RemainderFills(m: nat, d: nat)
    requires d > 0
    ensures m % d <= m && (m - m % d) % d == 0
  {
    var q := m / d;
    assert m == q * d + m % d;
    MulMono(q, -1, d);
    DivModUnique(m - m % d, d, q, 0);
  }

  /** The remainder is the only value in [0, d) that leaves a multiple of d. */
  lemma ModUnique(m: nat, j: nat, d: nat)
    requires d > 0 && j < d && j <= m && (m - j) % d == 0
    ensures m % d == j
  {
    var q := (m - j) / d;
    assert m - j == q * d + (m - j) % d;
    DivModUnique(m, d, q, j);
  }

  /** Euclidean division is unique. */
  lemma DivModUnique(x: int, d: int, q: int, r: int)
    requires d > 0 && 0 <= r < d && x == q * d + r
    ensures x / d == q && x % d == r
  {
    var q2 := x / d;
    var r2 := x % d;
    assert x == q2 * d + r2;
    assert (q - q2) * d == r2 - r;
    SmallMultiple(q - q2, d);
  }

  lemma SmallMultiple(a: int, d: int)
    requires d > 0 && -d < a * d < d
    ensures a == 0
  {
    MulMono(1, a, d);
    MulMono(a, -1, d);
  }

  lemma MulMono(a: int, b: int, d: int)
    requires d >= 0
    ensures a <= b ==> a * d <= b * d
  {
    if a <= b {
      assert b * d - a * d == (b - a) * d;
    }
  }

  /** With the thresholds SQLite derives from a usable size above 8 (maxLocal at least
      minLocal + 4), an overflowing payload is always longer than what stays on the page,
      so the overflow chain is never empty. */
  lemma OverflowLeavesRemainder(payloadSize: nat, maxLocal: nat, minLocal: nat, usableSize: nat)
    requires Thresholds(maxLocal, minLocal, usableSize) && payloadSize > maxLocal
    ensures payloadSize > PayloadOverflows(payloadSize, maxLocal, minLocal, usableSize).1
  {
    var d := usableSize - 4;
    var m := payloadSize - minLocal;
    var k := minLocal + m % d;
    if k <= maxLocal {
      ModOfSmall(m, d);
      assert m >= d;
      WholeQuotient(m, d);
    }
  }

  lemma ModOfSmall(m: nat, d: nat)
    requires d > 0
    ensures m < d ==> m % d == m
  {
    if m < d {
      DivModUnique(m, d, 0, m);
    }
  }

  lemma WholeQuotient(m: nat, d: nat)
    requires 0 < d <= m
    ensures m - m % d >= d
  {
    var q := m / d;
    assert m == q * d + m % d;
    MulMono(q, 0, d);
    MulMono(1, q, d);
  }
  /** Overflow thresholds under which the cell codec round-trips. */
  predicate Thresholds(maxLocal: nat, minLocal: nat, usableSize: nat) {
    usableSize > 8 && minLocal + 4 <= maxLocal
  }

  /** `read_payload`: the bytes kept on the page and, when the payload does not fit
      in them, the first overflow page number taken from their last four bytes. */
  function ReadPayload(unread: seq<byte>, payloadSize: nat): (r: (seq<byte>, Option<u32>))
    requires payloadSize > |unread| ==> |unread| >= 4
    ensures r.1.None? <==> payloadSize <= |unread|
    ensures r.1.None? ==> r.0 == unread[..payloadSize]
    ensures r.1.Some? ==> r.0 + BeBytes(r.1.value, 4) == unread
  {
    var cellLen := |unread|;
    if payloadSize <= cellLen then (unread[..payloadSize], None)
    else
      var firstOverflowPage := ReadU32(unread, cellLen - 4);
      assert unread == unread[..cellLen - 4] + unread[cellLen - 4..cellLen];
      (unread[..cellLen - 4], Some(firstOverflowPage))
  }

  /** Reading back a local part followed by an overflow pointer. */
  lemma ReadPayloadOfSplit(local: seq<byte>, next: u32, payloadSize: nat)
    requires payloadSize > |local| + 4
    ensures ReadPayload(local + BeBytes(next, 4), payloadSize) == (local, Some(next))
  {
    var r := ReadPayload(local + BeBytes(next, 4), payloadSize);
    assert r.0 + BeBytes(r.1.value, 4) == local + BeBytes(next, 4);
    assert r.0 == (r.0 + BeBytes(r.1.value, 4))[..|local|];
    assert BeBytes(r.1.value, 4) == (local + BeBytes(next, 4))[|local|..];
    assert BeValue(BeBytes(r.1.value, 4)) == r.1.value;
  }

  datatype BTreeCell =
    | TableInteriorCell(leftChildPage: u32, rowid: u64)
    | TableLeafCell(rowid: u64, payload: seq<byte>, payloadSize: u64, firstOverflowPage: Option<u32>)
    | IndexInteriorCell(leftChildPage: u32, payload: seq<byte>, payloadSize: u64, firstOverflowPage: Option<u32>)
    | IndexLeafCell(payload: seq<byte>, firstOverflowPage: Option<u32>, payloadSize: u64)

  function CellTypeOf(c: BTreeCell): PageType
  {
    match c
    case TableInteriorCell(_, _) => TableInterior
    case TableLeafCell(_, _, _, _) => TableLeaf
    case IndexInteriorCell(_, _, _, _) => IndexInterior
    case IndexLeafCell(_, _, _) => IndexLeaf
  }

  /** `read_varint(&page[pos..])`: a slice start past the end aborts; otherwise it is
      read_varint of the rest of the page. */
  function VarintAt(page: seq<byte>, pos: nat): (r: Result<(u64, nat)>)
    ensures r.Success? ==> 1 <= r.value.1 && pos + r.value.1 <= |page|
    ensures pos > |page| ==> r == Failure(Panic)
  {
    if pos > |page| then Failure(Panic)
    else ReadFrom(page, pos, 0, 0)
  }

  lemma VarintAtSlice(page: seq<byte>, pos: nat)
    requires pos <= |page|
    ensures VarintAt(page, pos) == ReadVarint(page[pos..])
  {
    ReadFromShift(page, pos, 0, 0);
  }

  lemma VarintAtEncoded(page: seq<byte>, pos: nat, v: u64, rest: seq<byte>)
    requires pos <= |page| && page[pos..] == EncodeVarint(v) + rest
    ensures VarintAt(page, pos) == Success((v, |EncodeVarint(v)|))
    ensures page[pos + |EncodeVarint(v)|..] == rest
  {
    VarintAtSlice(page, pos);
    ReadEncoded(v, rest);
    assert page[pos + |EncodeVarint(v)|..] == page[pos..][|EncodeVarint(v)|..];
  }

  /** `payload_overflows` called where the source's usize arithmetic may abort. */
  function CheckedPayloadOverflows(payloadSize: nat, maxLocal: nat, minLocal: nat, usableSize: nat): (r: Result<(bool, nat)>)
    ensures r.Success? <==> (payloadSize > maxLocal ==> minLocal <= payloadSize && usableSize > 4)
    ensures r.Failure? ==> r.error.Panic?
  {
    if payloadSize > maxLocal && (payloadSize < minLocal || usableSize <= 4) then
      Failure(Panic)
    else
      Success(PayloadOverflows(payloadSize, maxLocal, minLocal, usableSize))
  }

  /** The payload part of `read_btree_cell`: an overflowing payload keeps the bytes
      `payload_overflows` allots to it; one that fits is read from the rest of the page.
      Slicing from past the end of the page aborts. */
  function LocalPayload(page: seq<byte>, pos: nat, payloadSize: nat, maxLocal: nat, minLocal: nat, usableSize: nat)
    : (r: Result<(seq<byte>, Option<u32>)>)
    ensures r.Success? ==> pos + |r.value.0| + |OverflowPointerBytes(r.value.1)| <= |page|
  {
    var (overflows, toRead) :- CheckedPayloadOverflows(payloadSize, maxLocal, minLocal, usableSize);
    if pos > |page| then Failure(Panic)
    else
      var toRead := if overflows then toRead else |page| - pos;
      if pos + toRead > |page| then Failure(Panic)
      else if payloadSize > toRead && toRead < 4 then Failure(Panic)
      else Success(ReadPayload(page[pos..pos + toRead], payloadSize))
  }

  function OverflowPointerBytes(next: Option<u32>): (r: seq<byte>)
    ensures |r| == if next.Some? then 4 else 0
  {
    if next.Some? then BeBytes(next.value, 4) else []
  }

  /** The fields a cell is made of. */
  datatype Field = LeftChild | PayloadSize | Rowid | Payload

  /** The fields a cell of each page type holds, in the order they are stored:
      the left child pointer (interior pages), the payload size (all but
      table-interior pages), the rowid (table pages) and the payload. */
  function Layout(t: PageType): seq<Field>
  {
    match t
    case IndexInterior => [LeftChild, PayloadSize, Payload]
    case TableInterior => [LeftChild, Rowid]
    case IndexLeaf => [PayloadSize, Payload]
    case TableLeaf => [PayloadSize, Rowid, Payload]
  }

  /** Field values gathered while a cell is decoded; those a layout lacks keep
      whatever value they started with. */
  datatype Fields = Fields(leftChild: u32, payloadSize: u64, rowid: u64, payload: seq<byte>,
                           firstOverflowPage: Option<u32>)

  const NoFields := Fields(0, 0, 0, [], None)

  /** The cell of a page of type t made of the given fields. */
  function CellOf(t: PageType, f: Fields): (c: BTreeCell)
    ensures CellTypeOf(c) == t
  {
    match t
    case IndexInterior => IndexInteriorCell(f.leftChild, f.payload, f.payloadSize, f.firstOverflowPage)
    case TableInterior => TableInteriorCell(f.leftChild, f.rowid)
    case IndexLeaf => IndexLeafCell(f.payload, f.firstOverflowPage, f.payloadSize)
    case TableLeaf => TableLeafCell(f.rowid, f.payload, f.payloadSize, f.firstOverflowPage)
  }

  /** The fields of a cell, with NoFields' values for those it lacks. */
  function FieldsOf(c: BTreeCell): (f: Fields)
    ensures CellOf(CellTypeOf(c), f) == c
  {
    match c
    case TableInteriorCell(left, rowid) => NoFields.(leftChild := left, rowid := rowid)
    case TableLeafCell(rowid, payload, size, next) =>
      NoFields.(rowid := rowid, payload := payload, payloadSize := size, firstOverflowPage := next)
    case IndexInteriorCell(left, payload, size, next) =>
      NoFields.(leftChild := left, payload := payload, payloadSize := size, firstOverflowPage := next)
    case IndexLeafCell(payload, next, size) =>
      NoFields.(payload := payload, payloadSize := size, firstOverflowPage := next)
  }

  // Decoding. `read_btree_cell` reads the fields of its page type's layout one after
  // the other, each from where the previous one ended; ReadFields does the same for
  // any layout. The step for each kind of field is its own function.

  /** `read_btree_cell`: decodes the cell at pos of a page of the given type. */
  function ReadBTreeCell(page: seq<byte>, pageType: PageType, pos: nat, maxLocal: nat, minLocal: nat, usableSize: nat)
    : (r: Result<BTreeCell>)
    ensures r.Success? ==> CellTypeOf(r.value) == pageType
  {
    var fields :- ReadFields(page, pos, Layout(pageType), NoFields, maxLocal, minLocal, usableSize);
    Success(CellOf(pageType, fields))
  }

  function ReadFields(page: seq<byte>, pos: nat, layout: seq<Field>, acc: Fields,
                      maxLocal: nat, minLocal: nat, usableSize: nat): Result<Fields>
    decreases |layout|, 2
  {
    if layout == [] then Success(acc)
    else ReadField(page, pos, layout[0], layout[1..], acc, maxLocal, minLocal, usableSize)
  }

  function ReadField(page: seq<byte>, pos: nat, x: Field, rest: seq<Field>, acc: Fields,
                     maxLocal: nat, minLocal: nat, usableSize: nat): Result<Fields>
    decreases |rest| + 1, 1
  {
    match x
    case LeftChild => ReadLeftChild(page, pos, rest, acc, maxLocal, minLocal, usableSize)
    case PayloadSize => ReadPayloadSize(page, pos, rest, acc, maxLocal, minLocal, usableSize)
    case Rowid => ReadRowid(page, pos, rest, acc, maxLocal, minLocal, usableSize)
    case Payload => ReadLocalPayload(page, pos, rest, acc, maxLocal, minLocal, usableSize)
  }

  /** The left child page number: four big-endian bytes. */
  function ReadLeftChild(page: seq<byte>, pos: nat, rest: seq<Field>, acc: Fields,
                         maxLocal: nat, minLocal: nat, usableSize: nat): Result<Fields>
    decreases |rest| + 1, 0
  {
    if pos + 4 > |page| then Failure(Panic)
    else ReadFields(page, pos + 4, rest, acc.(leftChild := ReadU32(page, pos)), maxLocal, minLocal, usableSize)
  }

  function ReadPayloadSize(page: seq<byte>, pos: nat, rest: seq<Field>, acc: Fields,
                           maxLocal: nat, minLocal: nat, usableSize: nat): Result<Fields>
    decreases |rest| + 1, 0
  {
    var (size, n) :- VarintAt(page, pos);
    ReadFields(page, pos + n, rest, acc.(payloadSize := size), maxLocal, minLocal, usableSize)
  }

  function ReadRowid(page: seq<byte>, pos: nat, rest: seq<Field>, acc: Fields,
                     maxLocal: nat, minLocal: nat, usableSize: nat): Result<Fields>
    decreases |rest| + 1, 0
  {
    var (rowid, n) :- VarintAt(page, pos);
    ReadFields(page, pos + n, rest, acc.(rowid := rowid), maxLocal, minLocal, usableSize)
  }

  /** The payload, whose size an earlier field gave. */
  function ReadLocalPayload(page: seq<byte>, pos: nat, rest: seq<Field>, acc: Fields,
                            maxLocal: nat, minLocal: nat, usableSize: nat): Result<Fields>
    decreases |rest| + 1, 0
  {
    var (payload, next) :- LocalPayload(page, pos, acc.payloadSize, maxLocal, minLocal, usableSize);
    ReadFields(page, pos + |payload| + |OverflowPointerBytes(next)|, rest,
               acc.(payload := payload, firstOverflowPage := next), maxLocal, minLocal, usableSize)
  }

  // The cell layout of section 1.6: the reference the decoder is checked against.

  /** The bytes of a cell on its page: left child pointer (interior pages), payload
      size varint (all but table-interior), rowid varint (tables), the local payload
      and, when the payload overflows, the first overflow page number. */
  function EncodeCell(c: BTreeCell): seq<byte>
  {
    match c
    case TableInteriorCell(left, rowid) => BeBytes(left, 4) + EncodeVarint(rowid)
    case TableLeafCell(rowid, payload, size, next) =>
      EncodeVarint(size) + (EncodeVarint(rowid) + (payload + OverflowPointerBytes(next)))
    case IndexInteriorCell(left, payload, size, next) =>
      BeBytes(left, 4) + (EncodeVarint(size) + (payload + OverflowPointerBytes(next)))
    case IndexLeafCell(payload, next, size) =>
      EncodeVarint(size) + (payload + OverflowPointerBytes(next))
  }

  /** The local payload and overflow pointer agree with `payload_overflows`. */
  predicate LocalPartAgrees(payload: seq<byte>, size: nat, next: Option<u32>, maxLocal: nat, minLocal: nat, usableSize: nat)
    requires Thresholds(maxLocal, minLocal, usableSize)
  {
    var (overflows, toRead) := PayloadOverflows(size, maxLocal, minLocal, usableSize);
    if overflows then next.Some? && |payload| + 4 == toRead
    else next.None? && |payload| == size
  }

  /** A cell as it would be stored by SQLite under the given thresholds. */
  predicate Consistent(c: BTreeCell, maxLocal: nat, minLocal: nat, usableSize: nat)
    requires Thresholds(maxLocal, minLocal, usableSize)
  {
    c.TableInteriorCell? || LocalPartAgrees(c.payload, c.payloadSize, c.firstOverflowPage, maxLocal, minLocal, usableSize)
  }

  /** The bytes of one field. */
  function EncodeField(x: Field, f: Fields): seq<byte>
  {
    match x
    case LeftChild => BeBytes(f.leftChild, 4)
    case PayloadSize => EncodeVarint(f.payloadSize)
    case Rowid => EncodeVarint(f.rowid)
    case Payload => f.payload + OverflowPointerBytes(f.firstOverflowPage)
  }

  function EncodeFields(layout: seq<Field>, f: Fields): seq<byte>
    decreases |layout|
  {
    if layout == [] then [] else EncodeField(layout[0], f) + EncodeFields(layout[1..], f)
  }

  /** acc with its field x set to the value it has in f. */
  function Take(acc: Fields, f: Fields, x: Field): Fields
  {
    match x
    case LeftChild => acc.(leftChild := f.leftChild)
    case PayloadSize => acc.(payloadSize := f.payloadSize)
    case Rowid => acc.(rowid := f.rowid)
    case Payload => acc.(payload := f.payload, firstOverflowPage := f.firstOverflowPage)
  }

  /** acc with every field of the layout set to its value in f. */
  function Merge(acc: Fields, f: Fields, layout: seq<Field>): Fields
    decreases |layout|
  {
    if layout == [] then acc else Merge(Take(acc, f, layout[0]), f, layout[1..])
  }

  /** The payload comes after its size, or its size is already known. */
  predicate SizeReady(layout: seq<Field>, known: bool)
    decreases |layout|
  {
    layout == [] || ((layout[0] == Payload ==> known) && SizeReady(layout[1..], known || layout[0] == PayloadSize))
  }

  /** Every page type stores a cell as the concatenation of its layout's fields,
      the payload after its size. */
  lemma LayoutOfCell(c: BTreeCell)
    ensures EncodeCell(c) == EncodeFields(Layout(CellTypeOf(c)), FieldsOf(c))
    ensures forall known :: SizeReady(Layout(CellTypeOf(c)), known)
    ensures CellOf(CellTypeOf(c), Merge(NoFields, FieldsOf(c), Layout(CellTypeOf(c)))) == c
  {
    LayoutEncodes(c);
    LayoutSizeReady(CellTypeOf(c));
    LayoutMerges(c);
  }

  lemma LayoutEncodes(c: BTreeCell)
    ensures EncodeCell(c) == EncodeFields(Layout(CellTypeOf(c)), FieldsOf(c))
  {
    match c
    case TableInteriorCell(_, _) => TableInteriorLayout(c);
    case TableLeafCell(_, _, _, _) => TableLeafLayout(c);
    case IndexInteriorCell(_, _, _, _) => IndexInteriorLayout(c);
    case IndexLeafCell(_, _, _) => IndexLeafLayout(c);
  }

  lemma TableInteriorLayout(c: BTreeCell)
    requires c.TableInteriorCell?
    ensures EncodeCell(c) == EncodeFields(Layout(CellTypeOf(c)), FieldsOf(c))
  {
    var f := FieldsOf(c);
    var layout := Layout(CellTypeOf(c));
    assert layout[1..] == [Rowid];
    assert EncodeFields(layout, f) == EncodeField(LeftChild, f) + EncodeFields([Rowid], f);
    assert EncodeFields([Rowid], f) == EncodeField(Rowid, f) + [];
  }

  lemma TableLeafLayout(c: BTreeCell)
    requires c.TableLeafCell?
    ensures EncodeCell(c) == EncodeFields(Layout(CellTypeOf(c)), FieldsOf(c))
  {
    var f := FieldsOf(c);
    var layout := Layout(CellTypeOf(c));
    assert layout[1..] == [Rowid, Payload] && layout[1..][1..] == [Payload];
    assert EncodeFields(layout, f) == EncodeField(PayloadSize, f) + EncodeFields([Rowid, Payload], f);
    assert EncodeFields([Rowid, Payload], f) == EncodeField(Rowid, f) + EncodeFields([Payload], f);
    assert EncodeFields([Payload], f) == EncodeField(Payload, f) + [];
  }

  lemma IndexInteriorLayout(c: BTreeCell)
    requires c.IndexInteriorCell?
    ensures EncodeCell(c) == EncodeFields(Layout(CellTypeOf(c)), FieldsOf(c))
  {
    var f := FieldsOf(c);
    var layout := Layout(CellTypeOf(c));
    assert layout[1..] == [PayloadSize, Payload] && layout[1..][1..] == [Payload];
    assert EncodeFields(layout, f) == EncodeField(LeftChild, f) + EncodeFields([PayloadSize, Payload], f);
    assert EncodeFields([PayloadSize, Payload], f) == EncodeField(PayloadSize, f) + EncodeFields([Payload], f);
    assert EncodeFields([Payload], f) == EncodeField(Payload, f) + [];
  }

  lemma IndexLeafLayout(c: BTreeCell)
    requires c.IndexLeafCell?
    ensures EncodeCell(c) == EncodeFields(Layout(CellTypeOf(c)), FieldsOf(c))
  {
    var f := FieldsOf(c);
    var layout := Layout(CellTypeOf(c));
    assert layout[1..] == [Payload];
    assert EncodeFields(layout, f) == EncodeField(PayloadSize, f) + EncodeFields([Payload], f);
    assert EncodeFields([Payload], f) == EncodeField(Payload, f) + [];
  }

  lemma LayoutSizeReady(t: PageType)
    ensures forall known :: SizeReady(Layout(t), known)
  {
    var layout := Layout(t);
    assert forall known :: SizeReady([Payload], known) == known;
    match t
    case TableInterior =>
      assert layout[1..] == [Rowid];
      assert forall known :: SizeReady([Rowid], known);
    case TableLeaf =>
      assert layout[1..] == [Rowid, Payload] && layout[1..][1..] == [Payload];
      assert forall known :: SizeReady([Rowid, Payload], known) == known;
    case IndexInterior =>
      assert layout[1..] == [PayloadSize, Payload] && layout[1..][1..] == [Payload];
      assert forall known :: SizeReady([PayloadSize, Payload], known);
    case IndexLeaf =>
      assert layout[1..] == [Payload];
  }

  lemma LayoutMerges(c: BTreeCell)
    ensures CellOf(CellTypeOf(c), Merge(NoFields, FieldsOf(c), Layout(CellTypeOf(c)))) == c
  {
    var f := FieldsOf(c);
    var layout := Layout(CellTypeOf(c));
    match c
    case TableInteriorCell(_, _) =>
      assert layout[1..] == [Rowid];
      assert Merge(NoFields, f, layout) == Merge(Take(NoFields, f, LeftChild), f, [Rowid]);
    case TableLeafCell(_, _, _, _) =>
      assert layout[1..] == [Rowid, Payload] && layout[1..][1..] == [Payload];
      assert Merge(NoFields, f, layout) == Merge(Take(Take(NoFields, f, PayloadSize), f, Rowid), f, [Payload]);
    case IndexInteriorCell(_, _, _, _) =>
      assert layout[1..] == [PayloadSize, Payload] && layout[1..][1..] == [Payload];
      assert Merge(NoFields, f, layout) == Merge(Take(Take(NoFields, f, LeftChild), f, PayloadSize), f, [Payload]);
    case IndexLeafCell(_, _, _) =>
      assert layout[1..] == [Payload];
      assert Merge(NoFields, f, layout) == Merge(Take(NoFields, f, PayloadSize), f, [Payload]);
  }

  lemma LocalPayloadEncoded(page: seq<byte>, pos: nat, payload: seq<byte>, size: nat, next: Option<u32>,
                            rest: seq<byte>, maxLocal: nat, minLocal: nat, usableSize: nat)
    requires Thresholds(maxLocal, minLocal, usableSize)
    requires LocalPartAgrees(payload, size, next, maxLocal, minLocal, usableSize)
    requires pos <= |page| && page[pos..] == payload + (OverflowPointerBytes(next) + rest)
    ensures LocalPayload(page, pos, size, maxLocal, minLocal, usableSize) == Success((payload, next))
  {
    if PayloadOverflows(size, maxLocal, minLocal, usableSize).0 {
      OverflowingPayloadEncoded(page, pos, payload, size, next, rest, maxLocal, minLocal, usableSize);
    } else {
      FittingPayloadEncoded(page, pos, payload, size, rest, maxLocal, minLocal, usableSize);
    }
  }

  lemma OverflowingPayloadEncoded(page: seq<byte>, pos: nat, payload: seq<byte>, size: nat, next: Option<u32>,
                                  rest: seq<byte>, maxLocal: nat, minLocal: nat, usableSize: nat)
    requires Thresholds(maxLocal, minLocal, usableSize)
    requires LocalPartAgrees(payload, size, next, maxLocal, minLocal, usableSize)
    requires PayloadOverflows(size, maxLocal, minLocal, usableSize).0
    requires pos <= |page| && page[pos..] == payload + (OverflowPointerBytes(next) + rest)
    ensures LocalPayload(page, pos, size, maxLocal, minLocal, usableSize) == Success((payload, next))
  {
    var toRead := PayloadOverflows(size, maxLocal, minLocal, usableSize).1;
    OverflowLeavesRemainder(size, maxLocal, minLocal, usableSize);
    var unread := page[pos..pos + toRead];
    assert unread == page[pos..][..toRead];
    assert unread == payload + BeBytes(next.value, 4);
    ReadPayloadOfSplit(payload, next.value, size);
  }

  lemma FittingPayloadEncoded(page: seq<byte>, pos: nat, payload: seq<byte>, size: nat,
                              rest: seq<byte>, maxLocal: nat, minLocal: nat, usableSize: nat)
    requires Thresholds(maxLocal, minLocal, usableSize)
    requires LocalPartAgrees(payload, size, None, maxLocal, minLocal, usableSize)
    requires !PayloadOverflows(size, maxLocal, minLocal, usableSize).0
    requires pos <= |page| && page[pos..] == payload + rest
    ensures LocalPayload(page, pos, size, maxLocal, minLocal, usableSize) == Success((payload, None))
  {
    assert page[pos..|page|] == page[pos..];
    assert (payload + rest)[..size] == payload;
  }

  lemma LeftChildEncoded(page: seq<byte>, pos: nat, left: u32, tail: seq<byte>)
    requires pos <= |page| && page[pos..] == BeBytes(left, 4) + tail
    ensures pos + 4 <= |page| && ReadU32(page, pos) == left
    ensures page[pos + 4..] == tail
  {
    assert page[pos..pos + 4] == page[pos..][..4];
    assert page[pos + 4..] == page[pos..][4..];
    assert BeValue(BeBytes(ReadU32(page, pos), 4)) == ReadU32(page, pos);
  }

  /** The number of bytes field x of f occupies in a cell. */
  function FieldSize(x: Field, f: Fields): nat
  {
    match x
    case LeftChild => 4
    case PayloadSize => VarintLength(f.payloadSize)
    case Rowid => VarintLength(f.rowid)
    case Payload => |f.payload| + |OverflowPointerBytes(f.firstOverflowPage)|
  }

  function FieldsSize(layout: seq<Field>, f: Fields): nat
    decreases |layout|
  {
    if layout == [] then 0 else FieldSize(layout[0], f) + FieldsSize(layout[1..], f)
  }

  lemma FieldSizeEncoded(x: Field, f: Fields)
    ensures |EncodeField(x, f)| == FieldSize(x, f)
  {
    match x
    case PayloadSize => EncodedLength(f.payloadSize);
    case Rowid => EncodedLength(f.rowid);
    case _ =>
  }

  lemma {:induction false} FieldsSizeEncoded(layout: seq<Field>, f: Fields)
    ensures |EncodeFields(layout, f)| == FieldsSize(layout, f)
    decreases |layout|
  {
    if layout != [] {
      FieldSizeEncoded(layout[0], f);
      FieldsSizeEncoded(layout[1..], f);
    }
  }

  /** Every field of layout is found by its decoder, each one right after the bytes
      of the one before it. */
  predicate Stored(page: seq<byte>, pos: nat, layout: seq<Field>, f: Fields, maxLocal: nat, minLocal: nat, usableSize: nat)
    decreases |layout|, 2
  {
    layout == [] || StoredFrom(page, pos, layout[0], layout[1..], f, maxLocal, minLocal, usableSize)
  }

  /** The field x is found by its decoder at pos, and the fields of more are stored
      right after its bytes. */
  predicate StoredFrom(page: seq<byte>, pos: nat, x: Field, more: seq<Field>, f: Fields,
                       maxLocal: nat, minLocal: nat, usableSize: nat)
    decreases |more| + 1, 1
  {
    match x
    case LeftChild => LeftChildStored(page, pos, more, f, maxLocal, minLocal, usableSize)
    case PayloadSize => PayloadSizeStored(page, pos, more, f, maxLocal, minLocal, usableSize)
    case Rowid => RowidStored(page, pos, more, f, maxLocal, minLocal, usableSize)
    case Payload => PayloadStored(page, pos, more, f, maxLocal, minLocal, usableSize)
  }

  /** The left child pointer of f is the big-endian u32 at pos. */
  predicate LeftChildStored(page: seq<byte>, pos: nat, more: seq<Field>, f: Fields,
                            maxLocal: nat, minLocal: nat, usableSize: nat)
    decreases |more| + 1, 0
  {
    && pos + 4 <= |page| && ReadU32(page, pos) == f.leftChild
    && Stored(page, pos + FieldSize(LeftChild, f), more, f, maxLocal, minLocal, usableSize)
  }

  /** The payload size of f is the varint at pos. */
  predicate PayloadSizeStored(page: seq<byte>, pos: nat, more: seq<Field>, f: Fields,
                              maxLocal: nat, minLocal: nat, usableSize: nat)
    decreases |more| + 1, 0
  {
    && VarintAt(page, pos) == Success((f.payloadSize, FieldSize(PayloadSize, f)))
    && Stored(page, pos + FieldSize(PayloadSize, f), more, f, maxLocal, minLocal, usableSize)
  }

  /** The rowid of f is the varint at pos. */
  predicate RowidStored(page: seq<byte>, pos: nat, more: seq<Field>, f: Fields,
                        maxLocal: nat, minLocal: nat, usableSize: nat)
    decreases |more| + 1, 0
  {
    && VarintAt(page, pos) == Success((f.rowid, FieldSize(Rowid, f)))
    && Stored(page, pos + FieldSize(Rowid, f), more, f, maxLocal, minLocal, usableSize)
  }

  /** The local part of the payload of f, with its overflow pointer, is what the payload
      decoder takes from pos, given the payload size f names. */
  predicate PayloadStored(page: seq<byte>, pos: nat, more: seq<Field>, f: Fields,
                          maxLocal: nat, minLocal: nat, usableSize: nat)
    decreases |more| + 1, 0
  {
    && Thresholds(maxLocal, minLocal, usableSize)
    && LocalPartAgrees(f.payload, f.payloadSize, f.firstOverflowPage, maxLocal, minLocal, usableSize)
    && LocalPayload(page, pos, f.payloadSize, maxLocal, minLocal, usableSize) == Success((f.payload, f.firstOverflowPage))
    && Stored(page, pos + FieldSize(Payload, f), more, f, maxLocal, minLocal, usableSize)
  }

  lemma StoredRest(page: seq<byte>, pos: nat, layout: seq<Field>, f: Fields, maxLocal: nat, minLocal: nat, usableSize: nat)
    requires layout != [] && Stored(page, pos, layout, f, maxLocal, minLocal, usableSize)
    ensures Stored(page, pos + FieldSize(layout[0], f), layout[1..], f, maxLocal, minLocal, usableSize)
  {
    var more := layout[1..];
    match layout[0]
    case LeftChild => assert LeftChildStored(page, pos, more, f, maxLocal, minLocal, usableSize);
    case PayloadSize => assert PayloadSizeStored(page, pos, more, f, maxLocal, minLocal, usableSize);
    case Rowid => assert RowidStored(page, pos, more, f, maxLocal, minLocal, usableSize);
    case Payload => assert PayloadStored(page, pos, more, f, maxLocal, minLocal, usableSize);
  }

  lemma StoredHead(page: seq<byte>, pos: nat, layout: seq<Field>, f: Fields, maxLocal: nat, minLocal: nat, usableSize: nat)
    requires layout != [] && Stored(page, pos, layout, f, maxLocal, minLocal, usableSize)
    ensures StoredFrom(page, pos, layout[0], layout[1..], f, maxLocal, minLocal, usableSize)
  {
  }

  /** The bytes of the fields of layout lie at pos, followed by rest; like Stored, one
      field at a time. */
  predicate Lays(page: seq<byte>, pos: nat, layout: seq<Field>, f: Fields, rest: seq<byte>)
    decreases |layout|, 1
  {
    layout == [] || LaysFrom(page, pos, layout[0], layout[1..], f, rest)
  }

  predicate LaysFrom(page: seq<byte>, pos: nat, x: Field, more: seq<Field>, f: Fields, rest: seq<byte>)
    decreases |more| + 1, 0
  {
    && pos <= |page| && page[pos..] == EncodeField(x, f) + (EncodeFields(more, f) + rest)
    && Lays(page, pos + FieldSize(x, f), more, f, rest)
  }

  lemma {:induction false} LaysOfEncoded(page: seq<byte>, pos: nat, layout: seq<Field>, f: Fields, rest: seq<byte>)
    requires pos <= |page| && page[pos..] == EncodeFields(layout, f) + rest
    ensures Lays(page, pos, layout, f, rest)
    decreases |layout|
  {
    if layout != [] {
      FieldsSplit(page, pos, layout, f, rest);
      FieldSizeEncoded(layout[0], f);
      LaysOfEncoded(page, pos + |EncodeField(layout[0], f)|, layout[1..], f, rest);
    }
  }

  lemma LaysHead(page: seq<byte>, pos: nat, layout: seq<Field>, x: Field, f: Fields, rest: seq<byte>)
    requires layout != [] && layout[0] == x && Lays(page, pos, layout, f, rest)
    ensures pos <= |page| && page[pos..] == EncodeField(x, f) + (EncodeFields(layout[1..], f) + rest)
  {
    assert LaysFrom(page, pos, layout[0], layout[1..], f, rest);
  }

  lemma LaysRest(page: seq<byte>, pos: nat, layout: seq<Field>, f: Fields, rest: seq<byte>)
    requires layout != [] && Lays(page, pos, layout, f, rest)
    ensures Lays(page, pos + FieldSize(layout[0], f), layout[1..], f, rest)
  {
    assert LaysFrom(page, pos, layout[0], layout[1..], f, rest);
  }

  /** Fields whose bytes lie one after the other from pos are each found by their decoder. */
  lemma {:induction false} StoredOfLaid(page: seq<byte>, pos: nat, layout: seq<Field>, f: Fields, rest: seq<byte>,
                                        maxLocal: nat, minLocal: nat, usableSize: nat)
    requires Thresholds(maxLocal, minLocal, usableSize)
    requires Lays(page, pos, layout, f, rest)
    requires Payload in layout ==>
               LocalPartAgrees(f.payload, f.payloadSize, f.firstOverflowPage, maxLocal, minLocal, usableSize)
    ensures Stored(page, pos, layout, f, maxLocal, minLocal, usableSize)
    decreases |layout|
  {
    if layout != [] {
      LaysRest(page, pos, layout, f, rest);
      assert Payload in layout[1..] ==> Payload in layout;
      StoredOfLaid(page, pos + FieldSize(layout[0], f), layout[1..], f, rest, maxLocal, minLocal, usableSize);
      match layout[0]
      case LeftChild => StoredLeftChildLaid(page, pos, layout, f, rest, maxLocal, minLocal, usableSize);
      case PayloadSize => StoredPayloadSizeLaid(page, pos, layout, f, rest, maxLocal, minLocal, usableSize);
      case Rowid => StoredRowidLaid(page, pos, layout, f, rest, maxLocal, minLocal, usableSize);
      case Payload => StoredPayloadLaid(page, pos, layout, f, rest, maxLocal, minLocal, usableSize);
    }
  }

  /** For each kind of field: its bytes at pos are found there by its decoder. */
  lemma StoredLeftChildLaid(page: seq<byte>, pos: nat, layout: seq<Field>, f: Fields, rest: seq<byte>,
                            maxLocal: nat, minLocal: nat, usableSize: nat)
    requires layout != [] && layout[0] == LeftChild && Lays(page, pos, layout, f, rest)
    requires Stored(page, pos + FieldSize(LeftChild, f), layout[1..], f, maxLocal, minLocal, usableSize)
    ensures StoredFrom(page, pos, LeftChild, layout[1..], f, maxLocal, minLocal, usableSize)
  {
    LaysHead(page, pos, layout, LeftChild, f, rest);
    LeftChildEncoded(page, pos, f.leftChild, EncodeFields(layout[1..], f) + rest);
  }

  lemma StoredPayloadSizeLaid(page: seq<byte>, pos: nat, layout: seq<Field>, f: Fields, rest: seq<byte>,
                              maxLocal: nat, minLocal: nat, usableSize: nat)
    requires layout != [] && layout[0] == PayloadSize && Lays(page, pos, layout, f, rest)
    requires Stored(page, pos + FieldSize(PayloadSize, f), layout[1..], f, maxLocal, minLocal, usableSize)
    ensures StoredFrom(page, pos, PayloadSize, layout[1..], f, maxLocal, minLocal, usableSize)
  {
    LaysHead(page, pos, layout, PayloadSize, f, rest);
    VarintAtEncoded(page, pos, f.payloadSize, EncodeFields(layout[1..], f) + rest);
    EncodedLength(f.payloadSize);
  }

  lemma StoredRowidLaid(page: seq<byte>, pos: nat, layout: seq<Field>, f: Fields, rest: seq<byte>,
                        maxLocal: nat, minLocal: nat, usableSize: nat)
    requires layout != [] && layout[0] == Rowid && Lays(page, pos, layout, f, rest)
    requires Stored(page, pos + FieldSize(Rowid, f), layout[1..], f, maxLocal, minLocal, usableSize)
    ensures StoredFrom(page, pos, Rowid, layout[1..], f, maxLocal, minLocal, usableSize)
  {
    LaysHead(page, pos, layout, Rowid, f, rest);
    VarintAtEncoded(page, pos, f.rowid, EncodeFields(layout[1..], f) + rest);
    EncodedLength(f.rowid);
  }

  lemma StoredPayloadLaid(page: seq<byte>, pos: nat, layout: seq<Field>, f: Fields, rest: seq<byte>,
                          maxLocal: nat, minLocal: nat, usableSize: nat)
    requires Thresholds(maxLocal, minLocal, usableSize)
    requires LocalPartAgrees(f.payload, f.payloadSize, f.firstOverflowPage, maxLocal, minLocal, usableSize)
    requires layout != [] && layout[0] == Payload && Lays(page, pos, layout, f, rest)
    requires Stored(page, pos + FieldSize(Payload, f), layout[1..], f, maxLocal, minLocal, usableSize)
    ensures StoredFrom(page, pos, Payload, layout[1..], f, maxLocal, minLocal, usableSize)
  {
    var tail := EncodeFields(layout[1..], f) + rest;
    LaysHead(page, pos, layout, Payload, f, rest);
    assert page[pos..] == f.payload + (OverflowPointerBytes(f.firstOverflowPage) + tail);
    LocalPayloadEncoded(page, pos, f.payload, f.payloadSize, f.firstOverflowPage, tail, maxLocal, minLocal, usableSize);
  }

  /** One decoding step for each kind of field: the stored value is taken into acc and
      decoding goes on past its bytes. */
  lemma ReadLeftChildStep(page: seq<byte>, pos: nat, layout: seq<Field>, acc: Fields, f: Fields, maxLocal: nat, minLocal: nat, usableSize: nat)
    requires layout != [] && layout[0] == LeftChild && Stored(page, pos, layout, f, maxLocal, minLocal, usableSize)
    ensures ReadFields(page, pos, layout, acc, maxLocal, minLocal, usableSize)
            == ReadFields(page, pos + FieldSize(LeftChild, f), layout[1..], Take(acc, f, LeftChild), maxLocal, minLocal, usableSize)
  {
    StoredHead(page, pos, layout, f, maxLocal, minLocal, usableSize);
    assert LeftChildStored(page, pos, layout[1..], f, maxLocal, minLocal, usableSize);
    assert ReadFields(page, pos, layout, acc, maxLocal, minLocal, usableSize)
           == ReadLeftChild(page, pos, layout[1..], acc, maxLocal, minLocal, usableSize);
  }

  lemma ReadPayloadSizeStep(page: seq<byte>, pos: nat, layout: seq<Field>, acc: Fields, f: Fields, maxLocal: nat, minLocal: nat, usableSize: nat)
    requires layout != [] && layout[0] == PayloadSize && Stored(page, pos, layout, f, maxLocal, minLocal, usableSize)
    ensures ReadFields(page, pos, layout, acc, maxLocal, minLocal, usableSize)
            == ReadFields(page, pos + FieldSize(PayloadSize, f), layout[1..], Take(acc, f, PayloadSize), maxLocal, minLocal, usableSize)
  {
    StoredHead(page, pos, layout, f, maxLocal, minLocal, usableSize);
    assert PayloadSizeStored(page, pos, layout[1..], f, maxLocal, minLocal, usableSize);
    assert ReadFields(page, pos, layout, acc, maxLocal, minLocal, usableSize)
           == ReadPayloadSize(page, pos, layout[1..], acc, maxLocal, minLocal, usableSize);
  }

  lemma ReadRowidStep(page: seq<byte>, pos: nat, layout: seq<Field>, acc: Fields, f: Fields, maxLocal: nat, minLocal: nat, usableSize: nat)
    requires layout != [] && layout[0] == Rowid && Stored(page, pos, layout, f, maxLocal, minLocal, usableSize)
    ensures ReadFields(page, pos, layout, acc, maxLocal, minLocal, usableSize)
            == ReadFields(page, pos + FieldSize(Rowid, f), layout[1..], Take(acc, f, Rowid), maxLocal, minLocal, usableSize)
  {
    StoredHead(page, pos, layout, f, maxLocal, minLocal, usableSize);
    assert RowidStored(page, pos, layout[1..], f, maxLocal, minLocal, usableSize);
    assert ReadFields(page, pos, layout, acc, maxLocal, minLocal, usableSize)
           == ReadRowid(page, pos, layout[1..], acc, maxLocal, minLocal, usableSize);
  }

  lemma ReadLocalPayloadStep(page: seq<byte>, pos: nat, layout: seq<Field>, acc: Fields, f: Fields, maxLocal: nat, minLocal: nat, usableSize: nat)
    requires layout != [] && layout[0] == Payload && Stored(page, pos, layout, f, maxLocal, minLocal, usableSize)
    requires acc.payloadSize == f.payloadSize
    ensures ReadFields(page, pos, layout, acc, maxLocal, minLocal, usableSize)
            == ReadFields(page, pos + FieldSize(Payload, f), layout[1..], Take(acc, f, Payload), maxLocal, minLocal, usableSize)
  {
    StoredHead(page, pos, layout, f, maxLocal, minLocal, usableSize);
    assert PayloadStored(page, pos, layout[1..], f, maxLocal, minLocal, usableSize);
    assert ReadFields(page, pos, layout, acc, maxLocal, minLocal, usableSize)
           == ReadLocalPayload(page, pos, layout[1..], acc, maxLocal, minLocal, usableSize);
  }

  lemma ReadStep(page: seq<byte>, pos: nat, layout: seq<Field>, acc: Fields, f: Fields, maxLocal: nat, minLocal: nat, usableSize: nat)
    requires layout != [] && Stored(page, pos, layout, f, maxLocal, minLocal, usableSize)
    requires layout[0] == Payload ==> acc.payloadSize == f.payloadSize
    ensures ReadFields(page, pos, layout, acc, maxLocal, minLocal, usableSize)
            == ReadFields(page, pos + FieldSize(layout[0], f), layout[1..], Take(acc, f, layout[0]), maxLocal, minLocal, usableSize)
  {
    match layout[0]
    case LeftChild => ReadLeftChildStep(page, pos, layout, acc, f, maxLocal, minLocal, usableSize);
    case PayloadSize => ReadPayloadSizeStep(page, pos, layout, acc, f, maxLocal, minLocal, usableSize);
    case Rowid => ReadRowidStep(page, pos, layout, acc, f, maxLocal, minLocal, usableSize);
    case Payload => ReadLocalPayloadStep(page, pos, layout, acc, f, maxLocal, minLocal, usableSize);
  }

  /** Decoding stored fields recovers their values. */
  lemma {:induction false} ReadFieldsStored(page: seq<byte>, pos: nat, layout: seq<Field>, acc: Fields, f: Fields,
                                            maxLocal: nat, minLocal: nat, usableSize: nat)
    requires Stored(page, pos, layout, f, maxLocal, minLocal, usableSize)
    requires SizeReady(layout, acc.payloadSize == f.payloadSize)
    ensures ReadFields(page, pos, layout, acc, maxLocal, minLocal, usableSize) == Success(Merge(acc, f, layout))
    decreases |layout|
  {
    if layout != [] {
      StoredRest(page, pos, layout, f, maxLocal, minLocal, usableSize);
      ReadFieldsStored(page, pos + FieldSize(layout[0], f), layout[1..], Take(acc, f, layout[0]), f, maxLocal, minLocal, usableSize);
      ReadStep(page, pos, layout, acc, f, maxLocal, minLocal, usableSize);
    }
  }

  /** Cell round trip: the decoder recovers every field of a consistently stored cell,
      wherever it sits on the page and whatever follows it. */
  lemma ReadEncodedCell(page: seq<byte>, pos: nat, c: BTreeCell, rest: seq<byte>,
                        maxLocal: nat, minLocal: nat, usableSize: nat)
    requires Thresholds(maxLocal, minLocal, usableSize) && Consistent(c, maxLocal, minLocal, usableSize)
    requires pos <= |page| && page[pos..] == EncodeCell(c) + rest
    ensures ReadBTreeCell(page, CellTypeOf(c), pos, maxLocal, minLocal, usableSize) == Success(c)
  {
    LayoutOfCell(c);
    LaysOfEncoded(page, pos, Layout(CellTypeOf(c)), FieldsOf(c), rest);
    StoredOfLaid(page, pos, Layout(CellTypeOf(c)), FieldsOf(c), rest, maxLocal, minLocal, usableSize);
    ReadFieldsStored(page, pos, Layout(CellTypeOf(c)), NoFields, FieldsOf(c), maxLocal, minLocal, usableSize);
  }

  // cell_get_raw_region. It measures a cell field by field as well, without decoding
  // the payload, and every failure along the way aborts.

  /** `read_varint(..).unwrap()`: every failure, corruption included, aborts. */
  function UnwrapVarintAt(page: seq<byte>, pos: nat): (r: Result<(u64, nat)>)
    ensures r.Failure? ==> r.error.Panic?
    ensures r.Success? ==> r == VarintAt(page, pos)
  {
    var v := VarintAt(page, pos);
    if v.Failure? then Failure(Panic) else v
  }

  /** The length of the cell at ptr as the file format lays it out: the measuring
      part of `cell_get_raw_region`, without the four extra bytes the source adds
      to index cells (see CellLengthAsWritten). */
  function CellLength(page: seq<byte>, ptr: nat, pageType: PageType, maxLocal: nat, minLocal: nat, usableSize: nat)
    : (r: Result<nat>)
    ensures r.Failure? ==> r.error.Panic?
  {
    MeasureFields(page, ptr, Layout(pageType), 0, maxLocal, minLocal, usableSize)
  }

  /** The bytes the fields of layout occupy from pos on; size is the payload size
      read so far. */
  function MeasureFields(page: seq<byte>, pos: nat, layout: seq<Field>, size: nat,
                         maxLocal: nat, minLocal: nat, usableSize: nat): (r: Result<nat>)
    ensures r.Failure? ==> r.error.Panic?
    decreases |layout|, 2
  {
    if layout == [] then Success(0)
    else MeasureField(page, pos, layout[0], layout[1..], size, maxLocal, minLocal, usableSize)
  }

  function MeasureField(page: seq<byte>, pos: nat, x: Field, rest: seq<Field>, size: nat,
                        maxLocal: nat, minLocal: nat, usableSize: nat): (r: Result<nat>)
    ensures r.Failure? ==> r.error.Panic?
    decreases |rest| + 1, 1
  {
    match x
    case LeftChild => MeasureLeftChild(page, pos, rest, size, maxLocal, minLocal, usableSize)
    case PayloadSize => MeasureVarint(page, pos, true, rest, size, maxLocal, minLocal, usableSize)
    case Rowid => MeasureVarint(page, pos, false, rest, size, maxLocal, minLocal, usableSize)
    case Payload => MeasurePayload(page, pos, rest, size, maxLocal, minLocal, usableSize)
  }

  /** The left child pointer is skipped: four bytes. */
  function MeasureLeftChild(page: seq<byte>, pos: nat, rest: seq<Field>, size: nat,
                            maxLocal: nat, minLocal: nat, usableSize: nat): (r: Result<nat>)
    ensures r.Failure? ==> r.error.Panic?
    ensures r.Success? ==> r.value >= 4
    decreases |rest| + 1, 0
  {
    var m :- MeasureFields(page, pos + 4, rest, size, maxLocal, minLocal, usableSize);
    Success(4 + m)
  }

  /** A varint is read for its length; the payload size also for its value. */
  function MeasureVarint(page: seq<byte>, pos: nat, isSize: bool, rest: seq<Field>, size: nat,
                         maxLocal: nat, minLocal: nat, usableSize: nat): (r: Result<nat>)
    ensures r.Failure? ==> r.error.Panic?
    ensures r.Success? ==> r.value >= 1
    decreases |rest| + 1, 0
  {
    var (v, n) :- UnwrapVarintAt(page, pos);
    var m :- MeasureFields(page, pos + n, rest, if isSize then v else size, maxLocal, minLocal, usableSize);
    Success(n + m)
  }

  /** The payload occupies what `payload_overflows` allots to it, or its whole size
      when it fits. */
  function MeasurePayload(page: seq<byte>, pos: nat, rest: seq<Field>, size: nat,
                          maxLocal: nat, minLocal: nat, usableSize: nat): (r: Result<nat>)
    ensures r.Failure? ==> r.error.Panic?
    decreases |rest| + 1, 0
  {
    var (overflows, toRead) :- CheckedPayloadOverflows(size, maxLocal, minLocal, usableSize);
    var local := if overflows then toRead else size;
    var m :- MeasureFields(page, pos + local, rest, size, maxLocal, minLocal, usableSize);
    Success(local + m)
  }

  /** The measuring part of `cell_get_raw_region` as the source writes it: both index
      branches add a trailing 4 that no field of an index cell accounts for. */
  function CellLengthAsWritten(page: seq<byte>, ptr: nat, pageType: PageType, maxLocal: nat, minLocal: nat, usableSize: nat)
    : (r: Result<nat>)
    ensures r.Success? <==> CellLength(page, ptr, pageType, maxLocal, minLocal, usableSize).Success?
    ensures r.Success? && IsIndexType(pageType) ==> r.value >= 4
  {
    var len :- CellLength(page, ptr, pageType, maxLocal, minLocal, usableSize);
    Success(if IsIndexType(pageType) then len + 4 else len)
  }

  /** The bytes a payload occupies on the page, overflow pointer included, are what
      `payload_overflows` allots to it, or the whole payload when it fits. */
  lemma LocalLength(payload: seq<byte>, size: nat, next: Option<u32>, maxLocal: nat, minLocal: nat, usableSize: nat)
    requires Thresholds(maxLocal, minLocal, usableSize)
    requires LocalPartAgrees(payload, size, next, maxLocal, minLocal, usableSize)
    ensures var (overflows, toRead) := PayloadOverflows(size, maxLocal, minLocal, usableSize);
            CheckedPayloadOverflows(size, maxLocal, minLocal, usableSize) == Success((overflows, toRead))
            && |payload| + |OverflowPointerBytes(next)| == if overflows then toRead else size
  {
  }

  /** Stored fields are the first field's bytes followed by the others'. */
  lemma FieldsSplit(page: seq<byte>, pos: nat, layout: seq<Field>, f: Fields, rest: seq<byte>)
    requires layout != [] && pos <= |page| && page[pos..] == EncodeFields(layout, f) + rest
    ensures page[pos..] == EncodeField(layout[0], f) + (EncodeFields(layout[1..], f) + rest)
    ensures |EncodeFields(layout, f)| == |EncodeField(layout[0], f)| + |EncodeFields(layout[1..], f)|
    ensures pos + |EncodeField(layout[0], f)| <= |page|
    ensures page[pos + |EncodeField(layout[0], f)|..] == EncodeFields(layout[1..], f) + rest
    ensures Payload in layout[1..] ==> Payload in layout
  {
    var n := |EncodeField(layout[0], f)|;
    assert page[pos + n..] == page[pos..][n..];
  }

  /** One measuring step for each kind of field: the stored field's length is added
      to the length of what follows it. */
  lemma MeasureLeftChildStep(page: seq<byte>, pos: nat, layout: seq<Field>, size: nat, f: Fields, maxLocal: nat, minLocal: nat, usableSize: nat)
    requires layout != [] && layout[0] == LeftChild && Stored(page, pos, layout, f, maxLocal, minLocal, usableSize)
    requires MeasureFields(page, pos + FieldSize(LeftChild, f), layout[1..], size, maxLocal, minLocal, usableSize) == Success(FieldsSize(layout[1..], f))
    ensures MeasureFields(page, pos, layout, size, maxLocal, minLocal, usableSize) == Success(FieldsSize(layout, f))
  {
    StoredHead(page, pos, layout, f, maxLocal, minLocal, usableSize);
    assert LeftChildStored(page, pos, layout[1..], f, maxLocal, minLocal, usableSize);
    assert MeasureFields(page, pos, layout, size, maxLocal, minLocal, usableSize)
           == MeasureLeftChild(page, pos, layout[1..], size, maxLocal, minLocal, usableSize);
  }

  lemma MeasurePayloadSizeStep(page: seq<byte>, pos: nat, layout: seq<Field>, size: nat, f: Fields, maxLocal: nat, minLocal: nat, usableSize: nat)
    requires layout != [] && layout[0] == PayloadSize && Stored(page, pos, layout, f, maxLocal, minLocal, usableSize)
    requires MeasureFields(page, pos + FieldSize(PayloadSize, f), layout[1..], f.payloadSize, maxLocal, minLocal, usableSize) == Success(FieldsSize(layout[1..], f))
    ensures MeasureFields(page, pos, layout, size, maxLocal, minLocal, usableSize) == Success(FieldsSize(layout, f))
  {
    StoredHead(page, pos, layout, f, maxLocal, minLocal, usableSize);
    assert PayloadSizeStored(page, pos, layout[1..], f, maxLocal, minLocal, usableSize);
    assert MeasureFields(page, pos, layout, size, maxLocal, minLocal, usableSize)
           == MeasureVarint(page, pos, true, layout[1..], size, maxLocal, minLocal, usableSize);
  }

  lemma MeasureRowidStep(page: seq<byte>, pos: nat, layout: seq<Field>, size: nat, f: Fields, maxLocal: nat, minLocal: nat, usableSize: nat)
    requires layout != [] && layout[0] == Rowid && Stored(page, pos, layout, f, maxLocal, minLocal, usableSize)
    requires MeasureFields(page, pos + FieldSize(Rowid, f), layout[1..], size, maxLocal, minLocal, usableSize) == Success(FieldsSize(layout[1..], f))
    ensures MeasureFields(page, pos, layout, size, maxLocal, minLocal, usableSize) == Success(FieldsSize(layout, f))
  {
    StoredHead(page, pos, layout, f, maxLocal, minLocal, usableSize);
    assert RowidStored(page, pos, layout[1..], f, maxLocal, minLocal, usableSize);
    assert MeasureFields(page, pos, layout, size, maxLocal, minLocal, usableSize)
           == MeasureVarint(page, pos, false, layout[1..], size, maxLocal, minLocal, usableSize);
  }

  lemma MeasurePayloadStep(page: seq<byte>, pos: nat, layout: seq<Field>, size: nat, f: Fields, maxLocal: nat, minLocal: nat, usableSize: nat)
    requires layout != [] && layout[0] == Payload && Stored(page, pos, layout, f, maxLocal, minLocal, usableSize)
    requires size == f.payloadSize
    requires MeasureFields(page, pos + FieldSize(Payload, f), layout[1..], f.payloadSize, maxLocal, minLocal, usableSize) == Success(FieldsSize(layout[1..], f))
    ensures MeasureFields(page, pos, layout, size, maxLocal, minLocal, usableSize) == Success(FieldsSize(layout, f))
  {
    StoredHead(page, pos, layout, f, maxLocal, minLocal, usableSize);
    assert PayloadStored(page, pos, layout[1..], f, maxLocal, minLocal, usableSize);
    assert MeasureFields(page, pos, layout, size, maxLocal, minLocal, usableSize)
           == MeasurePayload(page, pos, layout[1..], size, maxLocal, minLocal, usableSize);
    LocalLength(f.payload, f.payloadSize, f.firstOverflowPage, maxLocal, minLocal, usableSize);
  }

  /** The payload size known after field x, when size was known before it. */
  function SizeAfter(x: Field, size: nat, f: Fields): nat
  {
    if x == PayloadSize then f.payloadSize else size
  }

  lemma MeasureStep(page: seq<byte>, pos: nat, layout: seq<Field>, size: nat, f: Fields, maxLocal: nat, minLocal: nat, usableSize: nat)
    requires layout != [] && Stored(page, pos, layout, f, maxLocal, minLocal, usableSize)
    requires layout[0] == Payload ==> size == f.payloadSize
    requires MeasureFields(page, pos + FieldSize(layout[0], f), layout[1..], SizeAfter(layout[0], size, f), maxLocal, minLocal, usableSize)
             == Success(FieldsSize(layout[1..], f))
    ensures MeasureFields(page, pos, layout, size, maxLocal, minLocal, usableSize) == Success(FieldsSize(layout, f))
  {
    match layout[0]
    case LeftChild => MeasureLeftChildStep(page, pos, layout, size, f, maxLocal, minLocal, usableSize);
    case PayloadSize => MeasurePayloadSizeStep(page, pos, layout, size, f, maxLocal, minLocal, usableSize);
    case Rowid => MeasureRowidStep(page, pos, layout, size, f, maxLocal, minLocal, usableSize);
    case Payload => MeasurePayloadStep(page, pos, layout, size, f, maxLocal, minLocal, usableSize);
  }

  /** Measuring stored fields gives their length. */
  lemma {:induction false} MeasureFieldsStored(page: seq<byte>, pos: nat, layout: seq<Field>, size: nat, f: Fields,
                                               maxLocal: nat, minLocal: nat, usableSize: nat)
    requires Stored(page, pos, layout, f, maxLocal, minLocal, usableSize)
    requires SizeReady(layout, size == f.payloadSize)
    ensures MeasureFields(page, pos, layout, size, maxLocal, minLocal, usableSize) == Success(FieldsSize(layout, f))
    decreases |layout|
  {
    if layout != [] {
      StoredRest(page, pos, layout, f, maxLocal, minLocal, usableSize);
      MeasureFieldsStored(page, pos + FieldSize(layout[0], f), layout[1..], SizeAfter(layout[0], size, f), f,
                          maxLocal, minLocal, usableSize);
      MeasureStep(page, pos, layout, size, f, maxLocal, minLocal, usableSize);
    }
  }

  /** The corrected measure is exactly the stored length of a consistently stored cell. */
  lemma CellLengthOfEncoded(page: seq<byte>, pos: nat, c: BTreeCell, rest: seq<byte>,
                            maxLocal: nat, minLocal: nat, usableSize: nat)
    requires Thresholds(maxLocal, minLocal, usableSize) && Consistent(c, maxLocal, minLocal, usableSize)
    requires pos <= |page| && page[pos..] == EncodeCell(c) + rest
    ensures CellLength(page, pos, CellTypeOf(c), maxLocal, minLocal, usableSize) == Success(|EncodeCell(c)|)
  {
    LayoutOfCell(c);
    FieldsSizeEncoded(Layout(CellTypeOf(c)), FieldsOf(c));
    LaysOfEncoded(page, pos, Layout(CellTypeOf(c)), FieldsOf(c), rest);
    StoredOfLaid(page, pos, Layout(CellTypeOf(c)), FieldsOf(c), rest, maxLocal, minLocal, usableSize);
    MeasureFieldsStored(page, pos, Layout(CellTypeOf(c)), 0, FieldsOf(c), maxLocal, minLocal, usableSize);
  }

  /** The as-written measure overstates every consistently stored index cell by four bytes. */
  lemma CellLengthAsWrittenOverstates(page: seq<byte>, pos: nat, c: BTreeCell, rest: seq<byte>,
                                      maxLocal: nat, minLocal: nat, usableSize: nat)
    requires Thresholds(maxLocal, minLocal, usableSize) && Consistent(c, maxLocal, minLocal, usableSize)
    requires pos <= |page| && page[pos..] == EncodeCell(c) + rest
    requires IsIndexType(CellTypeOf(c))
    ensures CellLengthAsWritten(page, pos, CellTypeOf(c), maxLocal, minLocal, usableSize) == Success(|EncodeCell(c)| + 4)
  {
    CellLengthOfEncoded(page, pos, c, rest, maxLocal, minLocal, usableSize);
  }

  /** A concrete instance: an index-leaf cell holding the three-byte payload 1, 2, 3
      is stored as the four bytes 3, 1, 2, 3, with the thresholds of a 4096-byte page,
      yet the as-written measure reports 8 bytes, reaching past the end of the page. */
  lemma IndexLeafRegionExample()
    ensures EncodeCell(IndexLeafCell([1, 2, 3], None, 3)) == [3, 1, 2, 3]
    ensures CellLengthAsWritten([3, 1, 2, 3], 0, IndexLeaf, 1002, 489, 4096) == Success(8)
    ensures CellLength([3, 1, 2, 3], 0, IndexLeaf, 1002, 489, 4096) == Success(4)
  {
    var c := IndexLeafCell([1, 2, 3], None, 3);
    assert EncodeVarint(3) == [3];
    assert EncodeCell(c) == [3, 1, 2, 3];
    assert [3, 1, 2, 3][0..] == EncodeCell(c) + [];
    CellLengthOfEncoded([3, 1, 2, 3], 0, c, [], 1002, 489, 4096);
  }

  /** `cell_get_raw_region`, corrected: where the idx-th cell starts (its entry in the
      cell pointer array after the page header) and how many bytes it occupies.
      Every abort of the source (an index past the cell count, an out-of-range read,
      an unwrapped error, an invalid page type) is a Panic. */
  function CellGetRawRegion(p: PageContent, idx: nat, maxLocal: nat, minLocal: nat, usableSize: nat)
    : (r: Result<(u16, nat)>)
    ensures r.Success? ==> p.offset + 5 <= |p.buf| && HasPageType(p) && idx < CellCount(p)
    ensures r.Success? ==> var entry := p.offset + HeaderSize(p) + 2 * idx;
              entry + 2 <= |p.buf| && BeBytes(r.value.0, 2) == p.buf[entry..entry + 2]
  {
    if p.offset + 5 > |p.buf| then Failure(Panic)
    else if !HasPageType(p) then Failure(Panic)
    else if idx >= CellCount(p) then Failure(Panic)
    else
      var entry := p.offset + HeaderSize(p) + 2 * idx;
      if entry + 2 > |p.buf| then Failure(Panic)
      else
        var start := ReadU16(p.buf, entry);
        var len :- CellLength(p.buf, start, PageTypeOf(p), maxLocal, minLocal, usableSize);
        Success((start, len))
  }

  /** `cell_get_raw_region` as the source writes it. */
  function CellGetRawRegionAsWritten(p: PageContent, idx: nat, maxLocal: nat, minLocal: nat, usableSize: nat)
    : (r: Result<(u16, nat)>)
    ensures r.Success? <==> CellGetRawRegion(p, idx, maxLocal, minLocal, usableSize).Success?
    ensures r.Success? ==> r.value.0 == CellGetRawRegion(p, idx, maxLocal, minLocal, usableSize).value.0
  {
    var (start, len) :- CellGetRawRegion(p, idx, maxLocal, minLocal, usableSize);
    Success((start, if IsIndexType(PageTypeOf(p)) then len + 4 else len))
  }

  /** The idx-th cell pointer of a page. */
  predicate PointsTo(p: PageContent, idx: nat, start: nat)
    requires HasPageType(p)
  {
    var entry := p.offset + HeaderSize(p) + 2 * idx;
    entry + 2 <= |p.buf| && ReadU16(p.buf, entry) == start
  }

  /** The corrected region of a consistently stored cell is exactly its bytes. */
  lemma RawRegionIsCell(p: PageContent, idx: nat, start: nat, c: BTreeCell, rest: seq<byte>,
                        maxLocal: nat, minLocal: nat, usableSize: nat)
    requires Thresholds(maxLocal, minLocal, usableSize) && Consistent(c, maxLocal, minLocal, usableSize)
    requires p.offset + 5 <= |p.buf| && HasPageType(p) && idx < CellCount(p) && PointsTo(p, idx, start)
    requires PageTypeOf(p) == CellTypeOf(c)
    requires start <= |p.buf| && p.buf[start..] == EncodeCell(c) + rest
    ensures CellGetRawRegion(p, idx, maxLocal, minLocal, usableSize) == Success((start, |EncodeCell(c)|))
    ensures p.buf[start..start + |EncodeCell(c)|] == EncodeCell(c)
  {
    CellLengthOfEncoded(p.buf, start, c, rest, maxLocal, minLocal, usableSize);
    assert p.buf[start..start + |EncodeCell(c)|] == p.buf[start..][..|EncodeCell(c)|];
  }

  /** The region the source computes for an index cell runs four bytes past the cell. */
  lemma RawRegionAsWrittenOverruns(p: PageContent, idx: nat, start: nat, c: BTreeCell, rest: seq<byte>,
                                   maxLocal: nat, minLocal: nat, usableSize: nat)
    requires Thresholds(maxLocal, minLocal, usableSize) && Consistent(c, maxLocal, minLocal, usableSize)
    requires p.offset + 5 <= |p.buf| && HasPageType(p) && idx < CellCount(p) && PointsTo(p, idx, start)
    requires PageTypeOf(p) == CellTypeOf(c) && IsIndexType(CellTypeOf(c))
    requires start <= |p.buf| && p.buf[start..] == EncodeCell(c) + rest
    ensures CellGetRawRegionAsWritten(p, idx, maxLocal, minLocal, usableSize) == Success((start, |EncodeCell(c)| + 4))
  {
    RawRegionIsCell(p, idx, start, c, rest, maxLocal, minLocal, usableSize);
  }
}
