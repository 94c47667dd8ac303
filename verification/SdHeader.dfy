/** The header of the boot image: encode_header and decode_header in tools/make-fpga-sd-image.py. */
module SdHeader {
  import opened Bytes
  import opened Options

  const SECTOR_BYTES := 512
  const FIRST_PAYLOAD_LBA := 8
  const HEADER_BYTES := 512
  const HEADER_CRC_OFFSET := 508
  const ENTRY_OFFSET := 64
  const ENTRY_BYTES := 32
  const VERSION := 1
  const MAXIMUM_ENTRIES := (HEADER_CRC_OFFSET - ENTRY_OFFSET) / ENTRY_BYTES
  const U32 := 0x1_0000_0000
  const U64 := 0x1_0000_0000_0000_0000

  /** ORV64SD1 */
  const MAGIC: seq<byte> := [79, 82, 86, 54, 52, 83, 68, 49]

  type u32 = n: nat | n < U32

  /** zlib.crc32; nothing here depends on which function it is. */
  type Crc = seq<byte> -> u32

  datatype Entry = Entry(tag: seq<byte>, lba: nat, sectorCount: nat, loadAddress: nat, byteLength: nat, crc: nat)

  datatype HeaderError =
    | NonAsciiTag | TagTooLong | FieldTooLarge | TooManyEntries
    | WrongHeaderLength | BadMagic | BadVersion | BadSizes | BadCount | BadImageLength | BadHeaderCrc
    | ZeroField | TooLong | OutsidePayload | Overlap

  // ---- Encoding ----

  function TagField(tag: seq<byte>): (f: seq<byte>)
    requires |tag| <= 8
    ensures |f| == 8
  {
    tag + Zeros(8 - |tag|)
  }

  function EntryField(e: Entry): (f: seq<byte>)
    requires |e.tag| <= 8
    ensures |f| == ENTRY_BYTES
  {
    TagField(e.tag) + Little(e.lba, 4) + Little(e.sectorCount, 4) + Little(e.loadAddress, 8) + Little(e.byteLength, 4) +
    Little(e.crc, 4)
  }

  function Fixed(count: nat, imageBytes: nat): (f: seq<byte>)
    ensures |f| == 32
  {
    MAGIC + Little(VERSION, 4) + Little(HEADER_BYTES, 4) + Little(ENTRY_BYTES, 4) + Little(count, 4) + Little(imageBytes, 8)
  }

  predicate Ascii(tag: seq<byte>) { forall i :: 0 <= i < |tag| ==> tag[i] < 128 }

  predicate FieldsFit(e: Entry) {
    e.lba < U32 && e.sectorCount < U32 && e.loadAddress < U64 && e.byteLength < U32 && e.crc < U32
  }

  /** Why struct or the tag check refuses an entry at this index, if they do. */
  function Refusal(e: Entry, index: nat): Option<HeaderError> {
    if !Ascii(e.tag) then Some(NonAsciiTag)
    else if |e.tag| > 8 then Some(TagTooLong)
    else if ENTRY_OFFSET + (index + 1) * ENTRY_BYTES > HEADER_BYTES then Some(TooManyEntries)
    else if !FieldsFit(e) then Some(FieldTooLarge)
    else None
  }

  function Table(entries: seq<Entry>): (t: seq<byte>)
    requires forall i :: 0 <= i < |entries| ==> |entries[i].tag| <= 8
    ensures |t| == ENTRY_BYTES * |entries|
  {
    if entries == [] then [] else Table(entries[..|entries| - 1]) + EntryField(entries[|entries| - 1])
  }

  predicate Encodable(entries: seq<Entry>, imageBytes: nat) {
    imageBytes < U64 && |entries| < U32 && forall i :: 0 <= i < |entries| ==> Refusal(entries[i], i).None?
  }

  lemma Room(entries: seq<Entry>, imageBytes: nat, i: nat)
    requires Encodable(entries, imageBytes) && i < |entries|
    ensures i < 14
  {
    assert Refusal(entries[i], i).None?;
  }

  lemma EncodableTags(entries: seq<Entry>, imageBytes: nat)
    requires Encodable(entries, imageBytes)
    ensures |entries| <= 14 && forall i :: 0 <= i < |entries| ==> |entries[i].tag| <= 8
  {
    if |entries| > 14 {
      Room(entries, imageBytes, 14);
    }
  }

  /** All 512 bytes before the checksum is put over the last four. */
  function Body(entries: seq<Entry>, imageBytes: nat): (b: seq<byte>)
    requires Encodable(entries, imageBytes)
    ensures |b| == HEADER_BYTES
  {
    EncodableTags(entries, imageBytes);
    Fixed(|entries|, imageBytes) + Zeros(32) + Table(entries) + Zeros(448 - ENTRY_BYTES * |entries|)
  }

  function Header(entries: seq<Entry>, imageBytes: nat, crc: Crc): (h: seq<byte>)
    requires Encodable(entries, imageBytes)
    ensures |h| == HEADER_BYTES
  {
    var covered := Body(entries, imageBytes)[..HEADER_CRC_OFFSET];
    covered + Little(crc(covered), 4)
  }

  // ---- Decoding ----

  function Field(bytes: seq<byte>, at: nat, n: nat): nat
    requires at + n <= |bytes|
  {
    Read(bytes[at..at + n])
  }

  function Stripped(tag: seq<byte>): seq<byte> {
    if tag == [] || tag[|tag| - 1] != 0 then tag else Stripped(tag[..|tag| - 1])
  }

  function RawEntry(raw: seq<byte>): Entry
    requires |raw| == ENTRY_BYTES
  {
    Entry(Stripped(raw[0..8]), Field(raw, 8, 4), Field(raw, 12, 4), Field(raw, 16, 8), Field(raw, 24, 4), Field(raw, 28, 4))
  }

  /** The checks on one entry, in order. */
  function Checked(e: Entry, imageBytes: nat): Result<Entry, HeaderError> {
    if !Ascii(e.tag) then Failure(NonAsciiTag)
    else if e.tag == [] || e.sectorCount == 0 || e.byteLength == 0 then Failure(ZeroField)
    else if e.byteLength > e.sectorCount * SECTOR_BYTES then Failure(TooLong)
    else if e.lba < FIRST_PAYLOAD_LBA || e.lba * SECTOR_BYTES + e.sectorCount * SECTOR_BYTES > imageBytes then
      Failure(OutsidePayload)
    else Success(e)
  }

  function RawAt(header: seq<byte>, index: nat): (raw: seq<byte>)
    requires ENTRY_OFFSET + (index + 1) * ENTRY_BYTES <= |header|
    ensures |raw| == ENTRY_BYTES
  {
    header[ENTRY_OFFSET + index * ENTRY_BYTES..ENTRY_OFFSET + (index + 1) * ENTRY_BYTES]
  }

  /** The first count entries, or the error of the first bad one. */
  function DecodeEntries(header: seq<byte>, count: nat, imageBytes: nat): (r: Result<seq<Entry>, HeaderError>)
    requires ENTRY_OFFSET + count * ENTRY_BYTES <= |header|
    ensures r.Success? ==> |r.value| == count
  {
    if count == 0 then Success([]) else
      match DecodeEntries(header, count - 1, imageBytes)
      case Failure(error) => Failure(error)
      case Success(before) =>
        match Checked(RawEntry(RawAt(header, count - 1)), imageBytes)
        case Failure(error) => Failure(error)
        case Success(e) => Success(before + [e])
  }

  function DecodeHeader(header: seq<byte>, imageBytes: nat, crc: Crc): Result<seq<Entry>, HeaderError> {
    if |header| != HEADER_BYTES then Failure(WrongHeaderLength)
    else if header[0..8] != MAGIC then Failure(BadMagic)
    else if Field(header, 8, 4) != VERSION then Failure(BadVersion)
    else if Field(header, 12, 4) != HEADER_BYTES || Field(header, 16, 4) != ENTRY_BYTES then Failure(BadSizes)
    else if !(1 <= Field(header, 20, 4) <= MAXIMUM_ENTRIES) then Failure(BadCount)
    else if Field(header, 24, 8) != imageBytes then Failure(BadImageLength)
    else if Field(header, HEADER_CRC_OFFSET, 4) != crc(header[..HEADER_CRC_OFFSET]) then Failure(BadHeaderCrc)
    else
      match DecodeEntries(header, Field(header, 20, 4), imageBytes)
      case Failure(error) => Failure(error)
      case Success(entries) => if NoneOverlap(Sort(Ranges(entries))) then Success(entries) else Failure(Overlap)
  }

  // ---- Sector ranges ----

  type Range = (nat, nat)

  function Ranges(entries: seq<Entry>): (r: seq<Range>)
    ensures |r| == |entries|
    ensures forall i :: 0 <= i < |r| ==> r[i] == (entries[i].lba, entries[i].lba + entries[i].sectorCount)
  {
    if entries == [] then [] else
      [(entries[0].lba, entries[0].lba + entries[0].sectorCount)] + Ranges(entries[1..])
  }

  predicate Before(a: Range, b: Range) { a.0 < b.0 || (a.0 == b.0 && a.1 <= b.1) }

  function Insert(r: Range, list: seq<Range>): (s: seq<Range>)
    ensures |s| == |list| + 1
  {
    if list == [] || Before(r, list[0]) then [r] + list else [list[0]] + Insert(r, list[1..])
  }

  function Sort(list: seq<Range>): (s: seq<Range>)
    ensures |s| == |list|
  {
    if list == [] then [] else Insert(list[0], Sort(list[1..]))
  }

  /** The check on neighbours. */
  predicate NoneOverlap(s: seq<Range>) {
    |s| > 1 ==> s[0].1 <= s[1].0 && NoneOverlap(s[1..])
  }

  predicate Apart(a: Range, b: Range) { a.1 <= b.0 || b.1 <= a.0 }

  predicate ApartFrom(r: Range, list: seq<Range>) { list == [] || (Apart(r, list[0]) && ApartFrom(r, list[1..])) }

  predicate Pairwise(list: seq<Range>) { list == [] || (ApartFrom(list[0], list[1..]) && Pairwise(list[1..])) }

  predicate Ascending(list: seq<Range>) { |list| > 1 ==> list[0].0 <= list[1].0 && Ascending(list[1..]) }

  predicate Nonempty(list: seq<Range>) { list == [] || (list[0].0 < list[0].1 && Nonempty(list[1..])) }

  lemma {:induction false} InsertApart(x: Range, r: Range, list: seq<Range>)
    ensures ApartFrom(x, Insert(r, list)) <==> Apart(x, r) && ApartFrom(x, list)
  {
    if list != [] {
      if Before(r, list[0]) {
        assert ([r] + list)[1..] == list;
      } else {
        InsertApart(x, r, list[1..]);
        assert Insert(r, list)[1..] == Insert(r, list[1..]);
      }
    }
  }

  lemma {:induction false} InsertKeeps(r: Range, list: seq<Range>)
    ensures Pairwise(Insert(r, list)) <==> ApartFrom(r, list) && Pairwise(list)
    ensures Nonempty(Insert(r, list)) <==> r.0 < r.1 && Nonempty(list)
    ensures Ascending(list) ==> Ascending(Insert(r, list))
  {
    if list != [] {
      if Before(r, list[0]) {
        assert ([r] + list)[1..] == list;
      } else {
        InsertKeeps(r, list[1..]);
        InsertApart(list[0], r, list[1..]);
        assert Insert(r, list)[1..] == Insert(r, list[1..]);
      }
    }
  }

  lemma {:induction false} SortKeeps(list: seq<Range>)
    ensures Pairwise(Sort(list)) <==> Pairwise(list)
    ensures Nonempty(Sort(list)) <==> Nonempty(list)
    ensures Ascending(Sort(list))
  {
    if list != [] {
      SortKeeps(list[1..]);
      InsertKeeps(list[0], Sort(list[1..]));
      SortApart(list[0], list[1..]);
    }
  }

  lemma {:induction false} SortApart(x: Range, list: seq<Range>)
    ensures ApartFrom(x, Sort(list)) <==> ApartFrom(x, list)
  {
    if list != [] {
      SortApart(x, list[1..]);
      InsertApart(x, list[0], Sort(list[1..]));
    }
  }

  lemma {:induction false} StartsApart(r: Range, list: seq<Range>)
    requires Ascending(list) && (list != [] ==> r.1 <= list[0].0)
    ensures ApartFrom(r, list)
  {
    if |list| > 0 {
      StartsApart(r, list[1..]);
    }
  }

  lemma {:induction false} NeighboursSuffice(list: seq<Range>)
    requires Ascending(list) && Nonempty(list)
    ensures NoneOverlap(list) <==> Pairwise(list)
  {
    if |list| > 1 {
      NeighboursSuffice(list[1..]);
      if NoneOverlap(list) {
        StartsApart(list[0], list[1..]);
      }
    }
  }

  /** Looking at neighbours after sorting finds an overlap exactly if some two ranges overlap. */
  lemma {:induction false} OverlapExactly(list: seq<Range>)
    requires Nonempty(list)
    ensures NoneOverlap(Sort(list)) <==> Pairwise(list)
  {
    SortKeeps(list);
    NeighboursSuffice(Sort(list));
  }

  lemma {:induction false} PairwiseMeans(list: seq<Range>, i: nat, j: nat)
    requires Pairwise(list) && i < j < |list|
    ensures Apart(list[i], list[j])
  {
    if i > 0 {
      PairwiseMeans(list[1..], i - 1, j - 1);
    } else {
      ApartMeans(list[0], list[1..], j - 1);
    }
  }

  lemma {:induction false} ApartMeans(r: Range, list: seq<Range>, k: nat)
    requires ApartFrom(r, list) && k < |list|
    ensures Apart(r, list[k])
  {
    if k > 0 {
      ApartMeans(r, list[1..], k - 1);
    }
  }

  // ---- Round trip ----

  lemma {:induction false} TableAt(entries: seq<Entry>, i: nat)
    requires i < |entries| && forall j :: 0 <= j < |entries| ==> |entries[j].tag| <= 8
    ensures ENTRY_BYTES * (i + 1) <= |Table(entries)|
    ensures Table(entries)[ENTRY_BYTES * i..ENTRY_BYTES * (i + 1)] == EntryField(entries[i])
  {
    var last := |entries| - 1;
    hide EntryField;
    if i < last {
      TableAt(entries[..last], i);
      assert Table(entries)[..ENTRY_BYTES * last] == Table(entries[..last]);
      assert Table(entries)[ENTRY_BYTES * i..ENTRY_BYTES * (i + 1)] ==
             Table(entries)[..ENTRY_BYTES * last][ENTRY_BYTES * i..ENTRY_BYTES * (i + 1)];
    }
  }

  lemma {:induction false} StripPadded(tag: seq<byte>, n: nat)
    requires tag == [] || tag[|tag| - 1] != 0
    ensures Stripped(tag + Zeros(n)) == tag
  {
    if n > 0 {
      StripPadded(tag, n - 1);
      assert (tag + Zeros(n))[..|tag| + n - 1] == tag + Zeros(n - 1);
    } else {
      assert tag + Zeros(0) == tag;
    }
  }

  /** Six fields side by side. */
  lemma Slices(a: seq<byte>, b: seq<byte>, c: seq<byte>, d: seq<byte>, e: seq<byte>, f: seq<byte>)
    requires |a| == 8 && |b| == 4 && |c| == 4 && |d| == 8 && |e| == 4 && |f| == 4
    ensures var all := a + b + c + d + e + f;
            && all[0..8] == a && all[8..12] == b && all[12..16] == c && all[16..24] == d && all[24..28] == e && all[28..32] == f
  {
  }

  /** Reading an entry's bytes gives the entry back, unless its tag ends in a NUL. */
  lemma EntryRoundTrip(e: Entry)
    requires |e.tag| <= 8 && FieldsFit(e) && (e.tag != [] ==> e.tag[|e.tag| - 1] != 0)
    ensures RawEntry(EntryField(e)) == e
  {
    Limits();
    ReadLittle(e.lba, 4);
    ReadLittle(e.sectorCount, 4);
    ReadLittle(e.loadAddress, 8);
    ReadLittle(e.byteLength, 4);
    ReadLittle(e.crc, 4);
    hide Little, Read, Limit, Zeros;
    Slices(TagField(e.tag), Little(e.lba, 4), Little(e.sectorCount, 4), Little(e.loadAddress, 8), Little(e.byteLength, 4),
           Little(e.crc, 4));
    StripPadded(e.tag, 8 - |e.tag|);
    hide Stripped;
  }

  lemma {:induction false} FixedSlices(count: nat, imageBytes: nat)
    ensures var f := Fixed(count, imageBytes);
            && f[0..8] == MAGIC && f[8..12] == Little(VERSION, 4) && f[12..16] == Little(HEADER_BYTES, 4)
            && f[16..20] == Little(ENTRY_BYTES, 4) && f[20..24] == Little(count, 4) && f[24..32] == Little(imageBytes, 8)
  {
    hide Little;
  }

  lemma FixedReads(header: seq<byte>, count: nat, imageBytes: nat)
    requires |header| == HEADER_BYTES && header[..32] == Fixed(count, imageBytes) && count < U32 && imageBytes < U64
    ensures header[0..8] == MAGIC && Field(header, 8, 4) == VERSION && Field(header, 12, 4) == HEADER_BYTES
    ensures Field(header, 16, 4) == ENTRY_BYTES && Field(header, 20, 4) == count && Field(header, 24, 8) == imageBytes
  {
    Limits();
    ReadLittle(VERSION, 4);
    ReadLittle(HEADER_BYTES, 4);
    ReadLittle(ENTRY_BYTES, 4);
    ReadLittle(count, 4);
    ReadLittle(imageBytes, 8);
    hide Little, Read, Fixed;
    FixedSlices(count, imageBytes);
    assert forall i, j :: 0 <= i <= j <= 32 ==> header[i..j] == header[..32][i..j];
  }

  /** Where the parts of a header are. */
  lemma {:induction false} HeaderParts(entries: seq<Entry>, imageBytes: nat, crc: Crc)
    requires Encodable(entries, imageBytes) && |entries| <= MAXIMUM_ENTRIES
    ensures var h := Header(entries, imageBytes, crc);
            && h[..32] == Fixed(|entries|, imageBytes)
            && h[HEADER_CRC_OFFSET..] == Little(crc(h[..HEADER_CRC_OFFSET]), 4)
            && (forall j :: 0 <= j < |entries| ==> |entries[j].tag| <= 8)
            && h[ENTRY_OFFSET..ENTRY_OFFSET + ENTRY_BYTES * |entries|] == Table(entries)
  {
    EncodableTags(entries, imageBytes);
    hide Fixed, Table, Little, Zeros, Encodable;
    var h, n := Header(entries, imageBytes, crc), ENTRY_BYTES * |entries|;
    var covered := Body(entries, imageBytes)[..HEADER_CRC_OFFSET];
    assert h[..HEADER_CRC_OFFSET] == covered;
    assert covered[..32] == Fixed(|entries|, imageBytes) && covered[ENTRY_OFFSET..ENTRY_OFFSET + n] == Table(entries);
    assert h[..32] == covered[..32] && h[ENTRY_OFFSET..ENTRY_OFFSET + n] == covered[ENTRY_OFFSET..ENTRY_OFFSET + n];
  }

  /** What decode_header demands of an entry, and of its tag for the bytes to give it back. */
  predicate GoodEntry(e: Entry, imageBytes: nat) {
    && Checked(e, imageBytes).Success? && |e.tag| <= 8 && e.tag[|e.tag| - 1] != 0 && FieldsFit(e)
  }

  lemma {:induction false} EntriesDecode(header: seq<byte>, entries: seq<Entry>, imageBytes: nat)
    requires ENTRY_OFFSET + |entries| * ENTRY_BYTES <= |header|
    requires forall i :: 0 <= i < |entries| ==> GoodEntry(entries[i], imageBytes) && RawAt(header, i) == EntryField(entries[i])
    ensures DecodeEntries(header, |entries|, imageBytes) == Success(entries)
  {
    hide RawAt, EntryField, RawEntry;
    if entries != [] {
      var last := |entries| - 1;
      EntriesDecode(header, entries[..last], imageBytes);
      EntryRoundTrip(entries[last]);
      assert entries == entries[..last] + [entries[last]];
    }
  }

  /** Decoding an encoded header gives its entries back: for up to 13 good entries that do not
      overlap. */
  lemma {:induction false} HeaderRoundTrip(entries: seq<Entry>, imageBytes: nat, crc: Crc)
    requires Encodable(entries, imageBytes) && 1 <= |entries| <= MAXIMUM_ENTRIES
    requires forall i :: 0 <= i < |entries| ==> GoodEntry(entries[i], imageBytes)
    requires Pairwise(Ranges(entries))
    ensures DecodeHeader(Header(entries, imageBytes, crc), imageBytes, crc) == Success(entries)
  {
    hide Header, Fixed, Little, Read, Table, EntryField, Pairwise, Sort, NoneOverlap, DecodeEntries, Nonempty, RawAt;
    var h := Header(entries, imageBytes, crc);
    HeaderParts(entries, imageBytes, crc);
    FixedReads(h, |entries|, imageBytes);
    Limits();
    ReadLittle(crc(h[..HEADER_CRC_OFFSET]), 4);
    assert h[HEADER_CRC_OFFSET..HEADER_CRC_OFFSET + 4] == h[HEADER_CRC_OFFSET..];
    forall i | 0 <= i < |entries|
      ensures RawAt(h, i) == EntryField(entries[i])
    {
      TableAt(entries, i);
      TableInside(h, Table(entries), i);
    }
    EntriesDecode(h, entries, imageBytes);
    RangesNonempty(entries, imageBytes);
    OverlapExactly(Ranges(entries));
  }

  lemma {:induction false} StrippedEnds(tag: seq<byte>)
    ensures |Stripped(tag)| <= |tag| && (Stripped(tag) != [] ==> Stripped(tag)[|Stripped(tag)| - 1] != 0)
  {
    if tag != [] && tag[|tag| - 1] == 0 {
      StrippedEnds(tag[..|tag| - 1]);
    }
  }

  /** Every entry read from bytes can be written again. */
  lemma RawEntryFits(raw: seq<byte>)
    requires |raw| == ENTRY_BYTES
    ensures var e := RawEntry(raw);
            FieldsFit(e) && |e.tag| <= 8 && (e.tag != [] ==> e.tag[|e.tag| - 1] != 0)
  {
    Limits();
    StrippedEnds(raw[0..8]);
    ReadFits(raw[8..12]);
    ReadFits(raw[12..16]);
    ReadFits(raw[16..24]);
    ReadFits(raw[24..28]);
    ReadFits(raw[28..32]);
    hide Stripped, Read, Limit;
  }

  /** Whatever is decoded has passed the checks, and its bytes would give it back. */
  lemma {:induction false} DecodedGood(header: seq<byte>, count: nat, imageBytes: nat)
    requires ENTRY_OFFSET + count * ENTRY_BYTES <= |header| && DecodeEntries(header, count, imageBytes).Success?
    ensures var entries := DecodeEntries(header, count, imageBytes).value;
            forall i :: 0 <= i < |entries| ==> GoodEntry(entries[i], imageBytes)
  {
    hide RawEntry, RawAt;
    if count > 0 {
      DecodedGood(header, count - 1, imageBytes);
      RawEntryFits(RawAt(header, count - 1));
    }
  }

  /** Which entries decode_header returns for the header that encode_header made of them. */
  predicate ReadsBack(entries: seq<Entry>, imageBytes: nat) {
    && 1 <= |entries| <= MAXIMUM_ENTRIES
    && (forall i :: 0 <= i < |entries| ==> GoodEntry(entries[i], imageBytes))
    && Pairwise(Ranges(entries))
  }

  /** Of all lists that encode_header takes, exactly these decode to themselves. */
  lemma {:induction false} RoundTripExactly(entries: seq<Entry>, imageBytes: nat, crc: Crc)
    requires Encodable(entries, imageBytes)
    ensures DecodeHeader(Header(entries, imageBytes, crc), imageBytes, crc) == Success(entries) <==>
            ReadsBack(entries, imageBytes)
  {
    var h := Header(entries, imageBytes, crc);
    EncodableTags(entries, imageBytes);
    HeaderStarts(entries, imageBytes, crc);
    FixedReads(h, |entries|, imageBytes);
    hide Header, Fixed, GoodEntry, Pairwise, DecodeEntries, Encodable;
    if ReadsBack(entries, imageBytes) {
      HeaderRoundTrip(entries, imageBytes, crc);
    }
    if DecodeHeader(h, imageBytes, crc) == Success(entries) {
      AcceptedReadsBack(h, imageBytes, crc);
    }
  }

  /** Whatever header is accepted, its entries encode to a header that is accepted as well, with the
      same entries. */
  lemma {:induction false} AcceptedReadsBack(header: seq<byte>, imageBytes: nat, crc: Crc)
    requires DecodeHeader(header, imageBytes, crc).Success?
    ensures var entries := DecodeHeader(header, imageBytes, crc).value;
            && ReadsBack(entries, imageBytes) && Encodable(entries, imageBytes)
            && DecodeHeader(Header(entries, imageBytes, crc), imageBytes, crc) == Success(entries)
  {
    hide DecodeEntries, Sort, NoneOverlap, Pairwise, Nonempty, Header, Read;
    var entries := DecodeHeader(header, imageBytes, crc).value;
    DecodedGood(header, Field(header, 20, 4), imageBytes);
    RangesNonempty(entries, imageBytes);
    OverlapExactly(Ranges(entries));
    Limits();
    ReadFits(header[24..32]);
    assert Encodable(entries, imageBytes);
    HeaderRoundTrip(entries, imageBytes, crc);
  }

  /** n entries of one sector each, one behind the other. */
  function Row(lba: nat, n: nat): (r: seq<Entry>)
    ensures |r| == n && forall i :: 0 <= i < n ==> r[i] == Entry([65], lba + i, 1, 0, 1, 0)
    decreases n
  {
    if n == 0 then [] else [Entry([65], lba, 1, 0, 1, 0)] + Row(lba + 1, n - 1)
  }

  lemma {:induction false} RowApart(lba: nat, n: nat, before: nat)
    requires before < lba
    ensures ApartFrom((before, before + 1), Ranges(Row(lba, n)))
    decreases n
  {
    if n > 0 {
      RowApart(lba + 1, n - 1, before);
      assert Row(lba, n)[1..] == Row(lba + 1, n - 1);
    }
  }

  lemma {:induction false} RowPairwise(lba: nat, n: nat)
    ensures Pairwise(Ranges(Row(lba, n)))
    decreases n
  {
    if n > 0 {
      RowPairwise(lba + 1, n - 1);
      RowApart(lba + 1, n - 1, lba);
      assert Row(lba, n)[1..] == Row(lba + 1, n - 1);
    }
  }

  /** Fourteen good entries that do not overlap: encode_header takes them, and decode_header refuses
      the header. */
  lemma FourteenRefused(crc: Crc)
    ensures var entries, imageBytes := Row(FIRST_PAYLOAD_LBA, 14), 22 * SECTOR_BYTES;
            && Encodable(entries, imageBytes) && Pairwise(Ranges(entries))
            && (forall i :: 0 <= i < 14 ==> GoodEntry(entries[i], imageBytes))
            && DecodeHeader(Header(entries, imageBytes, crc), imageBytes, crc) == Failure(BadCount)
  {
    hide DecodeHeader, Header, Pairwise;
    RowPairwise(FIRST_PAYLOAD_LBA, 14);
    CountRefused(Row(FIRST_PAYLOAD_LBA, 14), 22 * SECTOR_BYTES, crc);
  }

  /** encode_header takes up to 14 entries, and none at all, but decode_header refuses both ends: of 14
      entries the last one's checksum lies under the header's. */
  lemma CountRefused(entries: seq<Entry>, imageBytes: nat, crc: Crc)
    requires Encodable(entries, imageBytes)
    ensures |entries| <= 14
    ensures |entries| in {0, 14} ==> DecodeHeader(Header(entries, imageBytes, crc), imageBytes, crc) == Failure(BadCount)
  {
    EncodableTags(entries, imageBytes);
    HeaderStarts(entries, imageBytes, crc);
    hide Fixed, Table, Little, Zeros, Read, Header, DecodeEntries;
    FixedReads(Header(entries, imageBytes, crc), |entries|, imageBytes);
  }

  lemma HeaderStarts(entries: seq<Entry>, imageBytes: nat, crc: Crc)
    requires Encodable(entries, imageBytes)
    ensures Header(entries, imageBytes, crc)[..32] == Fixed(|entries|, imageBytes)
  {
  }

  lemma TableInside(h: seq<byte>, table: seq<byte>, i: nat)
    requires |h| == HEADER_BYTES && ENTRY_OFFSET + |table| <= |h| && h[ENTRY_OFFSET..ENTRY_OFFSET + |table|] == table
    requires ENTRY_BYTES * (i + 1) <= |table|
    ensures RawAt(h, i) == table[ENTRY_BYTES * i..ENTRY_BYTES * (i + 1)]
  {
    var slice := h[ENTRY_OFFSET..ENTRY_OFFSET + |table|];
    forall k | 0 <= k < ENTRY_BYTES
      ensures RawAt(h, i)[k] == table[ENTRY_BYTES * i + k]
    {
      assert RawAt(h, i)[k] == h[ENTRY_OFFSET + (ENTRY_BYTES * i + k)];
      assert slice[ENTRY_BYTES * i + k] == h[ENTRY_OFFSET + (ENTRY_BYTES * i + k)];
    }
  }

  lemma {:induction false} RangesNonempty(entries: seq<Entry>, imageBytes: nat)
    requires forall i :: 0 <= i < |entries| ==> Checked(entries[i], imageBytes).Success?
    ensures Nonempty(Ranges(entries))
  {
    if entries != [] {
      RangesNonempty(entries[1..], imageBytes);
      assert Ranges(entries)[1..] == Ranges(entries[1..]);
    }
  }

  // ---- What acceptance means ----

  lemma {:induction false} PadStripped(tag: seq<byte>)
    ensures |Stripped(tag)| <= |tag| && Stripped(tag) + Zeros(|tag| - |Stripped(tag)|) == tag
  {
    if tag != [] && tag[|tag| - 1] == 0 {
      var front := tag[..|tag| - 1];
      PadStripped(front);
      assert tag == front + [0];
    }
  }

  /** Writing a decoded entry gives its bytes back. */
  lemma {:induction false} EntryBytes(raw: seq<byte>)
    requires |raw| == ENTRY_BYTES
    ensures |RawEntry(raw).tag| <= 8 && EntryField(RawEntry(raw)) == raw
  {
    PadStripped(raw[0..8]);
    LittleRead(raw[8..12]);
    LittleRead(raw[12..16]);
    LittleRead(raw[16..24]);
    LittleRead(raw[24..28]);
    LittleRead(raw[28..32]);
    hide Little, Read, Stripped, Zeros;
    SixParts(raw);
  }

  lemma SixParts(raw: seq<byte>)
    requires |raw| == ENTRY_BYTES
    ensures raw == raw[0..8] + raw[8..12] + raw[12..16] + raw[16..24] + raw[24..28] + raw[28..32]
  {
  }

  lemma {:induction false} DecodedBytes(header: seq<byte>, count: nat, imageBytes: nat)
    requires ENTRY_OFFSET + count * ENTRY_BYTES <= |header| && DecodeEntries(header, count, imageBytes).Success?
    ensures var entries := DecodeEntries(header, count, imageBytes).value;
            forall i :: 0 <= i < |entries| ==> |entries[i].tag| <= 8 && RawAt(header, i) == EntryField(entries[i])
  {
    hide RawEntry, RawAt, EntryField;
    if count > 0 {
      DecodedBytes(header, count - 1, imageBytes);
      EntryBytes(RawAt(header, count - 1));
    }
  }

  lemma {:induction false} FixedIs(header: seq<byte>, count: nat, imageBytes: nat)
    requires |header| == HEADER_BYTES && header[0..8] == MAGIC && Field(header, 8, 4) == VERSION
    requires Field(header, 12, 4) == HEADER_BYTES && Field(header, 16, 4) == ENTRY_BYTES
    requires Field(header, 20, 4) == count && Field(header, 24, 8) == imageBytes
    ensures header[..32] == Fixed(count, imageBytes)
  {
    LittleRead(header[8..12]);
    LittleRead(header[12..16]);
    LittleRead(header[16..20]);
    LittleRead(header[20..24]);
    LittleRead(header[24..32]);
    hide Little, Read;
    assert header[..32] == header[0..8] + header[8..12] + header[12..16] + header[16..20] + header[20..24] + header[24..32];
  }

  /** The bytes that are looked at: the fixed part, the entries in front, and the checksum of all before it. */
  ghost predicate Carries(header: seq<byte>, entries: seq<Entry>, imageBytes: nat, crc: Crc) {
    && |header| == HEADER_BYTES && |entries| <= MAXIMUM_ENTRIES && header[..32] == Fixed(|entries|, imageBytes)
    && (forall i :: 0 <= i < |entries| ==> |entries[i].tag| <= 8 && RawAt(header, i) == EntryField(entries[i]))
    && header[HEADER_CRC_OFFSET..] == Little(crc(header[..HEADER_CRC_OFFSET]), 4)
  }

  /** Exactly the headers that carry such entries are accepted; the reserved bytes may hold anything. */
  lemma {:induction false} AcceptedExactly(header: seq<byte>, entries: seq<Entry>, imageBytes: nat, crc: Crc)
    ensures DecodeHeader(header, imageBytes, crc) == Success(entries) <==>
            imageBytes < U64 && Carries(header, entries, imageBytes, crc) && ReadsBack(entries, imageBytes)
  {
    if DecodeHeader(header, imageBytes, crc) == Success(entries) {
      AcceptedCarries(header, entries, imageBytes, crc);
    }
    if imageBytes < U64 && Carries(header, entries, imageBytes, crc) && ReadsBack(entries, imageBytes) {
      CarriesAccepted(header, entries, imageBytes, crc);
    }
    hide DecodeHeader, Carries, ReadsBack;
  }

  lemma {:induction false} AcceptedCarries(header: seq<byte>, entries: seq<Entry>, imageBytes: nat, crc: Crc)
    requires DecodeHeader(header, imageBytes, crc) == Success(entries)
    ensures imageBytes < U64 && Carries(header, entries, imageBytes, crc) && ReadsBack(entries, imageBytes)
  {
    hide DecodeEntries, Sort, NoneOverlap, Pairwise, Nonempty, Header, Read, Fixed, GoodEntry, EntryField, RawAt;
    AcceptedReadsBack(header, imageBytes, crc);
    FixedIs(header, Field(header, 20, 4), imageBytes);
    DecodedBytes(header, Field(header, 20, 4), imageBytes);
    LittleRead(header[HEADER_CRC_OFFSET..HEADER_CRC_OFFSET + 4]);
    assert header[HEADER_CRC_OFFSET..HEADER_CRC_OFFSET + 4] == header[HEADER_CRC_OFFSET..];
  }

  lemma {:induction false} CarriesAccepted(header: seq<byte>, entries: seq<Entry>, imageBytes: nat, crc: Crc)
    requires imageBytes < U64 && Carries(header, entries, imageBytes, crc) && ReadsBack(entries, imageBytes)
    ensures DecodeHeader(header, imageBytes, crc) == Success(entries)
  {
    hide Fixed, Little, Read, EntryField, Pairwise, Sort, NoneOverlap, DecodeEntries, Nonempty, RawAt, GoodEntry;
    FixedReads(header, |entries|, imageBytes);
    Limits();
    ReadLittle(crc(header[..HEADER_CRC_OFFSET]), 4);
    assert header[HEADER_CRC_OFFSET..HEADER_CRC_OFFSET + 4] == header[HEADER_CRC_OFFSET..];
    EntriesDecode(header, entries, imageBytes);
    GoodChecked(entries, imageBytes);
    RangesNonempty(entries, imageBytes);
    OverlapExactly(Ranges(entries));
  }

  lemma GoodChecked(entries: seq<Entry>, imageBytes: nat)
    requires forall i :: 0 <= i < |entries| ==> GoodEntry(entries[i], imageBytes)
    ensures forall i :: 0 <= i < |entries| ==> Checked(entries[i], imageBytes).Success?
  {
  }

  /** Where each value of an encoded header lies, in little-endian bytes. */
  lemma {:induction false} HeaderLayout(entries: seq<Entry>, imageBytes: nat, crc: Crc, i: nat)
    requires Encodable(entries, imageBytes) && |entries| <= MAXIMUM_ENTRIES
    ensures var h := Header(entries, imageBytes, crc);
            && h[0..8] == MAGIC && Field(h, 8, 4) == 1 && Field(h, 12, 4) == 512 && Field(h, 16, 4) == 32
            && Field(h, 20, 4) == |entries| && Field(h, 24, 8) == imageBytes
            && Field(h, 508, 4) == crc(h[..508])
            && (i < |entries| ==>
                  var at := 64 + 32 * i;
                  && at + 32 <= 508 && |entries[i].tag| <= 8
                  && h[at..at + |entries[i].tag|] == entries[i].tag
                  && (forall k :: at + |entries[i].tag| <= k < at + 8 ==> h[k] == 0)
                  && Field(h, at + 8, 4) == entries[i].lba && Field(h, at + 12, 4) == entries[i].sectorCount
                  && Field(h, at + 16, 8) == entries[i].loadAddress && Field(h, at + 24, 4) == entries[i].byteLength
                  && Field(h, at + 28, 4) == entries[i].crc)
            && (forall k :: 32 <= k < 64 ==> h[k] == 0) && (forall k :: 64 + 32 * |entries| <= k < 508 ==> h[k] == 0)
  {
    var h := Header(entries, imageBytes, crc);
    HeaderPads(entries, imageBytes, crc);
    hide Header, Fixed, Little, Read, Table, EntryField, Zeros, Encodable;
    HeaderParts(entries, imageBytes, crc);
    FixedReads(h, |entries|, imageBytes);
    Limits();
    ReadLittle(crc(h[..HEADER_CRC_OFFSET]), 4);
    assert h[HEADER_CRC_OFFSET..HEADER_CRC_OFFSET + 4] == h[HEADER_CRC_OFFSET..];
    if i < |entries| {
      TableAt(entries, i);
      TableInside(h, Table(entries), i);
      assert Refusal(entries[i], i).None? by { EncodableAt(entries, imageBytes, i); }
      EntryLayout(h, entries[i], i);
    }
  }

  lemma EncodableAt(entries: seq<Entry>, imageBytes: nat, i: nat)
    requires Encodable(entries, imageBytes) && i < |entries|
    ensures Refusal(entries[i], i).None? && imageBytes < U64 && |entries| < U32
  {
  }

  lemma {:induction false} HeaderPads(entries: seq<Entry>, imageBytes: nat, crc: Crc)
    requires Encodable(entries, imageBytes) && |entries| <= MAXIMUM_ENTRIES
    ensures var h := Header(entries, imageBytes, crc);
            (forall k :: 32 <= k < 64 ==> h[k] == 0) && (forall k :: 64 + 32 * |entries| <= k < 508 ==> h[k] == 0)
  {
    hide Fixed, Table, Little, Encodable;
  }

  lemma {:induction false} EntryLayout(h: seq<byte>, e: Entry, i: nat)
    requires |h| == HEADER_BYTES && i < MAXIMUM_ENTRIES && |e.tag| <= 8 && FieldsFit(e) && RawAt(h, i) == EntryField(e)
    ensures var at := 64 + 32 * i;
            && h[at..at + |e.tag|] == e.tag && (forall k :: at + |e.tag| <= k < at + 8 ==> h[k] == 0)
            && Field(h, at + 8, 4) == e.lba && Field(h, at + 12, 4) == e.sectorCount && Field(h, at + 16, 8) == e.loadAddress
            && Field(h, at + 24, 4) == e.byteLength && Field(h, at + 28, 4) == e.crc
  {
    Limits();
    ReadLittle(e.lba, 4);
    ReadLittle(e.sectorCount, 4);
    ReadLittle(e.loadAddress, 8);
    ReadLittle(e.byteLength, 4);
    ReadLittle(e.crc, 4);
    hide Little, Read, Limit, Zeros;
    Slices(TagField(e.tag), Little(e.lba, 4), Little(e.sectorCount, 4), Little(e.loadAddress, 8), Little(e.byteLength, 4),
           Little(e.crc, 4));
    var at := 64 + 32 * i;
    RawSlice(h, i, 0, 8);
    RawSlice(h, i, 8, 12);
    RawSlice(h, i, 12, 16);
    RawSlice(h, i, 16, 24);
    RawSlice(h, i, 24, 28);
    RawSlice(h, i, 28, 32);
    hide RawAt;
    TagLies(h, at, e.tag);
  }

  lemma RawSlice(h: seq<byte>, i: nat, a: nat, b: nat)
    requires |h| == HEADER_BYTES && i < MAXIMUM_ENTRIES && a <= b <= 32
    ensures h[64 + 32 * i + a..64 + 32 * i + b] == RawAt(h, i)[a..b]
  {
    var at, raw := 64 + 32 * i, RawAt(h, i);
    assert at == ENTRY_OFFSET + i * ENTRY_BYTES;
    forall k | 0 <= k < b - a
      ensures h[at + a..at + b][k] == raw[a..b][k]
    {
      assert raw[a + k] == h[at + (a + k)];
    }
  }

  lemma TagLies(h: seq<byte>, at: nat, tag: seq<byte>)
    requires at + 8 <= |h| && |tag| <= 8 && h[at..at + 8] == TagField(tag)
    ensures h[at..at + |tag|] == tag && forall k :: at + |tag| <= k < at + 8 ==> h[k] == 0
  {
    assert h[at..at + |tag|] == h[at..at + 8][..|tag|];
    forall k | at + |tag| <= k < at + 8
      ensures h[k] == 0
    {
      assert h[k] == h[at..at + 8][k - at];
    }
  }

  /** Whatever bytes are accepted as a header, the entries lie inside the image behind the header area,
      have room for their data, and no two of them share a sector. */
  lemma AcceptedRangesDisjoint(header: seq<byte>, imageBytes: nat, crc: Crc, i: nat, j: nat)
    requires DecodeHeader(header, imageBytes, crc).Success?
    ensures var entries := DecodeHeader(header, imageBytes, crc).value;
            && 1 <= |entries| <= MAXIMUM_ENTRIES
            && (i < |entries| ==>
                  var e := entries[i];
                  && FIRST_PAYLOAD_LBA <= e.lba && (e.lba + e.sectorCount) * SECTOR_BYTES <= imageBytes
                  && 0 < e.byteLength <= e.sectorCount * SECTOR_BYTES && e.tag != [])
            && (i < j < |entries| ==>
                  entries[i].lba + entries[i].sectorCount <= entries[j].lba ||
                  entries[j].lba + entries[j].sectorCount <= entries[i].lba)
  {
    hide DecodeEntries, Sort, NoneOverlap, Pairwise, Nonempty;
    var entries := DecodeHeader(header, imageBytes, crc).value;
    DecodedGood(header, Field(header, 20, 4), imageBytes);
    RangesNonempty(entries, imageBytes);
    OverlapExactly(Ranges(entries));
    if i < j < |entries| {
      PairwiseMeans(Ranges(entries), i, j);
    }
  }
}
