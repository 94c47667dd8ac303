/** make_entries, encode_header, verify_bytes and the image assembly of tools/make-fpga-sd-image.py, for
    any list of payloads. */
module SdImage {
  import opened Bytes
  import opened Options
  import opened SdHeader

  datatype Input = Input(tag: seq<byte>, loadAddress: nat)

  datatype ImageError = Header(error: HeaderError) | LengthMismatch | UnalignedImage | PayloadCrc | Padding

  function Sectors(byteLength: nat): nat { (byteLength + SECTOR_BYTES - 1) / SECTOR_BYTES }

  /** The sector after these payloads. */
  function NextLba(payloads: seq<seq<byte>>): nat {
    if payloads == [] then FIRST_PAYLOAD_LBA
    else NextLba(payloads[..|payloads| - 1]) + Sectors(|payloads[|payloads| - 1]|)
  }

  function EntryOf(input: Input, data: seq<byte>, lba: nat, crc: Crc): Entry {
    Entry(input.tag, lba, Sectors(|data|), input.loadAddress, |data|, crc(data))
  }

  function EntriesOf(inputs: seq<Input>, payloads: seq<seq<byte>>, crc: Crc): (e: seq<Entry>)
    requires |inputs| == |payloads|
    ensures |e| == |inputs|
  {
    if inputs == [] then [] else
      var n := |inputs| - 1;
      EntriesOf(inputs[..n], payloads[..n], crc) + [EntryOf(inputs[n], payloads[n], NextLba(payloads[..n]), crc)]
  }

  method MakeEntries(inputs: seq<Input>, payloads: seq<seq<byte>>, crc: Crc) returns (r: Result<seq<Entry>, ImageError>)
    ensures if |inputs| == |payloads| then r == Success(EntriesOf(inputs, payloads, crc)) else r == Failure(LengthMismatch)
  {
    if |inputs| != |payloads| {
      return Failure(LengthMismatch);
    }
    var entries: seq<Entry> := [];
    var nextLba := FIRST_PAYLOAD_LBA;
    for i := 0 to |inputs|
      invariant entries == EntriesOf(inputs[..i], payloads[..i], crc) && nextLba == NextLba(payloads[..i])
    {
      assert inputs[..i + 1][..i] == inputs[..i] && payloads[..i + 1][..i] == payloads[..i];
      var sectorCount := Sectors(|payloads[i]|);
      entries := entries +
        [Entry(inputs[i].tag, nextLba, sectorCount, inputs[i].loadAddress, |payloads[i]|, crc(payloads[i]))];
      nextLba := nextLba + sectorCount;
    }
    assert inputs[..|inputs|] == inputs && payloads[..|payloads|] == payloads;
    r := Success(entries);
  }

  // ---- encode_header ----

  /** A header under construction. */
  function Partial(fixed: seq<byte>, table: seq<byte>): (p: seq<byte>)
    requires |fixed| == 32 && |table| <= 448
    ensures |p| == HEADER_BYTES
  {
    fixed + Zeros(32) + table + Zeros(448 - |table|)
  }

  lemma PartialCopied(fixed: seq<byte>, table: seq<byte>, more: seq<byte>, after: seq<byte>)
    requires |fixed| == 32 && |table| + |more| <= 448
    requires Outside(Partial(fixed, table), after, ENTRY_OFFSET + |table|, ENTRY_OFFSET + |table| + |more|)
    requires after[ENTRY_OFFSET + |table|..ENTRY_OFFSET + |table| + |more|] == more
    ensures after == Partial(fixed, table + more)
  {
    var before, want := Partial(fixed, table), Partial(fixed, table + more);
    var at := ENTRY_OFFSET + |table|;
    forall i | 0 <= i < HEADER_BYTES
      ensures after[i] == want[i]
    {
      if at <= i < at + |more| {
        assert after[i] == after[at..at + |more|][i - at];
      } else {
        assert after[i] == before[i];
      }
    }
  }

  /** The loop over the entries. */
  method PutEntries(header: array<byte>, entries: seq<Entry>, ghost fixed: seq<byte>) returns (r: Option<HeaderError>)
    requires header.Length == HEADER_BYTES && |fixed| == 32 && header[..] == Partial(fixed, [])
    modifies header
    ensures r.None? ==> |entries| <= 14 && (forall i :: 0 <= i < |entries| ==> Refusal(entries[i], i).None?)
    ensures r.None? ==> (forall i :: 0 <= i < |entries| ==> |entries[i].tag| <= 8) && header[..] == Partial(fixed, Table(entries))
    ensures r.Some? ==> exists i :: 0 <= i < |entries| && Refusal(entries[i], i) == r
  {
    hide Partial, EntryField, Outside, Refusal;
    var k := 0;
    assert entries[..0] == [];
    while k < |entries|
      invariant k <= |entries| && k <= 14 && forall i :: 0 <= i < k ==> Refusal(entries[i], i).None?
      invariant forall i :: 0 <= i < k ==> |entries[i].tag| <= 8
      invariant header[..] == Partial(fixed, Table(entries[..k]))
    {
      r := Refusal(entries[k], k);
      if r.Some? {
        return;
      }
      NotRefused(entries[k], k);
      assert entries[..k + 1][..k] == entries[..k];
      ghost var table := Table(entries[..k]);
      Copy(header, ENTRY_OFFSET + k * ENTRY_BYTES, EntryField(entries[k]));
      PartialCopied(fixed, table, EntryField(entries[k]), header[..]);
      k := k + 1;
    }
    assert entries[..k] == entries;
    r := None;
  }

  lemma NotRefused(e: Entry, index: nat)
    requires Refusal(e, index).None?
    ensures |e.tag| <= 8 && index < 14
  {
  }

  method EncodeHeader(entries: seq<Entry>, imageBytes: nat, crc: Crc) returns (r: Result<array<byte>, HeaderError>)
    ensures r.Success? <==> Encodable(entries, imageBytes)
    ensures r.Success? ==> fresh(r.value) && r.value[..] == SdHeader.Header(entries, imageBytes, crc)
    ensures r.Failure? ==> r.error == FieldTooLarge || exists i :: 0 <= i < |entries| && Refusal(entries[i], i) == Some(r.error)
  {
    if |entries| >= U32 || imageBytes >= U64 {
      return Failure(FieldTooLarge);
    }
    hide Partial, Outside, Fixed, Refusal, Table;
    var header := new byte[HEADER_BYTES](_ => 0);
    ghost var zeros := header[..];
    Copy(header, 0, Fixed(|entries|, imageBytes));
    StartsPartial(zeros, header[..], Fixed(|entries|, imageBytes));
    var refusal := PutEntries(header, entries, Fixed(|entries|, imageBytes));
    if refusal.Some? {
      return Failure(refusal.value);
    }
    BodyIs(entries, imageBytes);
    ghost var body := header[..];
    var covered := header[..HEADER_CRC_OFFSET];
    Copy(header, HEADER_CRC_OFFSET, Little(crc(covered), 4));
    LastFour(body, header[..], Little(crc(covered), 4));
    r := Success(header);
  }

  lemma StartsPartial(zeros: seq<byte>, header: seq<byte>, fixed: seq<byte>)
    requires |zeros| == HEADER_BYTES && (forall i :: 0 <= i < HEADER_BYTES ==> zeros[i] == 0) && |fixed| == 32
    requires Outside(zeros, header, 0, 32) && header[0..32] == fixed
    ensures header == Partial(fixed, [])
  {
    assert header[..32] == fixed;
  }

  lemma {:induction false} BodyIs(entries: seq<Entry>, imageBytes: nat)
    requires Encodable(entries, imageBytes)
    ensures |entries| <= 14 && forall i :: 0 <= i < |entries| ==> |entries[i].tag| <= 8
    ensures Body(entries, imageBytes) == Partial(Fixed(|entries|, imageBytes), Table(entries))
  {
    EncodableTags(entries, imageBytes);
  }

  lemma LastFour(before: seq<byte>, after: seq<byte>, four: seq<byte>)
    requires |before| == HEADER_BYTES && |four| == 4 && Outside(before, after, HEADER_CRC_OFFSET, HEADER_BYTES)
    requires after[HEADER_CRC_OFFSET..HEADER_BYTES] == four
    ensures after == before[..HEADER_CRC_OFFSET] + four
  {
  }
}
