/** The image assembly of build and verify_bytes in tools/make-fpga-sd-image.py, for any list of
    payloads. */
module SdBuild {
  import opened Bytes
  import opened Options
  import opened SdHeader
  import opened SdImage

  // ---- verify_bytes ----

  predicate Within(e: Entry, size: nat) {
    (e.lba + e.sectorCount) * SECTOR_BYTES <= size && e.byteLength <= e.sectorCount * SECTOR_BYTES
  }

  function VerifyEntry(image: seq<byte>, e: Entry, crc: Crc): Option<ImageError>
    requires Within(e, |image|)
  {
    var start := e.lba * SECTOR_BYTES;
    if crc(image[start..start + e.byteLength]) != e.crc then Some(PayloadCrc)
    else if exists i :: start + e.byteLength <= i < start + e.sectorCount * SECTOR_BYTES && image[i] != 0 then Some(Padding)
    else None
  }

  function VerifyEntries(image: seq<byte>, entries: seq<Entry>, crc: Crc): Option<ImageError>
    requires forall i :: 0 <= i < |entries| ==> Within(entries[i], |image|)
  {
    if entries == [] then None else
      match VerifyEntries(image, entries[..|entries| - 1], crc)
      case Some(error) => Some(error)
      case None => VerifyEntry(image, entries[|entries| - 1], crc)
  }

  lemma AcceptedWithin(header: seq<byte>, size: nat, crc: Crc)
    requires DecodeHeader(header, size, crc).Success?
    ensures var entries := DecodeHeader(header, size, crc).value; forall i :: 0 <= i < |entries| ==> Within(entries[i], size)
  {
    hide DecodeHeader;
    var entries := DecodeHeader(header, size, crc).value;
    forall i | 0 <= i < |entries|
      ensures Within(entries[i], size)
    {
      AcceptedRangesDisjoint(header, size, crc, i, i);
    }
  }

  function VerifyBytes(image: seq<byte>, crc: Crc): Result<seq<Entry>, ImageError> {
    if |image| % SECTOR_BYTES != 0 then Failure(UnalignedImage) else
      var header := if |image| < HEADER_BYTES then image else image[..HEADER_BYTES];
      var decoded := DecodeHeader(header, |image|, crc);
      if decoded.Failure? then Failure(ImageError.Header(decoded.error)) else
        AcceptedWithin(header, |image|, crc);
        match VerifyEntries(image, decoded.value, crc)
        case Some(error) => Failure(error)
        case None => Success(decoded.value)
  }

  /** The payload of this entry has its checksum, and zeros fill its last sector. */
  ghost predicate Sound(image: seq<byte>, e: Entry, crc: Crc)
    requires Within(e, |image|)
  {
    && crc(image[e.lba * SECTOR_BYTES..e.lba * SECTOR_BYTES + e.byteLength]) == e.crc
    && forall j :: e.lba * SECTOR_BYTES + e.byteLength <= j < (e.lba + e.sectorCount) * SECTOR_BYTES ==> image[j] == 0
  }

  lemma {:induction false} EntriesVerifyExactly(image: seq<byte>, entries: seq<Entry>, crc: Crc)
    requires forall i :: 0 <= i < |entries| ==> Within(entries[i], |image|)
    ensures VerifyEntries(image, entries, crc) == None <==> forall i :: 0 <= i < |entries| ==> Sound(image, entries[i], crc)
  {
    if entries != [] {
      EntriesVerifyExactly(image, entries[..|entries| - 1], crc);
    }
  }

  /** Exactly which images are accepted, and with which entries. */
  lemma {:induction false} VerifiesExactly(image: seq<byte>, entries: seq<Entry>, crc: Crc)
    ensures VerifyBytes(image, crc) == Success(entries) <==>
            && |image| % SECTOR_BYTES == 0 && |image| >= HEADER_BYTES
            && DecodeHeader(image[..HEADER_BYTES], |image|, crc) == Success(entries)
            && forall i :: 0 <= i < |entries| ==> Within(entries[i], |image|) && Sound(image, entries[i], crc)
  {
    hide Sound, Within, VerifyEntries;
    var header := if |image| < HEADER_BYTES then image else image[..HEADER_BYTES];
    assert DecodeHeader(header, |image|, crc).Success? ==> |header| == HEADER_BYTES;
    hide DecodeHeader;
    if DecodeHeader(header, |image|, crc) == Success(entries) {
      AcceptedWithin(header, |image|, crc);
      EntriesVerifyExactly(image, entries, crc);
    }
  }

  // ---- The assembled image ----

  function Start(payloads: seq<seq<byte>>, i: nat): nat
    requires i <= |payloads|
  {
    NextLba(payloads[..i]) * SECTOR_BYTES
  }

  lemma StartNext(payloads: seq<seq<byte>>, i: nat)
    requires i < |payloads|
    ensures Start(payloads, i + 1) == Start(payloads, i) + Sectors(|payloads[i]|) * SECTOR_BYTES
    ensures |payloads[i]| <= Sectors(|payloads[i]|) * SECTOR_BYTES && (payloads[i] != [] ==> Sectors(|payloads[i]|) > 0)
  {
    assert payloads[..i + 1][..i] == payloads[..i];
  }

  lemma {:induction false} StartsAscend(payloads: seq<seq<byte>>, i: nat, j: nat)
    requires i <= j <= |payloads|
    ensures FIRST_PAYLOAD_LBA * SECTOR_BYTES <= Start(payloads, i) <= Start(payloads, j)
    decreases j
  {
    hide Sectors;
    if i < j {
      StartsAscend(payloads, i, j - 1);
      StartNext(payloads, j - 1);
    } else if i > 0 {
      StartsAscend(payloads, 0, i - 1);
      StartNext(payloads, i - 1);
    } else {
      assert payloads[..0] == [];
    }
  }

  lemma {:induction false} EntryAt(inputs: seq<Input>, payloads: seq<seq<byte>>, crc: Crc, i: nat)
    requires i < |inputs| == |payloads|
    ensures EntriesOf(inputs, payloads, crc)[i] == EntryOf(inputs[i], payloads[i], NextLba(payloads[..i]), crc)
  {
    var n := |inputs| - 1;
    hide EntryOf, NextLba;
    if i < n {
      EntryAt(inputs[..n], payloads[..n], crc, i);
      assert payloads[..n][..i] == payloads[..i];
    }
  }

  /** Each entry describes its own input and payload, and takes the fewest sectors that hold it, right
      behind the entry before it. */
  lemma {:induction false} EntriesPacked(inputs: seq<Input>, payloads: seq<seq<byte>>, crc: Crc, i: nat)
    requires i < |inputs| == |payloads|
    ensures var entries := EntriesOf(inputs, payloads, crc);
            var e := entries[i];
            && e.tag == inputs[i].tag && e.loadAddress == inputs[i].loadAddress
            && e.byteLength == |payloads[i]| && e.crc == crc(payloads[i])
            && e.lba == (if i == 0 then 8 else entries[i - 1].lba + entries[i - 1].sectorCount)
            && forall k: nat :: e.byteLength <= k * 512 <==> e.sectorCount <= k
  {
    hide EntriesOf;
    EntryAt(inputs, payloads, crc, i);
    SectorsFewest(|payloads[i]|);
    hide Sectors;
    if i > 0 {
      EntryAt(inputs, payloads, crc, i - 1);
      assert payloads[..i][..i - 1] == payloads[..i - 1];
    }
  }

  lemma SectorsFewest(n: nat)
    ensures forall k: nat :: n <= k * SECTOR_BYTES <==> Sectors(n) <= k
  {
  }

  /** Payload i lies at its sectors, followed by zeros to the end of the last one. */
  ghost predicate Placed(image: seq<byte>, payloads: seq<seq<byte>>, i: nat)
    requires i < |payloads|
  {
    && Start(payloads, i + 1) <= |image| && Start(payloads, i) + |payloads[i]| <= Start(payloads, i + 1)
    && image[Start(payloads, i)..Start(payloads, i) + |payloads[i]|] == payloads[i]
    && forall j :: Start(payloads, i) + |payloads[i]| <= j < Start(payloads, i + 1) ==> image[j] == 0
  }

  lemma PlacedKept(a: seq<byte>, b: seq<byte>, low: nat, high: nat, payloads: seq<seq<byte>>, i: nat)
    requires i < |payloads| && Placed(a, payloads, i) && Outside(a, b, low, high) && Start(payloads, i + 1) <= low
    ensures Placed(b, payloads, i)
  {
  }

  lemma PlacedNow(a: seq<byte>, b: seq<byte>, payloads: seq<seq<byte>>, i: nat)
    requires i < |payloads| && Start(payloads, i + 1) <= |a|
    requires forall j :: Start(payloads, i) <= j < |a| ==> a[j] == 0
    requires Outside(a, b, Start(payloads, i), Start(payloads, i) + |payloads[i]|)
    requires |b| >= Start(payloads, i) + |payloads[i]|
    requires b[Start(payloads, i)..Start(payloads, i) + |payloads[i]|] == payloads[i]
    ensures Placed(b, payloads, i) && forall j :: Start(payloads, i + 1) <= j < |b| ==> b[j] == 0
  {
    StartNext(payloads, i);
    hide Start, Sectors;
  }

  /** Between the header and the first payload. */
  ghost predicate Reserved(image: seq<byte>) {
    forall j :: HEADER_BYTES <= j < FIRST_PAYLOAD_LBA * SECTOR_BYTES && j < |image| ==> image[j] == 0
  }

  /** The header, the reserved sectors, and all the payloads. */
  ghost predicate Assembled(image: seq<byte>, inputs: seq<Input>, payloads: seq<seq<byte>>, crc: Crc) {
    && |inputs| == |payloads| && |image| == Start(payloads, |payloads|) && |image| >= HEADER_BYTES
    && Encodable(EntriesOf(inputs, payloads, crc), |image|)
    && image[..HEADER_BYTES] == SdHeader.Header(EntriesOf(inputs, payloads, crc), |image|, crc)
    && Reserved(image)
    && forall i :: 0 <= i < |payloads| ==> Placed(image, payloads, i)
  }

  /** Which payload's sectors a byte lies in. */
  lemma {:induction false} PayloadOf(payloads: seq<seq<byte>>, n: nat, j: nat) returns (i: nat)
    requires n <= |payloads| && Start(payloads, 0) <= j < Start(payloads, n)
    ensures i < n && Start(payloads, i) <= j < Start(payloads, i + 1)
  {
    hide Start;
    i := n - 1;
    if j < Start(payloads, n - 1) {
      i := PayloadOf(payloads, n - 1, j);
    }
  }

  /** The inputs determine every byte of the image. */
  lemma {:induction false} AssembledUnique(a: seq<byte>, b: seq<byte>, inputs: seq<Input>, payloads: seq<seq<byte>>, crc: Crc)
    requires Assembled(a, inputs, payloads, crc) && Assembled(b, inputs, payloads, crc)
    ensures a == b
  {
    hide Start, EntriesOf, Encodable, SdHeader.Header, Placed;
    StartsAscend(payloads, 0, 0);
    StartZero(payloads);
    forall j | 0 <= j < |a|
      ensures a[j] == b[j]
    {
      if j < HEADER_BYTES {
        assert a[..HEADER_BYTES][j] == b[..HEADER_BYTES][j];
      } else if j >= FIRST_PAYLOAD_LBA * SECTOR_BYTES {
        var i := PayloadOf(payloads, |payloads|, j);
        PlacedAgree(a, b, payloads, i, j);
      }
    }
  }

  lemma PlacedAgree(a: seq<byte>, b: seq<byte>, payloads: seq<seq<byte>>, i: nat, j: nat)
    requires i < |payloads| && Placed(a, payloads, i) && Placed(b, payloads, i)
    requires Start(payloads, i) <= j < Start(payloads, i + 1)
    ensures j < |a| && j < |b| && a[j] == b[j]
  {
    hide Start;
    var from, size := Start(payloads, i), |payloads[i]|;
    if j < from + size {
      assert a[from..from + size][j - from] == b[from..from + size][j - from];
    }
  }

  method Build(inputs: seq<Input>, payloads: seq<seq<byte>>, crc: Crc) returns (r: Result<array<byte>, ImageError>)
    requires inputs != []
    ensures r.Success? <==> |inputs| == |payloads| &&
                            Encodable(EntriesOf(inputs, payloads, crc), NextLba(payloads) * SECTOR_BYTES)
    ensures r.Success? ==> fresh(r.value) && Assembled(r.value[..], inputs, payloads, crc)
  {
    hide Start, EntriesOf, Encodable, SdHeader.Header, Placed, Outside, NextLba, Sectors, Reserved;
    var made := MakeEntries(inputs, payloads, crc);
    if made.Failure? {
      return Failure(made.error);
    }
    var entries := made.value;
    ghost var n := |payloads|;
    LastEntry(inputs, payloads, crc);
    var imageBytes := (entries[|entries| - 1].lba + entries[|entries| - 1].sectorCount) * SECTOR_BYTES;
    var header := EncodeHeader(entries, imageBytes, crc);
    if header.Failure? {
      return Failure(ImageError.Header(header.error));
    }
    var image := new byte[imageBytes](_ => 0);
    ghost var zeros := image[..];
    Copy(image, 0, header.value[..]);
    HeaderFirst(zeros, image[..], payloads);
    var k := 0;
    while k < |entries|
      invariant k <= |entries| && |image[..]| == Start(payloads, n)
      invariant image[..HEADER_BYTES] == SdHeader.Header(entries, imageBytes, crc)
      invariant Reserved(image[..]) && forall i :: 0 <= i < k ==> Placed(image[..], payloads, i)
      invariant forall j :: Start(payloads, k) <= j < |image[..]| ==> image[..][j] == 0
    {
      ghost var before := image[..];
      EntryStart(inputs, payloads, crc, k);
      Copy(image, entries[k].lba * SECTOR_BYTES, payloads[k]);
      NextPayload(before, image[..], payloads, k);
      k := k + 1;
    }
    r := Success(image);
  }

  lemma {:induction false} LastEntry(inputs: seq<Input>, payloads: seq<seq<byte>>, crc: Crc)
    requires 0 < |inputs| == |payloads|
    ensures var last := EntriesOf(inputs, payloads, crc)[|inputs| - 1];
            (last.lba + last.sectorCount) * SECTOR_BYTES == Start(payloads, |payloads|) == NextLba(payloads) * SECTOR_BYTES
    ensures Start(payloads, |payloads|) >= HEADER_BYTES
  {
    var n := |payloads|;
    EntryAt(inputs, payloads, crc, n - 1);
    StartNext(payloads, n - 1);
    StartsAscend(payloads, 0, n);
    assert payloads[..n] == payloads;
  }

  lemma {:induction false} EntryStart(inputs: seq<Input>, payloads: seq<seq<byte>>, crc: Crc, k: nat)
    requires k < |inputs| == |payloads|
    ensures EntriesOf(inputs, payloads, crc)[k].lba * SECTOR_BYTES == Start(payloads, k)
    ensures HEADER_BYTES <= Start(payloads, k) && Start(payloads, k) + |payloads[k]| <= Start(payloads, k + 1)
    ensures Start(payloads, k + 1) <= Start(payloads, |payloads|)
  {
    EntryAt(inputs, payloads, crc, k);
    StartNext(payloads, k);
    StartsAscend(payloads, k + 1, |payloads|);
    StartsAscend(payloads, 0, k);
  }

  lemma HeaderFirst(zeros: seq<byte>, image: seq<byte>, payloads: seq<seq<byte>>)
    requires forall i :: 0 <= i < |zeros| ==> zeros[i] == 0
    requires Outside(zeros, image, 0, HEADER_BYTES)
    ensures |image| == |zeros| && forall j :: Start(payloads, 0) <= j < |image| ==> image[j] == 0
    ensures Reserved(image)
  {
    StartsAscend(payloads, 0, 0);
  }

  lemma NextPayload(before: seq<byte>, after: seq<byte>, payloads: seq<seq<byte>>, k: nat)
    requires k < |payloads| && |before| == Start(payloads, |payloads|)
    requires HEADER_BYTES <= Start(payloads, k) && Reserved(before)
    requires forall i :: 0 <= i < k ==> Placed(before, payloads, i)
    requires forall j :: Start(payloads, k) <= j < |before| ==> before[j] == 0
    requires Outside(before, after, Start(payloads, k), Start(payloads, k) + |payloads[k]|)
    requires |after| >= Start(payloads, k) + |payloads[k]|
    requires after[Start(payloads, k)..Start(payloads, k) + |payloads[k]|] == payloads[k]
    ensures |after| == |before| && Reserved(after) && forall i :: 0 <= i < k + 1 ==> Placed(after, payloads, i)
    ensures forall j :: Start(payloads, k + 1) <= j < |after| ==> after[j] == 0
    ensures HEADER_BYTES <= |before| && after[..HEADER_BYTES] == before[..HEADER_BYTES]
  {
    hide Start, Placed;
    StartsAscend(payloads, k + 1, |payloads|);
    StartsAscend(payloads, k, |payloads|);
    StartsAscend(payloads, 0, k);
    PlacedNow(before, after, payloads, k);
    forall i | 0 <= i < k
      ensures Placed(after, payloads, i)
    {
      StartsAscend(payloads, i + 1, k);
      PlacedKept(before, after, Start(payloads, k), Start(payloads, k) + |payloads[k]|, payloads, i);
    }
  }

  // ---- Verification accepts what was built ----

  /** Inputs that the format can carry: one to thirteen, with short ASCII tags that do not end in NUL,
      and payloads that are not empty. */
  predicate Carried(inputs: seq<Input>, payloads: seq<seq<byte>>) {
    && |inputs| == |payloads| && 1 <= |inputs| <= MAXIMUM_ENTRIES
    && forall i :: 0 <= i < |inputs| ==>
         && inputs[i].tag != [] && |inputs[i].tag| <= 8 && Ascii(inputs[i].tag) && inputs[i].tag[|inputs[i].tag| - 1] != 0
         && payloads[i] != []
  }

  lemma {:induction false} EntryGood(image: seq<byte>, inputs: seq<Input>, payloads: seq<seq<byte>>, crc: Crc, i: nat)
    requires Assembled(image, inputs, payloads, crc) && Carried(inputs, payloads) && i < |inputs|
    ensures var e := EntriesOf(inputs, payloads, crc)[i]; GoodEntry(e, |image|) && Within(e, |image|)
  {
    hide SdHeader.Header, EntriesOf, Placed;
    assert Refusal(EntriesOf(inputs, payloads, crc)[i], i).None?;
    EntryAt(inputs, payloads, crc, i);
    StartNext(payloads, i);
    StartsAscend(payloads, 0, i);
    StartsAscend(payloads, i + 1, |payloads|);
    StartZero(payloads);
    hide NextLba, Sectors;
  }

  lemma {:induction false} EntryVerifies(image: seq<byte>, inputs: seq<Input>, payloads: seq<seq<byte>>, crc: Crc, i: nat)
    requires Assembled(image, inputs, payloads, crc) && i < |inputs|
    requires Within(EntriesOf(inputs, payloads, crc)[i], |image|)
    ensures VerifyEntry(image, EntriesOf(inputs, payloads, crc)[i], crc) == None
  {
    hide SdHeader.Header, EntriesOf, Encodable;
    assert Placed(image, payloads, i);
    EntryAt(inputs, payloads, crc, i);
    StartNext(payloads, i);
    hide NextLba, Sectors;
  }

  lemma StartZero(payloads: seq<seq<byte>>)
    ensures Start(payloads, 0) == FIRST_PAYLOAD_LBA * SECTOR_BYTES
  {
    assert payloads[..0] == [];
  }

  lemma {:induction false} AllVerify(image: seq<byte>, entries: seq<Entry>, crc: Crc)
    requires forall i :: 0 <= i < |entries| ==> Within(entries[i], |image|) && VerifyEntry(image, entries[i], crc) == None
    ensures VerifyEntries(image, entries, crc) == None
  {
    hide VerifyEntry;
    if entries != [] {
      AllVerify(image, entries[..|entries| - 1], crc);
    }
  }

  lemma {:induction false} EntryAfter(inputs: seq<Input>, payloads: seq<seq<byte>>, crc: Crc, i: nat, j: nat)
    requires i < j < |inputs| == |payloads|
    ensures var e := EntriesOf(inputs, payloads, crc); e[i].lba + e[i].sectorCount <= e[j].lba
  {
    EntryAt(inputs, payloads, crc, i);
    EntryAt(inputs, payloads, crc, j);
    StartNext(payloads, i);
    StartsAscend(payloads, i + 1, j);
    hide Sectors, NextLba, EntriesOf;
  }

  lemma {:induction false} AscendingApart(entries: seq<Entry>)
    requires forall i, j :: 0 <= i < j < |entries| ==> entries[i].lba + entries[i].sectorCount <= entries[j].lba
    ensures Pairwise(Ranges(entries))
  {
    if entries != [] {
      var rest := entries[1..];
      assert forall i :: 0 <= i < |rest| ==> rest[i] == entries[i + 1];
      AscendingApart(rest);
      assert Ranges(entries)[1..] == Ranges(rest);
      AllAfter(Ranges(entries)[0], Ranges(rest));
    }
  }

  lemma {:induction false} AllAfter(r: Range, list: seq<Range>)
    requires forall i :: 0 <= i < |list| ==> r.1 <= list[i].0
    ensures ApartFrom(r, list)
  {
    if list != [] {
      AllAfter(r, list[1..]);
    }
  }

  /** Verification accepts every image that was built from such inputs, and returns the entries it was
      built with. */
  lemma {:induction false} BuiltImageVerifies(image: seq<byte>, inputs: seq<Input>, payloads: seq<seq<byte>>, crc: Crc)
    requires Assembled(image, inputs, payloads, crc) && Carried(inputs, payloads)
    ensures VerifyBytes(image, crc) == Success(EntriesOf(inputs, payloads, crc))
  {
    hide EntriesOf, GoodEntry, Within, VerifyEntry, SdHeader.Header, DecodeHeader, Carried, Ranges, Placed, Encodable;
    var entries := EntriesOf(inputs, payloads, crc);
    assert |image| % SECTOR_BYTES == 0;
    CarriedCount(inputs, payloads);
    forall i | 0 <= i < |entries|
      ensures GoodEntry(entries[i], |image|) && Within(entries[i], |image|) && VerifyEntry(image, entries[i], crc) == None
    {
      EntryGood(image, inputs, payloads, crc, i);
      EntryVerifies(image, inputs, payloads, crc, i);
    }
    hide Start;
    forall i, j | 0 <= i < j < |entries|
      ensures entries[i].lba + entries[i].sectorCount <= entries[j].lba
    {
      EntryAfter(inputs, payloads, crc, i, j);
    }
    AscendingApart(entries);
    HeaderRoundTrip(entries, |image|, crc);
    AllVerify(image, entries, crc);
  }

  lemma CarriedCount(inputs: seq<Input>, payloads: seq<seq<byte>>)
    requires Carried(inputs, payloads)
    ensures 1 <= |inputs| <= MAXIMUM_ENTRIES
  {
  }
}
