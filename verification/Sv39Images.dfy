/** The image builders tools/make_shared_sv39_image.py and tools/make_4h_sv39_image.py. */
module Sv39Images {
  import opened Bytes
  import opened Sv39

  const HARTS := 4
  const PREFIX_STRIDE := 0x10_0000
  const TLBI_TARGET_PAGE := 24
  const TLBI_NEW_PAGE := 28
  const TLBI_PTE_ALIAS_PAGE := 31
  const TLBI_OLD_VALUE := 0x1111_2222_3333_4444
  const TLBI_NEW_VALUE := 0xAAAA_BBBB_CCCC_DDDD

  datatype BuildError = TemplateTooLong(length: nat)

  lemma PutOutside(image: seq<byte>, offset: nat, value: nat)
    requires offset + 8 <= |image|
    ensures Outside(image, Put(image, offset, value), offset, offset + 8)
  {
  }

  lemma TableOutside(a: seq<byte>, b: seq<byte>, low: nat, high: nat, offset: nat, entry: nat -> nat)
    requires Table(a, offset, entry) && Outside(a, b, low, high) && (high <= offset || offset + PAGE <= low)
    ensures Table(b, offset, entry)
  {
    hide Entry, Outside;
    OutsideSize(a, b, low, high);
    forall k: nat | k < 512
      ensures Entry(b, offset, k) == Entry(a, offset, k)
    {
      EntryOutside(a, b, low, high, offset, k);
    }
  }

  lemma OutsideSize(a: seq<byte>, b: seq<byte>, low: nat, high: nat)
    requires Outside(a, b, low, high)
    ensures |a| == |b|
  {
  }

  /** Tables survive any change elsewhere. */
  lemma TablesOutside(a: seq<byte>, b: seq<byte>, low: nat, high: nat, prefix: nat, pages: nat -> Page)
    requires Tables(a, prefix, pages) && Outside(a, b, low, high)
    requires high <= prefix + ROOT_OFFSET || prefix + TABLES_END <= low
    ensures Tables(b, prefix, pages)
  {
    hide Table, Outside;
    TableOutside(a, b, low, high, prefix + ROOT_OFFSET, RootEntry(prefix));
    TableOutside(a, b, low, high, prefix + LEVEL1_OFFSET, Level1Entry(prefix));
    TableOutside(a, b, low, high, prefix + LEVEL0_OFFSET, PageEntry(pages));
  }

  lemma EntryOutside(a: seq<byte>, b: seq<byte>, low: nat, high: nat, offset: nat, k: nat)
    requires Outside(a, b, low, high) && offset + k * 8 + 8 <= |a|
    requires high <= offset + k * 8 || offset + k * 8 + 8 <= low
    ensures Entry(b, offset, k) == Entry(a, offset, k)
  {
    var at := offset + k * 8;
    assert a[at..at + 8] == b[at..at + 8];
  }

  // ---- Entries, one at a time ----

  /** A table whose first n entries are as given, and whose other entries are zero. */
  ghost predicate Filled(image: seq<byte>, offset: nat, entry: nat -> nat, n: nat) {
    offset + PAGE <= |image| && forall k: nat :: k < 512 ==> Entry(image, offset, k) == if k < n then entry(k) else 0
  }

  lemma ZerosFilled(image: seq<byte>, offset: nat, entry: nat -> nat)
    requires offset + PAGE <= |image| && forall i :: offset <= i < offset + PAGE ==> image[i] == 0
    ensures Filled(image, offset, entry, 0)
  {
    forall k: nat | k < 512
      ensures Entry(image, offset, k) == 0
    {
      ReadZeros(image[offset + k * 8..offset + k * 8 + 8]);
    }
    hide Entry;
  }

  lemma PutEntry(image: seq<byte>, offset: nat, k: nat, value: nat, j: nat)
    requires offset + PAGE <= |image| && k < 512 && j < 512 && value < U64
    ensures Entry(Put(image, offset + k * 8, value), offset, j) == if j == k then value else Entry(image, offset, j)
  {
    if j == k {
      PutAt(image, offset + k * 8, value);
    } else {
      PutElsewhere(image, offset + k * 8, value, offset + j * 8);
    }
  }

  lemma PutOther(image: seq<byte>, offset: nat, value: nat, table: nat, j: nat)
    requires offset + 8 <= |image| && table + PAGE <= |image| && j < 512
    requires offset + 8 <= table || table + PAGE <= offset
    ensures Entry(Put(image, offset, value), table, j) == Entry(image, table, j)
  {
    PutElsewhere(image, offset, value, table + j * 8);
  }

  lemma FilledNext(image: seq<byte>, offset: nat, entry: nat -> nat, k: nat)
    requires Filled(image, offset, entry, k) && k < 512 && entry(k) < U64
    ensures Filled(Put(image, offset + k * 8, entry(k)), offset, entry, k + 1)
  {
    hide Entry, Put;
    var after := Put(image, offset + k * 8, entry(k));
    forall j: nat | j < 512
      ensures Entry(after, offset, j) == if j < k + 1 then entry(j) else 0
    {
      PutEntry(image, offset, k, entry(k), j);
      assert j != k ==> Entry(image, offset, j) == if j < k then entry(j) else 0;
    }
  }

  /** A table with a single entry. */
  lemma FilledOnce(image: seq<byte>, offset: nat, entry: nat -> nat, k: nat)
    requires Filled(image, offset, entry, 0) && k < 512 && entry(k) < U64
    requires forall j: nat :: j != k ==> entry(j) == 0
    ensures Filled(Put(image, offset + k * 8, entry(k)), offset, entry, 512)
  {
    hide Entry;
    forall j: nat | j < 512
      ensures Entry(Put(image, offset + k * 8, entry(k)), offset, j) == entry(j)
    {
      PutEntry(image, offset, k, entry(k), j);
    }
  }

  lemma FilledKept(image: seq<byte>, at: nat, value: nat, offset: nat, entry: nat -> nat, n: nat)
    requires Filled(image, offset, entry, n) && at + 8 <= |image| && (at + 8 <= offset || offset + PAGE <= at)
    ensures Filled(Put(image, at, value), offset, entry, n)
  {
    hide Entry;
    forall j: nat | j < 512
      ensures Entry(Put(image, at, value), offset, j) == Entry(image, offset, j)
    {
      PutOther(image, at, value, offset, j);
    }
  }

  // ---- Building in place ----

  method PutU64(image: array<byte>, offset: nat, value: nat)
    requires offset + 8 <= image.Length
    modifies image
    ensures image[..] == Put(old(image[..]), offset, value)
  {
    var bytes := Little(value, 8);
    for i := 0 to 8
      invariant image[..] == old(image[..])[..offset] + bytes[..i] + old(image[..])[offset + i..]
    {
      image[offset + i] := bytes[i];
    }
    assert bytes[..8] == bytes;
  }

  method Clear(image: array<byte>, low: nat, high: nat)
    requires low <= high <= image.Length
    modifies image
    ensures (forall i :: low <= i < high ==> image[i] == 0) && Outside(old(image[..]), image[..], low, high)
  {
    for i := low to high
      invariant (forall j :: low <= j < i ==> image[j] == 0) && Outside(old(image[..]), image[..], low, i)
    {
      image[i] := 0;
    }
  }

  lemma OutsideJoins(a: seq<byte>, b: seq<byte>, c: seq<byte>, low: nat, high: nat, low1: nat, high1: nat)
    requires Outside(a, b, low, high) && Outside(b, c, low1, high1) && low <= low1 && high1 <= high
    ensures Outside(a, c, low, high)
  {
  }

  lemma EntriesFit(prefix: nat)
    requires prefix < 0x1000_0000
    ensures RootEntry(prefix)(1) == Pte(PHYSICAL_BASE + prefix + LEVEL1_OFFSET, NEXT_LEVEL) < U64
    ensures Level1Entry(prefix)(0) == Pte(PHYSICAL_BASE + prefix + LEVEL0_OFFSET, NEXT_LEVEL) < U64
    ensures forall k: nat :: k < MAPPED_BYTES / PAGE ==>
              PageEntry(Linear(prefix))(k) == Pte(PHYSICAL_BASE + prefix + k * PAGE, RWXAD) < U64
    ensures forall k: nat :: k >= MAPPED_BYTES / PAGE ==> PageEntry(Linear(prefix))(k) == 0
    ensures forall j: nat :: j != 1 ==> RootEntry(prefix)(j) == 0
    ensures forall j: nat :: j != 0 ==> Level1Entry(prefix)(j) == 0
  {
  }

  /** The image with the first n entries put into a table. */
  ghost function WithEntries(image: seq<byte>, offset: nat, entry: nat -> nat, n: nat): (r: seq<byte>)
    requires offset + PAGE <= |image| && n <= 512
    ensures |r| == |image|
  {
    if n == 0 then image else Put(WithEntries(image, offset, entry, n - 1), offset + (n - 1) * 8, entry(n - 1))
  }

  lemma {:induction false} WithEntriesFilled(image: seq<byte>, offset: nat, entry: nat -> nat, n: nat)
    requires offset + PAGE <= |image| && n <= 512 && Filled(image, offset, entry, 0)
    requires forall k: nat :: k < n ==> entry(k) < U64
    ensures Filled(WithEntries(image, offset, entry, n), offset, entry, n)
    ensures Outside(image, WithEntries(image, offset, entry, n), offset, offset + PAGE)
  {
    if n > 0 {
      WithEntriesFilled(image, offset, entry, n - 1);
      var before := WithEntries(image, offset, entry, n - 1);
      FilledNext(before, offset, entry, n - 1);
      PutOutside(before, offset + (n - 1) * 8, entry(n - 1));
    }
    hide Filled, Put;
  }

  lemma {:induction false} WithEntriesKeeps(image: seq<byte>, offset: nat, entry: nat -> nat, n: nat, other: nat,
                                            held: nat -> nat)
    requires offset + PAGE <= |image| && n <= 512 && Filled(image, other, held, 512)
    requires offset + PAGE <= other || other + PAGE <= offset
    ensures Filled(WithEntries(image, offset, entry, n), other, held, 512)
  {
    hide Filled, Put;
    if n > 0 {
      WithEntriesKeeps(image, offset, entry, n - 1, other, held);
      FilledKept(WithEntries(image, offset, entry, n - 1), offset + (n - 1) * 8, entry(n - 1), other, held, 512);
    }
  }

  lemma FilledTable(image: seq<byte>, offset: nat, entry: nat -> nat, n: nat)
    requires Filled(image, offset, entry, n) && forall k: nat :: n <= k < 512 ==> entry(k) == 0
    ensures Table(image, offset, entry)
  {
    hide Entry;
  }

  /** The image after the two pointers and the leaf entries of one root have been put. */
  ghost function Installed(image: seq<byte>, prefix: nat): (r: seq<byte>)
    requires prefix + TABLES_END <= |image|
    ensures |r| == |image|
  {
    var one := Put(image, prefix + ROOT_OFFSET + 8, Pte(PHYSICAL_BASE + prefix + LEVEL1_OFFSET, NEXT_LEVEL));
    var two := Put(one, prefix + LEVEL1_OFFSET, Pte(PHYSICAL_BASE + prefix + LEVEL0_OFFSET, NEXT_LEVEL));
    WithEntries(two, prefix + LEVEL0_OFFSET, PageEntry(Linear(prefix)), MAPPED_BYTES / PAGE)
  }

  lemma InstalledTables(image: seq<byte>, prefix: nat)
    requires prefix % PAGE == 0 && prefix < 0x1000_0000 && prefix + TABLES_END <= |image|
    requires forall i :: prefix + ROOT_OFFSET <= i < prefix + TABLES_END ==> image[i] == 0
    ensures Tables(Installed(image, prefix), prefix, Linear(prefix))
  {
    hide Filled, Put, RootEntry, Level1Entry, PageEntry, Linear, Pte, Outside, WithEntries, Table;
    var root, level1, level0 := prefix + ROOT_OFFSET, prefix + LEVEL1_OFFSET, prefix + LEVEL0_OFFSET;
    var top, middle, pages := RootEntry(prefix), Level1Entry(prefix), PageEntry(Linear(prefix));
    EntriesFit(prefix);
    ZerosFilled(image, root, top);
    ZerosFilled(image, level1, middle);
    ZerosFilled(image, level0, pages);
    var one := Put(image, root + 8, top(1));
    FilledOnce(image, root, top, 1);
    FilledKept(image, root + 8, top(1), level1, middle, 0);
    FilledKept(image, root + 8, top(1), level0, pages, 0);
    var two := Put(one, level1, middle(0));
    FilledOnce(one, level1, middle, 0);
    FilledKept(one, level1, middle(0), root, top, 512);
    FilledKept(one, level1, middle(0), level0, pages, 0);
    WithEntriesFilled(two, level0, pages, MAPPED_BYTES / PAGE);
    WithEntriesKeeps(two, level0, pages, MAPPED_BYTES / PAGE, root, top);
    WithEntriesKeeps(two, level0, pages, MAPPED_BYTES / PAGE, level1, middle);
    var image' := Installed(image, prefix);
    FilledTable(image', root, top, 512);
    FilledTable(image', level1, middle, 512);
    FilledTable(image', level0, pages, MAPPED_BYTES / PAGE);
  }

  lemma InstalledOutside(image: seq<byte>, prefix: nat)
    requires prefix < 0x1000_0000 && prefix + TABLES_END <= |image|
    requires forall i :: prefix + ROOT_OFFSET <= i < prefix + TABLES_END ==> image[i] == 0
    ensures Outside(image, Installed(image, prefix), prefix + ROOT_OFFSET, prefix + TABLES_END)
  {
    hide Filled, Put, RootEntry, Level1Entry, PageEntry, Linear, WithEntries, Outside;
    var level1, level0 := prefix + LEVEL1_OFFSET, prefix + LEVEL0_OFFSET;
    var p, q := Pte(PHYSICAL_BASE + prefix + LEVEL1_OFFSET, NEXT_LEVEL), Pte(PHYSICAL_BASE + prefix + LEVEL0_OFFSET, NEXT_LEVEL);
    var pages := PageEntry(Linear(prefix));
    EntriesFit(prefix);
    var at := prefix + ROOT_OFFSET + 8;
    var one := Put(image, at, p);
    var two := Put(one, level1, q);
    PutOutside(image, at, p);
    PutOutside(one, level1, q);
    ZerosFilled(image, level0, pages);
    FilledKept(image, at, p, level0, pages, 0);
    FilledKept(one, level1, q, level0, pages, 0);
    WithEntriesFilled(two, level0, pages, MAPPED_BYTES / PAGE);
    OutsideWidens(image, one, at, at + 8, prefix + ROOT_OFFSET, prefix + TABLES_END);
    OutsideJoins(image, one, two, prefix + ROOT_OFFSET, prefix + TABLES_END, level1, level1 + 8);
    OutsideJoins(image, two, Installed(image, prefix), prefix + ROOT_OFFSET, prefix + TABLES_END, level0, level0 + PAGE);
  }

  lemma OutsideWidens(a: seq<byte>, b: seq<byte>, low: nat, high: nat, low1: nat, high1: nat)
    requires Outside(a, b, low, high) && low1 <= low && high <= high1
    ensures Outside(a, b, low1, high1)
  {
  }

  method InstallTables(image: array<byte>, prefix: nat)
    requires prefix < 0x1000_0000 && prefix + TABLES_END <= image.Length
    modifies image
    ensures image[..] == Installed(old(image[..]), prefix)
  {
    hide Put;
    EntriesFit(prefix);
    PutU64(image, prefix + ROOT_OFFSET + 1 * 8, Pte(PHYSICAL_BASE + prefix + LEVEL1_OFFSET, NEXT_LEVEL));
    PutU64(image, prefix + LEVEL1_OFFSET, Pte(PHYSICAL_BASE + prefix + LEVEL0_OFFSET, NEXT_LEVEL));
    ghost var two := image[..];
    hide Pte;
    for page := 0 to MAPPED_BYTES / PAGE
      invariant image[..] == WithEntries(two, prefix + LEVEL0_OFFSET, PageEntry(Linear(prefix)), page)
    {
      PutU64(image, prefix + LEVEL0_OFFSET + page * 8, Pte(PHYSICAL_BASE + prefix + page * PAGE, RWXAD));
    }
  }
}
