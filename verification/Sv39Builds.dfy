/** build in tools/make_shared_sv39_image.py and tools/make_4h_sv39_image.py, and what the images mean to
    the harts. */
module Sv39Builds {
  import opened Bytes
  import opened Options
  import opened Sv39
  import opened Sv39Images

  const HARTS_BYTES := (HARTS - 1) * PREFIX_STRIDE + TABLES_END

  /** Table bytes aside, the image shows the template from `prefix` on, and zeros after it. */
  ghost predicate Shows(image: seq<byte>, prefix: nat, template: seq<byte>) {
    && prefix + TABLES_END <= |image|
    && forall i :: 0 <= i < ROOT_OFFSET ==> image[prefix + i] == if i < |template| then template[i] else 0
  }

  /** One root: a copy of the template, and its tables. */
  ghost predicate Rooted(image: seq<byte>, prefix: nat, template: seq<byte>) {
    Shows(image, prefix, template) && Tables(image, prefix, Linear(prefix))
  }

  lemma ShowsOutside(a: seq<byte>, b: seq<byte>, low: nat, high: nat, prefix: nat, template: seq<byte>)
    requires Shows(a, prefix, template) && Outside(a, b, low, high)
    requires high <= prefix || prefix + ROOT_OFFSET <= low
    ensures Shows(b, prefix, template)
  {
  }

  lemma CopyShows(start: seq<byte>, copied: seq<byte>, prefix: nat, template: seq<byte>)
    requires |template| <= TABLES_END && prefix + TABLES_END <= |start|
    requires forall i :: prefix <= i < prefix + TABLES_END ==> start[i] == 0
    requires Outside(start, copied, prefix, prefix + |template|) && copied[prefix..prefix + |template|] == template
    ensures Shows(copied, prefix, template)
  {
  }

  /** Copies the template and installs the tables at one prefix of an image that is zero there. */
  method InstallRoot(image: array<byte>, prefix: nat, template: seq<byte>)
    requires prefix % PAGE == 0 && prefix < 0x1000_0000 && prefix + TABLES_END <= image.Length
    requires |template| <= TABLES_END && forall i :: prefix <= i < prefix + TABLES_END ==> image[i] == 0
    modifies image
    ensures Rooted(image[..], prefix, template)
    ensures Outside(old(image[..]), image[..], prefix, prefix + TABLES_END)
  {
    hide Tables, Installed;
    ghost var start := image[..];
    Copy(image, prefix, template);
    ghost var copied := image[..];
    CopyShows(start, copied, prefix, template);
    Clear(image, prefix + ROOT_OFFSET, prefix + TABLES_END);
    ghost var cleared := image[..];
    assert Shows(cleared, prefix, template);
    hide Shows, Outside;
    InstalledTables(cleared, prefix);
    InstalledOutside(cleared, prefix);
    InstallTables(image, prefix);
    ShowsOutside(cleared, image[..], prefix + ROOT_OFFSET, prefix + TABLES_END, prefix, template);
    OutsideWidens(start, copied, prefix, prefix + |template|, prefix, prefix + TABLES_END);
    OutsideJoins(start, copied, cleared, prefix, prefix + TABLES_END, prefix + ROOT_OFFSET, prefix + TABLES_END);
    OutsideJoins(start, cleared, image[..], prefix, prefix + TABLES_END, prefix + ROOT_OFFSET, prefix + TABLES_END);
  }

  // ---- Four harts ----

  /** Between the tables of one hart and the prefix of the next. */
  ghost predicate GapsZero(image: seq<byte>) {
    forall i :: 0 <= i < |image| && i % PREFIX_STRIDE >= TABLES_END ==> image[i] == 0
  }

  /** The four-hart image: one root for each hart, each with its own copy of the template. */
  method BuildHarts(template: seq<byte>) returns (r: Result<array<byte>, BuildError>)
    ensures |template| > TABLES_END ==> r == Failure(TemplateTooLong(|template|))
    ensures |template| <= TABLES_END ==>
              && r.Success? && fresh(r.value) && r.value.Length == HARTS_BYTES
              && GapsZero(r.value[..])
              && forall hart: nat :: hart < HARTS ==> Rooted(r.value[..], hart * PREFIX_STRIDE, template)
  {
    if |template| > TABLES_END {
      return Failure(TemplateTooLong(|template|));
    }
    hide Rooted, Installed, GapsZero;
    var image := new byte[HARTS_BYTES](_ => 0);
    ZeroGaps(image[..]);
    for hart := 0 to HARTS
      invariant forall i :: hart * PREFIX_STRIDE <= i < HARTS_BYTES ==> image[i] == 0
      invariant GapsZero(image[..])
      invariant forall h: nat :: h < hart ==> Rooted(image[..], h * PREFIX_STRIDE, template)
    {
      ghost var before := image[..];
      var prefix := hart * PREFIX_STRIDE;
      InstallRoot(image, prefix, template);
      GapsKept(before, image[..], hart);
      forall h: nat | h < hart
        ensures Rooted(image[..], h * PREFIX_STRIDE, template)
      {
        RootedOutside(before, image[..], prefix, prefix + TABLES_END, h * PREFIX_STRIDE, template);
      }
    }
    r := Success(image);
  }

  lemma ZeroGaps(image: seq<byte>)
    requires forall i :: 0 <= i < |image| ==> image[i] == 0
    ensures GapsZero(image)
  {
  }

  lemma GapsKept(a: seq<byte>, b: seq<byte>, hart: nat)
    requires GapsZero(a) && Outside(a, b, hart * PREFIX_STRIDE, hart * PREFIX_STRIDE + TABLES_END)
    ensures GapsZero(b)
  {
  }

  lemma EntryDetermines(a: seq<byte>, b: seq<byte>, offset: nat, entry: nat -> nat, i: nat)
    requires Table(a, offset, entry) && Table(b, offset, entry) && offset <= i < offset + PAGE
    ensures i < |a| && i < |b| && a[i] == b[i]
  {
    var k := (i - offset) / 8;
    var at := offset + k * 8;
    assert Entry(a, offset, k) == Entry(b, offset, k);
    LittleRead(a[at..at + 8]);
    LittleRead(b[at..at + 8]);
    assert a[at..at + 8][i - at] == b[at..at + 8][i - at];
  }

  /** A template determines every byte of its root. */
  lemma RootedDetermines(a: seq<byte>, b: seq<byte>, prefix: nat, template: seq<byte>, i: nat)
    requires Rooted(a, prefix, template) && Rooted(b, prefix, template) && prefix <= i < prefix + TABLES_END
    ensures i < |a| && i < |b| && a[i] == b[i]
  {
    hide Table, RootEntry, Level1Entry, PageEntry;
    if i < prefix + ROOT_OFFSET {
      ShowsAt(a, prefix, template, i - prefix);
      ShowsAt(b, prefix, template, i - prefix);
    } else if i < prefix + LEVEL1_OFFSET {
      EntryDetermines(a, b, prefix + ROOT_OFFSET, RootEntry(prefix), i);
    } else if i < prefix + LEVEL0_OFFSET {
      EntryDetermines(a, b, prefix + LEVEL1_OFFSET, Level1Entry(prefix), i);
    } else {
      EntryDetermines(a, b, prefix + LEVEL0_OFFSET, PageEntry(Linear(prefix)), i);
    }
  }

  /** The template determines every byte of the image. */
  lemma HartsUnique(a: seq<byte>, b: seq<byte>, template: seq<byte>)
    requires |a| == |b| == HARTS_BYTES && GapsZero(a) && GapsZero(b)
    requires forall h: nat :: h < HARTS ==> Rooted(a, h * PREFIX_STRIDE, template) && Rooted(b, h * PREFIX_STRIDE, template)
    ensures a == b
  {
    hide Rooted;
    forall i | 0 <= i < |a|
      ensures a[i] == b[i]
    {
      var h := i / PREFIX_STRIDE;
      assert h < HARTS && h * PREFIX_STRIDE <= i < (h + 1) * PREFIX_STRIDE;
      if i < h * PREFIX_STRIDE + TABLES_END {
        RootedDetermines(a, b, h * PREFIX_STRIDE, template, i);
      }
    }
  }

  lemma RootedOutside(a: seq<byte>, b: seq<byte>, low: nat, high: nat, prefix: nat, template: seq<byte>)
    requires Rooted(a, prefix, template) && Outside(a, b, low, high)
    requires high <= prefix || prefix + TABLES_END <= low
    ensures Rooted(b, prefix, template)
  {
    hide Tables;
    ShowsOutside(a, b, low, high, prefix, template);
    TablesOutside(a, b, low, high, prefix, Linear(prefix));
  }

  /** What a root's window means: its 0x20000 bytes lie linearly in that root's physical memory, and
      every other address faults. */
  function Window(prefix: nat, va: nat): Translation {
    if VIRTUAL_BASE <= va < VIRTUAL_BASE + MAPPED_BYTES then Physical(PHYSICAL_BASE + prefix + (va - VIRTUAL_BASE))
    else PageFault
  }

  lemma LinearMeans(prefix: nat, va: nat, access: Access)
    requires prefix % PAGE == 0 && prefix < 0x1000_0000
    ensures Meaning(Linear(prefix), va, access) == Window(prefix, va)
    ensures forall k :: 0 <= k < 512 ==> Usable(Linear(prefix)(k))
  {
  }

  /** Every 64-bit virtual address, for every kind of access. */
  lemma RootTranslates(image: seq<byte>, prefix: nat, template: seq<byte>, va: nat, access: Access)
    requires Rooted(image, prefix, template) && va < U64
    ensures Translate(image, PHYSICAL_BASE + prefix + ROOT_OFFSET, va, access) == Window(prefix, va)
  {
    hide Translate, Meaning, Table, Linear;
    LinearMeans(prefix, va, access);
    TablesTranslate(image, prefix, Linear(prefix), va, access);
  }

  // ---- Running harts ----

  /** A byte that a hart tries to store at a virtual address. */
  datatype Write = Write(hart: nat, va: nat, value: byte)

  predicate Possible(w: Write) { w.hart < HARTS && w.va < U64 }

  function RootOf(hart: nat): nat { PHYSICAL_BASE + hart * PREFIX_STRIDE + ROOT_OFFSET }

  /** What memory keeps while the harts run: the tables, and nothing about the rest. */
  ghost predicate Running(image: seq<byte>) {
    |image| == HARTS_BYTES && forall h: nat :: h < HARTS ==> Tables(image, h * PREFIX_STRIDE, Linear(h * PREFIX_STRIDE))
  }

  /** The physical byte behind an address, when the walk of this hart's tables finds one. */
  function Reached(image: seq<byte>, hart: nat, va: nat, access: Access): Option<nat> {
    match Translate(image, RootOf(hart), va, access)
    case Physical(address) =>
      if PHYSICAL_BASE <= address < PHYSICAL_BASE + |image| then Some(address - PHYSICAL_BASE) else None
    case PageFault => None
    case AccessFault => None
  }

  /** A store that faults changes nothing. */
  function Stored(image: seq<byte>, w: Write): (r: seq<byte>)
    ensures |r| == |image|
  {
    match Reached(image, w.hart, w.va, Store)
    case Some(at) => image[at := w.value]
    case None => image
  }

  function AfterStores(image: seq<byte>, writes: seq<Write>): (r: seq<byte>)
    ensures |r| == |image|
  {
    if writes == [] then image else Stored(AfterStores(image, writes[..|writes| - 1]), writes[|writes| - 1])
  }

  function Loaded(image: seq<byte>, hart: nat, va: nat, access: Access): Option<byte> {
    match Reached(image, hart, va, access)
    case Some(at) => Some(image[at])
    case None => None
  }

  /** The stores of one hart, in order. */
  function Own(writes: seq<Write>, hart: nat): seq<Write> {
    if writes == [] then []
    else
      var last := writes[|writes| - 1];
      Own(writes[..|writes| - 1], hart) + if last.hart == hart then [last] else []
  }

  function InWindow(hart: nat, va: nat): Option<nat> {
    if VIRTUAL_BASE <= va < VIRTUAL_BASE + MAPPED_BYTES then Some(hart * PREFIX_STRIDE + (va - VIRTUAL_BASE)) else None
  }

  lemma ReachesWindow(image: seq<byte>, hart: nat, va: nat, access: Access)
    requires Running(image) && hart < HARTS && va < U64
    ensures Translate(image, RootOf(hart), va, access) == Window(hart * PREFIX_STRIDE, va)
    ensures Reached(image, hart, va, access) == InWindow(hart, va)
  {
    hide Tables, Meaning, Linear, Translate, Usable;
    var prefix := hart * PREFIX_STRIDE;
    LinearMeans(prefix, va, access);
    TablesTranslate(image, prefix, Linear(prefix), va, access);
  }

  lemma ByteKeepsTables(image: seq<byte>, hart: nat, at: nat, value: byte, h: nat)
    requires Running(image) && hart < HARTS && h < HARTS
    requires hart * PREFIX_STRIDE <= at < hart * PREFIX_STRIDE + MAPPED_BYTES
    ensures at < |image| && Tables(image[at := value], h * PREFIX_STRIDE, Linear(h * PREFIX_STRIDE))
  {
    hide Tables, Linear;
    var after := image[at := value];
    assert Outside(image, after, at, at + 1);
    assert at + 1 <= h * PREFIX_STRIDE + ROOT_OFFSET || h * PREFIX_STRIDE + TABLES_END <= at;
    hide Outside;
    TablesOutside(image, after, at, at + 1, h * PREFIX_STRIDE, Linear(h * PREFIX_STRIDE));
  }

  lemma StoreStays(image: seq<byte>, w: Write)
    requires Running(image) && Possible(w)
    ensures Running(Stored(image, w))
    ensures Stored(image, w) == match InWindow(w.hart, w.va) case Some(at) => image[at := w.value] case None => image
  {
    hide Tables, Linear, Reached;
    ReachesWindow(image, w.hart, w.va, Store);
    if at :| InWindow(w.hart, w.va) == Some(at) {
      forall h: nat | h < HARTS
        ensures Tables(image[at := w.value], h * PREFIX_STRIDE, Linear(h * PREFIX_STRIDE))
      {
        ByteKeepsTables(image, w.hart, at, w.value, h);
      }
    }
  }

  /** The images agree on the physical window of a hart. */
  ghost predicate SameWindow(a: seq<byte>, b: seq<byte>, hart: nat) {
    && |a| == |b| == HARTS_BYTES
    && forall i :: hart * PREFIX_STRIDE <= i < hart * PREFIX_STRIDE + MAPPED_BYTES && i < |a| ==> a[i] == b[i]
  }

  lemma {:induction false} StoresStay(image: seq<byte>, writes: seq<Write>)
    requires Running(image) && forall k :: 0 <= k < |writes| ==> Possible(writes[k])
    ensures Running(AfterStores(image, writes))
  {
    hide Running, Stored;
    if writes != [] {
      StoresStay(image, writes[..|writes| - 1]);
      StoreStays(AfterStores(image, writes[..|writes| - 1]), writes[|writes| - 1]);
    }
  }

  lemma {:induction false} OwnPossible(writes: seq<Write>, hart: nat)
    requires forall k :: 0 <= k < |writes| ==> Possible(writes[k])
    ensures forall k :: 0 <= k < |Own(writes, hart)| ==> Possible(Own(writes, hart)[k])
  {
    if writes != [] {
      OwnPossible(writes[..|writes| - 1], hart);
    }
  }

  lemma OwnStoreAgrees(a: seq<byte>, b: seq<byte>, w: Write)
    requires Running(a) && Running(b) && Possible(w) && SameWindow(a, b, w.hart)
    ensures SameWindow(Stored(a, w), Stored(b, w), w.hart)
  {
    hide Tables, Stored;
    StoreStays(a, w);
    StoreStays(b, w);
    hide Running;
  }

  lemma OtherStoreSpares(a: seq<byte>, b: seq<byte>, w: Write, hart: nat)
    requires Running(a) && Possible(w) && hart < HARTS && w.hart != hart && SameWindow(a, b, hart)
    ensures SameWindow(Stored(a, w), b, hart)
  {
    hide Tables, Stored;
    StoreStays(a, w);
    hide Running;
  }

  /** The window of a hart holds what its own stores alone would have left there. */
  lemma {:induction false} WindowIsOwn(image: seq<byte>, writes: seq<Write>, hart: nat)
    requires Running(image) && hart < HARTS && forall k :: 0 <= k < |writes| ==> Possible(writes[k])
    ensures SameWindow(AfterStores(image, writes), AfterStores(image, Own(writes, hart)), hart)
  {
    hide Running, Stored, SameWindow, Possible;
    if writes != [] {
      var before, w := writes[..|writes| - 1], writes[|writes| - 1];
      WindowIsOwn(image, before, hart);
      StoresStay(image, before);
      OwnPossible(before, hart);
      StoresStay(image, Own(before, hart));
      if w.hart == hart {
        OwnStoreAgrees(AfterStores(image, before), AfterStores(image, Own(before, hart)), w);
        assert Own(writes, hart) == Own(before, hart) + [w];
        assert Own(writes, hart)[..|Own(before, hart)|] == Own(before, hart);
      } else {
        OtherStoreSpares(AfterStores(image, before), AfterStores(image, Own(before, hart)), w, hart);
        assert Own(writes, hart) == Own(before, hart);
      }
    } else {
      NothingStored(image, hart);
    }
  }

  lemma NothingStored(image: seq<byte>, hart: nat)
    requires Running(image)
    ensures SameWindow(image, image, hart)
  {
    hide Tables;
  }

  /** Whatever the harts store, each through its own tables, in any interleaving: every translation
      of every hart stays as built, and every hart reads at every address what it would have read had
      it run alone. */
  lemma {:induction false} HartsDoNotInterfere(image: seq<byte>, writes: seq<Write>, hart: nat, va: nat, access: Access)
    requires Running(image) && forall k :: 0 <= k < |writes| ==> Possible(writes[k])
    requires hart < HARTS && va < U64
    ensures var after, alone := AfterStores(image, writes), AfterStores(image, Own(writes, hart));
            && Running(after)
            && Translate(after, RootOf(hart), va, access) == Window(hart * PREFIX_STRIDE, va)
            && Loaded(after, hart, va, access) == Loaded(alone, hart, va, access)
  {
    hide Tables, Translate, Reached, Possible;
    StoresStay(image, writes);
    OwnPossible(writes, hart);
    StoresStay(image, Own(writes, hart));
    ReachesWindow(AfterStores(image, writes), hart, va, access);
    ReachesWindow(AfterStores(image, Own(writes, hart)), hart, va, access);
    WindowIsOwn(image, writes, hart);
  }

  /** The built image runs. */
  lemma BuiltRuns(image: seq<byte>, template: seq<byte>)
    requires |image| == HARTS_BYTES && forall h: nat :: h < HARTS ==> Rooted(image, h * PREFIX_STRIDE, template)
    ensures Running(image)
  {
    hide Tables, Shows;
    forall h: nat | h < HARTS
      ensures Tables(image, h * PREFIX_STRIDE, Linear(h * PREFIX_STRIDE))
    {
      assert Rooted(image, h * PREFIX_STRIDE, template);
    }
  }

  // ---- The shared image ----

  /** The same pages with one of them replaced. */
  function Repaged(pages: nat -> Page, k: nat, p: Page): nat -> Page {
    (j: nat) => if j == k then p else pages(j)
  }

  function Always(p: Page): nat -> Page { (j: nat) => p }

  /** Page 31 of the test image is a writable view of the level-0 table. */
  function AliasPages(): nat -> Page {
    Repaged(Linear(0), TLBI_PTE_ALIAS_PAGE, Mapped(PHYSICAL_BASE + LEVEL0_OFFSET, RWAD))
  }

  lemma LeafRepages(image: seq<byte>, pages: nat -> Page, k: nat, p: Page)
    requires Table(image, LEVEL0_OFFSET, PageEntry(pages)) && k < 512 && p.Mapped? && Usable(p)
    ensures Table(Put(image, LEVEL0_OFFSET + k * 8, Pte(p.address, p.flags)), LEVEL0_OFFSET, PageEntry(Repaged(pages, k, p)))
  {
    hide Entry, Put;
    var value := Pte(p.address, p.flags);
    var after := Put(image, LEVEL0_OFFSET + k * 8, value);
    forall j: nat | j < 512
      ensures Entry(after, LEVEL0_OFFSET, j) == PageEntry(Repaged(pages, k, p))(j)
    {
      PutEntry(image, LEVEL0_OFFSET, k, value, j);
    }
  }

  lemma TableFits(image: seq<byte>, offset: nat, entry: nat -> nat)
    requires Table(image, offset, entry)
    ensures offset + PAGE <= |image|
  {
  }

  /** Writing one entry of the level-0 table replaces that page and nothing else. */
  lemma EntryRepages(image: seq<byte>, pages: nat -> Page, k: nat, p: Page)
    requires Tables(image, 0, pages) && k < 512 && p.Mapped? && Usable(p)
    ensures LEVEL0_OFFSET + PAGE <= |image|
    ensures Tables(Put(image, LEVEL0_OFFSET + k * 8, Pte(p.address, p.flags)), 0, Repaged(pages, k, p))
  {
    hide Entry, Put, Outside, Table, RootEntry, Level1Entry, PageEntry, Pte, Usable, Repaged;
    TableFits(image, LEVEL0_OFFSET, PageEntry(pages));
    var at, value := LEVEL0_OFFSET + k * 8, Pte(p.address, p.flags);
    var after := Put(image, at, value);
    PutOutside(image, at, value);
    TableOutside(image, after, at, at + 8, ROOT_OFFSET, RootEntry(0));
    TableOutside(image, after, at, at + 8, LEVEL1_OFFSET, Level1Entry(0));
    LeafRepages(image, pages, k, p);
  }

  /** The shared image; with tlbiTest, the alias and the two data values of the remapping test. */
  method BuildShared(template: seq<byte>, tlbiTest: bool) returns (r: Result<array<byte>, BuildError>)
    ensures |template| > TABLES_END ==> r == Failure(TemplateTooLong(|template|))
    ensures |template| <= TABLES_END ==> r.Success? && fresh(r.value) && r.value.Length == TABLES_END
    ensures |template| <= TABLES_END && !tlbiTest ==> Rooted(r.value[..], 0, template)
    ensures |template| <= TABLES_END && tlbiTest ==> Aliased(r.value[..], template)
  {
    if |template| > TABLES_END {
      return Failure(TemplateTooLong(|template|));
    }
    hide Tables, Put;
    var image := new byte[TABLES_END](_ => 0);
    InstallRoot(image, 0, template);
    if tlbiTest {
      ghost var plain := image[..];
      var alias := Pte(PHYSICAL_BASE + LEVEL0_OFFSET, RWAD);
      PutU64(image, LEVEL0_OFFSET + TLBI_PTE_ALIAS_PAGE * 8, alias);
      ghost var aliased := image[..];
      EntryRepages(plain, Linear(0), TLBI_PTE_ALIAS_PAGE, Mapped(PHYSICAL_BASE + LEVEL0_OFFSET, RWAD));
      PutU64(image, TLBI_TARGET_PAGE * PAGE, TLBI_OLD_VALUE);
      ghost var one := image[..];
      PutU64(image, TLBI_NEW_PAGE * PAGE, TLBI_NEW_VALUE);
      ValuesPut(plain, template);
    }
    r := Success(image);
  }

  /** The test image: the tables with the alias, the old and the new value at the start of their pages,
      and the template everywhere else below the tables. */
  ghost predicate Aliased(image: seq<byte>, template: seq<byte>) {
    && |image| == TABLES_END && Tables(image, 0, AliasPages())
    && At(image, TLBI_TARGET_PAGE * PAGE) == TLBI_OLD_VALUE && At(image, TLBI_NEW_PAGE * PAGE) == TLBI_NEW_VALUE
    && forall i :: 0 <= i < ROOT_OFFSET && !(TLBI_TARGET_PAGE * PAGE <= i < TLBI_TARGET_PAGE * PAGE + 8) &&
                   !(TLBI_NEW_PAGE * PAGE <= i < TLBI_NEW_PAGE * PAGE + 8) ==>
         image[i] == if i < |template| then template[i] else 0
  }

  lemma ShowsAt(image: seq<byte>, prefix: nat, template: seq<byte>, i: nat)
    requires Shows(image, prefix, template) && i < ROOT_OFFSET
    ensures image[prefix + i] == if i < |template| then template[i] else 0
  {
  }

  lemma ValuesPut(plain: seq<byte>, template: seq<byte>)
    requires Rooted(plain, 0, template) && |plain| == TABLES_END
    ensures var alias := Pte(PHYSICAL_BASE + LEVEL0_OFFSET, RWAD);
            var image := Put(Put(Put(plain, LEVEL0_OFFSET + TLBI_PTE_ALIAS_PAGE * 8, alias),
                                 TLBI_TARGET_PAGE * PAGE, TLBI_OLD_VALUE), TLBI_NEW_PAGE * PAGE, TLBI_NEW_VALUE);
            Aliased(image, template)
  {
    hide Tables, Put, At;
    var alias := Pte(PHYSICAL_BASE + LEVEL0_OFFSET, RWAD);
    var one := Put(plain, LEVEL0_OFFSET + TLBI_PTE_ALIAS_PAGE * 8, alias);
    var two := Put(one, TLBI_TARGET_PAGE * PAGE, TLBI_OLD_VALUE);
    var three := Put(two, TLBI_NEW_PAGE * PAGE, TLBI_NEW_VALUE);
    EntryRepages(plain, Linear(0), TLBI_PTE_ALIAS_PAGE, Mapped(PHYSICAL_BASE + LEVEL0_OFFSET, RWAD));
    PutOutside(plain, LEVEL0_OFFSET + TLBI_PTE_ALIAS_PAGE * 8, alias);
    PutOutside(one, TLBI_TARGET_PAGE * PAGE, TLBI_OLD_VALUE);
    PutOutside(two, TLBI_NEW_PAGE * PAGE, TLBI_NEW_VALUE);
    TablesOutside(one, two, TLBI_TARGET_PAGE * PAGE, TLBI_TARGET_PAGE * PAGE + 8, 0, AliasPages());
    TablesOutside(two, three, TLBI_NEW_PAGE * PAGE, TLBI_NEW_PAGE * PAGE + 8, 0, AliasPages());
    PutAt(one, TLBI_TARGET_PAGE * PAGE, TLBI_OLD_VALUE);
    PutElsewhere(two, TLBI_NEW_PAGE * PAGE, TLBI_NEW_VALUE, TLBI_TARGET_PAGE * PAGE);
    PutAt(two, TLBI_NEW_PAGE * PAGE, TLBI_NEW_VALUE);
    forall i | 0 <= i < ROOT_OFFSET && !(TLBI_TARGET_PAGE * PAGE <= i < TLBI_TARGET_PAGE * PAGE + 8) &&
               !(TLBI_NEW_PAGE * PAGE <= i < TLBI_NEW_PAGE * PAGE + 8)
      ensures three[i] == if i < |template| then template[i] else 0
    {
      ShowsAt(plain, 0, template, i);
      assert plain[i] == one[i] && one[i] == two[i] && two[i] == three[i];
    }
  }

  /** What page k of these pages means to the addresses of the window. */
  lemma RepagedMeans(pages: nat -> Page, k: nat, p: Page, va: nat, access: Access)
    ensures Meaning(Repaged(pages, k, p), va, access) ==
              if VIRTUAL_BASE <= va < VIRTUAL_BASE + 512 * PAGE && (va - VIRTUAL_BASE) / PAGE == k
              then Meaning(Always(p), va, access) else Meaning(pages, va, access)
  {
  }

  lemma AliasUsable()
    ensures forall k :: 0 <= k < 512 ==> Usable(AliasPages()(k))
    ensures AliasPages()(TLBI_TARGET_PAGE) == Mapped(PHYSICAL_BASE + TLBI_TARGET_PAGE * PAGE, RWXAD)
    ensures AliasPages()(TLBI_PTE_ALIAS_PAGE) == Mapped(PHYSICAL_BASE + LEVEL0_OFFSET, RWAD)
  {
    LinearMeans(0, 0, Load);
  }

  /** The virtual address through which the test rewrites the target page's entry. */
  const ALIAS_ENTRY := VIRTUAL_BASE + TLBI_PTE_ALIAS_PAGE * PAGE + TLBI_TARGET_PAGE * 8

  const SHARED_ROOT := PHYSICAL_BASE + ROOT_OFFSET

  lemma AliasMeans()
    ensures Meaning(AliasPages(), ALIAS_ENTRY, Store) == Physical(PHYSICAL_BASE + LEVEL0_OFFSET + TLBI_TARGET_PAGE * 8)
    ensures Meaning(AliasPages(), VIRTUAL_BASE + TLBI_TARGET_PAGE * PAGE, Load) ==
              Physical(PHYSICAL_BASE + TLBI_TARGET_PAGE * PAGE)
    ensures Meaning(Always(Mapped(PHYSICAL_BASE + TLBI_NEW_PAGE * PAGE, RWXAD)),
                    VIRTUAL_BASE + TLBI_TARGET_PAGE * PAGE, Load) == Physical(PHYSICAL_BASE + TLBI_NEW_PAGE * PAGE)
    ensures Usable(Mapped(PHYSICAL_BASE + TLBI_NEW_PAGE * PAGE, RWXAD))
  {
  }

  lemma AliasTranslates(image: seq<byte>, template: seq<byte>, va: nat, access: Access)
    requires Aliased(image, template) && va < U64
    ensures Translate(image, SHARED_ROOT, va, access) == Meaning(AliasPages(), va, access)
  {
    hide Tables, Meaning, AliasPages, At;
    AliasUsable();
    TablesTranslate(image, 0, AliasPages(), va, access);
  }

  /** A store of a page table entry through the alias reaches exactly the target page's entry: after it
      the target page is the new page, and every other address of the window means what it did. */
  lemma AliasRemaps(image: seq<byte>, template: seq<byte>, p: Page, va: nat, access: Access)
    requires Aliased(image, template) && p.Mapped? && Usable(p) && va < U64
    ensures Translate(image, SHARED_ROOT, ALIAS_ENTRY, Store) == Physical(PHYSICAL_BASE + LEVEL0_OFFSET + TLBI_TARGET_PAGE * 8)
    ensures var after := Put(image, LEVEL0_OFFSET + TLBI_TARGET_PAGE * 8, Pte(p.address, p.flags));
            Translate(after, SHARED_ROOT, va, access) ==
              if VIRTUAL_BASE <= va < VIRTUAL_BASE + 512 * PAGE && (va - VIRTUAL_BASE) / PAGE == TLBI_TARGET_PAGE
              then Meaning(Always(p), va, access) else Translate(image, SHARED_ROOT, va, access)
  {
    hide Tables, Meaning, Put, Translate, AliasPages, At, Pte, Usable;
    AliasTranslates(image, template, ALIAS_ENTRY, Store);
    AliasUsable();
    AliasMeans();
    AliasTranslates(image, template, va, access);
    EntryRepages(image, AliasPages(), TLBI_TARGET_PAGE, p);
    var after := Put(image, LEVEL0_OFFSET + TLBI_TARGET_PAGE * 8, Pte(p.address, p.flags));
    TablesTranslate(after, 0, Repaged(AliasPages(), TLBI_TARGET_PAGE, p), va, access);
    RepagedMeans(AliasPages(), TLBI_TARGET_PAGE, p, va, access);
  }

  /** The test reads the old value through the target page before the remapping, and the new value
      after it. */
  lemma RemapShowsNewValue(image: seq<byte>, template: seq<byte>)
    requires Aliased(image, template)
    ensures var va := VIRTUAL_BASE + TLBI_TARGET_PAGE * PAGE;
            var after := Put(image, LEVEL0_OFFSET + TLBI_TARGET_PAGE * 8, Pte(PHYSICAL_BASE + TLBI_NEW_PAGE * PAGE, RWXAD));
            && Translate(image, SHARED_ROOT, va, Load) == Physical(PHYSICAL_BASE + TLBI_TARGET_PAGE * PAGE)
            && At(image, TLBI_TARGET_PAGE * PAGE) == TLBI_OLD_VALUE
            && Translate(after, SHARED_ROOT, va, Load) == Physical(PHYSICAL_BASE + TLBI_NEW_PAGE * PAGE)
            && At(after, TLBI_NEW_PAGE * PAGE) == TLBI_NEW_VALUE
  {
    var va, p := VIRTUAL_BASE + TLBI_TARGET_PAGE * PAGE, Mapped(PHYSICAL_BASE + TLBI_NEW_PAGE * PAGE, RWXAD);
    hide Tables, Meaning, Put, Translate, AliasPages, At, Pte, Usable, Always;
    AliasTranslates(image, template, va, Load);
    AliasMeans();
    AliasRemaps(image, template, p, va, Load);
    PutElsewhere(image, LEVEL0_OFFSET + TLBI_TARGET_PAGE * 8, Pte(p.address, p.flags), TLBI_NEW_PAGE * PAGE);
  }
}
