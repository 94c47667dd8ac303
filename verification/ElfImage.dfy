/** image_words in tools/elf2mem.py: the loadable segments of an ELF file as sparse memory words. */
module ElfImage {
  import opened Arithmetic
  import opened Bytes
  import opened Options

  /** memorySize counts the zero-filled part after the data; load_elf rejects data longer than it. */
  datatype Segment = Segment(address: int, data: seq<byte>, memorySize: nat)

  datatype ImageError = WordSize | Aperture(segment: nat) | Conflict(address: int, first: nat, second: nat)

  type Flat = map<int, byte>

  type Words = map<int, seq<byte>>

  predicate Covers(s: Segment, a: int) { s.address <= a < s.address + s.memorySize }

  function ByteAt(s: Segment, a: int): byte
    requires Covers(s, a)
  {
    if a - s.address < |s.data| then s.data[a - s.address] else 0
  }

  predicate Inside(s: Segment, base: int, size: int) { base <= s.address && s.address + s.memorySize <= base + size }

  ghost predicate Clash(s: Segment, t: Segment, a: int) { Covers(s, a) && Covers(t, a) && ByteAt(s, a) != ByteAt(t, a) }

  /** The segments can be loaded: they lie in the memory, and agree wherever they overlap. */
  ghost predicate Loadable(segments: seq<Segment>, base: int, size: int) {
    && (forall s :: s in segments ==> Inside(s, base, size))
    && forall s, t, a :: s in segments && t in segments ==> !Clash(s, t, a)
  }

  /** The bytes of all the segments together. */
  ghost predicate IsFlat(flat: Flat, segments: seq<Segment>) {
    && (forall s, a :: s in segments && Covers(s, a) ==> a in flat && flat[a] == ByteAt(s, a))
    && forall a :: a in flat ==> exists s :: s in segments && Covers(s, a)
  }

  /** The address of a word's first byte. */
  function Start(base: int, wordBytes: nat, w: int): int { base + w * wordBytes }

  predicate InWord(base: int, wordBytes: nat, w: int, a: int) {
    Start(base, wordBytes, w) <= a < Start(base, wordBytes, w) + wordBytes
  }

  function FlatAt(flat: Flat, a: int): byte { if a in flat then flat[a] else 0 }

  /** The flat bytes in words: a word for each address in use, with zeros in its unused lanes. */
  ghost predicate Packed(words: Words, flat: Flat, base: int, wordBytes: nat) {
    && (forall a, w :: a in flat && InWord(base, wordBytes, w, a) ==> w in words)
    && (forall w :: w in words ==> Used(flat, base, wordBytes, w))
    && forall w :: w in words ==> PackedWord(words[w], flat, Start(base, wordBytes, w), wordBytes)
  }

  ghost predicate Used(flat: Flat, base: int, wordBytes: nat, w: int) {
    exists a :: a in flat && InWord(base, wordBytes, w, a)
  }

  ghost predicate PackedWord(word: seq<byte>, flat: Flat, start: int, wordBytes: nat) {
    |word| == wordBytes && forall k :: 0 <= k < wordBytes ==> word[k] == FlatAt(flat, start + k)
  }

  // ---- Uniqueness ----

  lemma FlatWithin(f: Flat, g: Flat, segments: seq<Segment>, others: seq<Segment>, a: int)
    requires IsFlat(f, segments) && IsFlat(g, others) && (forall s :: s in segments ==> s in others) && a in f
    ensures a in g && f[a] == g[a]
  {
  }

  /** The bytes do not depend on the order of the segments, nor on repetitions. */
  lemma FlatUnique(f: Flat, g: Flat, segments: seq<Segment>, others: seq<Segment>)
    requires IsFlat(f, segments) && IsFlat(g, others) && forall s :: s in segments <==> s in others
    ensures f == g
  {
    forall a | a in f
      ensures a in g && f[a] == g[a]
    {
      FlatWithin(f, g, segments, others, a);
    }
    forall a | a in g
      ensures a in f
    {
      FlatWithin(g, f, others, segments, a);
    }
  }

  lemma PackedWithin(v: Words, w: Words, flat: Flat, base: int, wordBytes: nat, k: int)
    requires Packed(v, flat, base, wordBytes) && Packed(w, flat, base, wordBytes) && k in v
    ensures k in w && v[k] == w[k]
  {
  }

  lemma PackedUnique(v: Words, w: Words, flat: Flat, base: int, wordBytes: nat)
    requires Packed(v, flat, base, wordBytes) && Packed(w, flat, base, wordBytes)
    ensures v == w
  {
    forall k | k in v
      ensures k in w && v[k] == w[k]
    {
      PackedWithin(v, w, flat, base, wordBytes, k);
    }
    forall k | k in w
      ensures k in v
    {
      PackedWithin(w, v, flat, base, wordBytes, k);
    }
  }

  lemma FlatAgrees(flat: Flat, segments: seq<Segment>)
    requires IsFlat(flat, segments)
    ensures forall s, t, a :: s in segments && t in segments ==> !Clash(s, t, a)
  {
  }

  // ---- One byte more ----

  function WordAt(words: Words, w: int, wordBytes: nat): seq<byte> { if w in words then words[w] else Zeros(wordBytes) }

  /** An address lies in one word. */
  lemma OneWord(base: int, n: nat, v: int, w: int, a: int)
    requires InWord(base, n, v, a) && InWord(base, n, w, a)
    ensures v == w
  {
    if v < w {
      Times(v + 1, w, n);
    } else if w < v {
      Times(w + 1, v, n);
    }
  }

  lemma WordShows(words: Words, flat: Flat, base: int, wordBytes: nat, w: int)
    requires Packed(words, flat, base, wordBytes)
    ensures PackedWord(WordAt(words, w, wordBytes), flat, Start(base, wordBytes, w), wordBytes)
  {
  }

  lemma PutLane(words: Words, flat: Flat, base: int, wordBytes: nat, a: int, value: byte, w: int, lane: nat)
    requires Packed(words, flat, base, wordBytes) && (a in flat ==> flat[a] == value)
    requires lane < wordBytes && a == Start(base, wordBytes, w) + lane
    ensures |WordAt(words, w, wordBytes)| == wordBytes
    ensures Packed(words[w := WordAt(words, w, wordBytes)[lane := value]], flat[a := value], base, wordBytes)
  {
    hide Start;
    WordShows(words, flat, base, wordBytes, w);
    var word := WordAt(words, w, wordBytes)[lane := value];
    var after, bytes := words[w := word], flat[a := value];
    assert InWord(base, wordBytes, w, a);
    forall x, v | x in bytes && InWord(base, wordBytes, v, x)
      ensures v in after
    {
      if x == a {
        OneWord(base, wordBytes, v, w, a);
      }
    }
    forall v | v in after
      ensures Used(bytes, base, wordBytes, v) && PackedWord(after[v], bytes, Start(base, wordBytes, v), wordBytes)
    {
      if v == w {
        assert a in bytes;
      } else {
        UsedMore(flat, base, wordBytes, v, a, value);
        OtherWord(words[v], flat, base, wordBytes, v, w, a, value);
      }
    }
  }

  lemma UsedMore(flat: Flat, base: int, wordBytes: nat, w: int, a: int, value: byte)
    requires Used(flat, base, wordBytes, w)
    ensures Used(flat[a := value], base, wordBytes, w)
  {
  }

  lemma OtherWord(word: seq<byte>, flat: Flat, base: int, wordBytes: nat, v: int, w: int, a: int, value: byte)
    requires PackedWord(word, flat, Start(base, wordBytes, v), wordBytes) && v != w && InWord(base, wordBytes, w, a)
    ensures PackedWord(word, flat[a := value], Start(base, wordBytes, v), wordBytes)
  {
    hide Start;
    forall k | 0 <= k < wordBytes
      ensures word[k] == FlatAt(flat[a := value], Start(base, wordBytes, v) + k)
    {
      if Start(base, wordBytes, v) + k == a {
        OneWord(base, wordBytes, v, w, a);
      }
    }
  }

  // ---- Loading ----

  /** For each address the last segment that wrote it, and the byte. */
  type Owner = map<int, (nat, byte)>

  ghost function FlatOf(owner: Owner): (flat: Flat)
    ensures flat.Keys == owner.Keys && forall a :: a in owner ==> flat[a] == owner[a].1
  {
    map a | a in owner :: owner[a].1
  }

  /** The first i segments and k bytes of the next one have been loaded. */
  ghost predicate Owns(owner: Owner, segments: seq<Segment>, i: nat, k: nat)
    requires i <= |segments|
  {
    && (forall a :: a in owner ==> owner[a].0 < |segments| && Covers(segments[owner[a].0], a) &&
                                   owner[a].1 == ByteAt(segments[owner[a].0], a))
    && (forall j, a :: 0 <= j < i && Covers(segments[j], a) ==> a in owner && owner[a].1 == ByteAt(segments[j], a))
    && (i < |segments| ==> forall a :: Covers(segments[i], a) && a < segments[i].address + k ==>
                             a in owner && owner[a].1 == ByteAt(segments[i], a))
  }

  lemma OwnsNext(owner: Owner, segments: seq<Segment>, i: nat, k: nat, a: int)
    requires i < |segments| && Owns(owner, segments, i, k) && a == segments[i].address + k && Covers(segments[i], a)
    requires a in owner ==> owner[a].1 == ByteAt(segments[i], a)
    ensures Owns(owner[a := (i, ByteAt(segments[i], a))], segments, i, k + 1)
  {
    hide ByteAt;
  }

  lemma FlatNext(owner: Owner, a: int, i: nat, value: byte)
    ensures FlatOf(owner[a := (i, value)]) == FlatOf(owner)[a := value]
  {
  }

  lemma OwnsSegment(owner: Owner, segments: seq<Segment>, i: nat)
    requires i < |segments| && Owns(owner, segments, i, segments[i].memorySize)
    ensures Owns(owner, segments, i + 1, 0)
  {
    hide ByteAt;
  }

  lemma OwnsAll(owner: Owner, segments: seq<Segment>)
    requires Owns(owner, segments, |segments|, 0)
    ensures IsFlat(FlatOf(owner), segments)
  {
  }

  lemma WordAndLane(base: int, wordBytes: nat, a: int)
    requires wordBytes > 0 && a >= base
    ensures 0 <= (a - base) % wordBytes < wordBytes
    ensures a == Start(base, wordBytes, (a - base) / wordBytes) + (a - base) % wordBytes
  {
  }

  /** The loop over the bytes of one segment. */
  method LoadSegment(segments: seq<Segment>, i: nat, base: int, wordBytes: nat, owned: Owner, packed: Words)
    returns (r: Result<(Owner, Words), ImageError>)
    requires i < |segments| && wordBytes > 0 && base <= segments[i].address
    requires Owns(owned, segments, i, 0) && Packed(packed, FlatOf(owned), base, wordBytes)
    ensures r.Success? ==> Owns(r.value.0, segments, i + 1, 0) && Packed(r.value.1, FlatOf(r.value.0), base, wordBytes)
    ensures r.Failure? ==> r.error.Conflict? && r.error.first < |segments| && r.error.second == i &&
                           Clash(segments[r.error.first], segments[i], r.error.address)
  {
    hide Packed, Owns, FlatOf, Start, Clash;
    var owner, words := owned, packed;
    for k := 0 to segments[i].memorySize
      invariant Owns(owner, segments, i, k) && Packed(words, FlatOf(owner), base, wordBytes)
    {
      var absolute := segments[i].address + k;
      var value := ByteAt(segments[i], absolute);
      if absolute in owner && owner[absolute].1 != value {
        OwnsClash(owner, segments, i, k, absolute);
        return Failure(Conflict(absolute, owner[absolute].0, i));
      }
      WordAndLane(base, wordBytes, absolute);
      var index, lane := (absolute - base) / wordBytes, (absolute - base) % wordBytes;
      PutLane(words, FlatOf(owner), base, wordBytes, absolute, value, index, lane);
      OwnsNext(owner, segments, i, k, absolute);
      FlatNext(owner, absolute, i, value);
      owner := owner[absolute := (i, value)];
      words := words[index := WordAt(words, index, wordBytes)[lane := value]];
    }
    OwnsSegment(owner, segments, i);
    r := Success((owner, words));
  }

  lemma OwnsClash(owner: Owner, segments: seq<Segment>, i: nat, k: nat, a: int)
    requires i < |segments| && Owns(owner, segments, i, k) && a in owner && Covers(segments[i], a)
    requires owner[a].1 != ByteAt(segments[i], a)
    ensures owner[a].0 < |segments| && Clash(segments[owner[a].0], segments[i], a)
  {
  }

  /** The words of exactly the loadable lists of segments, and the error of the first that is not. */
  method ImageWords(segments: seq<Segment>, base: int, size: int, wordBytes: int)
    returns (r: Result<Words, ImageError>, ghost flat: Flat)
    ensures r == Failure(WordSize) <==> wordBytes !in {8, 32}
    ensures r.Success? <==> wordBytes in {8, 32} && Loadable(segments, base, size)
    ensures r.Success? ==> IsFlat(flat, segments) && Packed(r.value, flat, base, wordBytes)
    ensures r.Failure? && r.error.Conflict? ==>
              && r.error.first < |segments| && r.error.second < |segments|
              && Clash(segments[r.error.first], segments[r.error.second], r.error.address)
    ensures r.Failure? && r.error.Aperture? ==>
              r.error.segment < |segments| && !Inside(segments[r.error.segment], base, size)
  {
    flat := map[];
    if wordBytes != 8 && wordBytes != 32 {
      return Failure(WordSize), flat;
    }
    hide Packed, Owns, FlatOf, Clash, IsFlat;
    var owner: Owner, words: Words := map[], map[];
    NothingLoaded(segments, base, wordBytes);
    for i := 0 to |segments|
      invariant Owns(owner, segments, i, 0) && Packed(words, FlatOf(owner), base, wordBytes)
      invariant forall j :: 0 <= j < i ==> Inside(segments[j], base, size)
    {
      var s := segments[i];
      if s.address < base || s.address + s.memorySize > base + size {
        assert s in segments && !Inside(s, base, size);
        return Failure(Aperture(i)), flat;
      }
      var next := LoadSegment(segments, i, base, wordBytes, owner, words);
      if next.Failure? {
        return Failure(next.error), flat;
      }
      owner, words := next.value.0, next.value.1;
    }
    flat := FlatOf(owner);
    OwnsAll(owner, segments);
    FlatAgrees(flat, segments);
    r := Success(words);
  }

  lemma NothingLoaded(segments: seq<Segment>, base: int, wordBytes: nat)
    ensures Owns(map[], segments, 0, 0) && Packed(map[], FlatOf(map[]), base, wordBytes)
  {
  }

  /** The same segments in any order, with any repetitions, give the same words. */
  lemma OrderDoesNotMatter(segments: seq<Segment>, others: seq<Segment>, base: int, size: int, wordBytes: nat,
                           v: Words, w: Words, f: Flat, g: Flat)
    requires forall s :: s in segments <==> s in others
    requires IsFlat(f, segments) && IsFlat(g, others)
    requires Packed(v, f, base, wordBytes) && Packed(w, g, base, wordBytes)
    ensures v == w && (Loadable(segments, base, size) <==> Loadable(others, base, size))
  {
    FlatUnique(f, g, segments, others);
    PackedUnique(v, w, f, base, wordBytes);
  }
}
