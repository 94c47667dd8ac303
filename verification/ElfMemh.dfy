/** write_memh in tools/elf2mem.py, and reading its text back as $readmemh does (section 21.4 of IEEE Std
    1800-2017). */
module ElfMemh {
  import opened Bytes
  import opened ElfImage

  // ---- Hexadecimal text ----

  function Digit(d: nat): char
    requires d < 16
  {
    "0123456789abcdef"[d]
  }

  function DigitValue(c: char): nat {
    if '0' <= c <= '9' then (c - '0') as nat else if 'a' <= c <= 'f' then (c - 'a') as nat + 10 else 0
  }

  lemma DigitRoundTrip(d: nat)
    requires d < 16
    ensures DigitValue(Digit(d)) == d && Digit(d) != '@'
  {
  }

  /** The format code x: lower case, no leading zeros. */
  function Hex(n: nat): (s: string)
    ensures s != []
  {
    if n < 16 then [Digit(n)] else Hex(n / 16) + [Digit(n % 16)]
  }

  function ParseHex(s: string): nat { if s == [] then 0 else ParseHex(s[..|s| - 1]) * 16 + DigitValue(s[|s| - 1]) }

  lemma {:induction false} ParseSnoc(s: string, c: char)
    ensures ParseHex(s + [c]) == ParseHex(s) * 16 + DigitValue(c)
    ensures ParseHex([c]) == DigitValue(c)
  {
    assert (s + [c])[..|s|] == s && [c][..0] == [];
    assert ParseHex([]) == 0;
  }

  lemma {:induction false} HexRoundTrip(n: nat)
    ensures ParseHex(Hex(n)) == n
  {
    hide Digit, DigitValue, ParseHex;
    DigitRoundTrip(n % 16);
    if n >= 16 {
      HexRoundTrip(n / 16);
      ParseSnoc(Hex(n / 16), Digit(n % 16));
    } else {
      ParseSnoc([], Digit(n));
    }
  }

  /** The bytes of a word, last byte first, two digits each. */
  function HexWord(word: seq<byte>): (s: string)
    ensures |s| == 2 * |word|
  {
    if word == [] then [] else HexWord(word[1..]) + [Digit(word[0] / 16), Digit(word[0] % 16)]
  }

  lemma EmptyParses()
    ensures ParseHex([]) == 0
  {
  }

  lemma {:induction false} HexWordParses(word: seq<byte>)
    ensures ParseHex(HexWord(word)) == Read(word)
    ensures word != [] ==> HexWord(word)[0] != '@'
  {
    hide Digit, DigitValue, ParseHex;
    if word != [] {
      HexWordParses(word[1..]);
      var front, high, low := HexWord(word[1..]), word[0] / 16, word[0] % 16;
      DigitRoundTrip(high);
      DigitRoundTrip(low);
      ParseSnoc(front, Digit(high));
      ParseSnoc(front + [Digit(high)], Digit(low));
      assert HexWord(word) == front + [Digit(high)] + [Digit(low)];
      assert HexWord(word)[0] == if front == [] then Digit(high) else front[0];
    } else {
      EmptyParses();
    }
  }

  /** Byte k of a number. */
  function ByteOf(n: nat, k: nat): nat { if k == 0 then n % 256 else ByteOf(n / 256, k - 1) }

  lemma {:induction false} ReadBytes(word: seq<byte>, k: nat)
    ensures ByteOf(Read(word), k) == if k < |word| then word[k] else 0
    decreases k
  {
    if word == [] {
      ZeroBytes(k);
    } else if k > 0 {
      assert Read(word) / 256 == Read(word[1..]);
      ReadBytes(word[1..], k - 1);
    }
  }

  lemma {:induction false} ZeroBytes(k: nat)
    ensures ByteOf(0, k) == 0
  {
    if k > 0 {
      ZeroBytes(k - 1);
    }
  }

  // ---- $readmemh ----

  type Memory = map<int, nat>

  /** The memory words written so far, and the index of the next one: an address line sets the index, a
      number line fills the word there. */
  function Loaded(lines: seq<string>): (Memory, int) {
    if lines == [] then (map[], 0) else
      var (memory, at) := Loaded(lines[..|lines| - 1]);
      var line := lines[|lines| - 1];
      if line != [] && line[0] == '@' then (memory, ParseHex(line[1..])) else (memory[at := ParseHex(line)], at + 1)
  }

  lemma {:induction false} LoadedSnoc(lines: seq<string>, line: string)
    ensures var (memory, at) := Loaded(lines);
            Loaded(lines + [line]) ==
              if line != [] && line[0] == '@' then (memory, ParseHex(line[1..]) as int) else (memory[at := ParseHex(line)], at + 1)
  {
    assert (lines + [line])[..|lines|] == lines;
  }

  // ---- write_memh ----

  predicate Ascending(keys: seq<int>) { forall i, j :: 0 <= i < j < |keys| ==> keys[i] < keys[j] }

  /** The numbers of the first n listed words. */
  ghost predicate Shown(memory: Memory, words: Words, keys: seq<int>, n: nat)
    requires n <= |keys|
  {
    && (forall k :: k in memory <==> k in keys[..n])
    && forall k :: k in memory && k in words ==> memory[k] == Read(words[k])
  }

  /** The lines for the first n listed words: an address line where a word does not follow the one before,
      and the word's digits. */
  function Text(words: Words, keys: seq<int>, n: nat): seq<string>
    requires n <= |keys| && forall k :: k in keys ==> k in words && k >= 0
  {
    if n == 0 then [] else
      var index := keys[n - 1];
      assert index in keys;
      Text(words, keys, n - 1) + (if n > 1 && index == keys[n - 2] + 1 then [] else ["@" + Hex(index)]) + [HexWord(words[index])]
  }

  predicate AddressText(line: string) { line != [] && line[0] == '@' }

  function AddressLines(lines: seq<string>): nat {
    if lines == [] then 0 else AddressLines(lines[..|lines| - 1]) + if AddressText(lines[|lines| - 1]) then 1 else 0
  }

  lemma {:induction false} AddressLinesSnoc(lines: seq<string>, line: string)
    ensures AddressLines(lines + [line]) == AddressLines(lines) + if AddressText(line) then 1 else 0
  {
    assert (lines + [line])[..|lines|] == lines;
  }

  /** The words in front of which no other word lies. */
  ghost function RunStarts(keys: seq<int>, n: nat): set<int>
    requires n <= |keys|
  {
    set i | 0 <= i < n && keys[i] - 1 !in keys[..n] :: keys[i]
  }

  lemma RunStartsNext(keys: seq<int>, n: nat)
    requires Ascending(keys) && n < |keys|
    ensures RunStarts(keys, n + 1) == RunStarts(keys, n) + (if n > 0 && keys[n] == keys[n - 1] + 1 then {} else {keys[n]})
    ensures keys[n] !in RunStarts(keys, n)
  {
    assert keys[..n + 1] == keys[..n] + [keys[n]];
    assert n > 0 && keys[n] == keys[n - 1] + 1 ==> keys[n - 1] in keys[..n];
    assert keys[n] - 1 in keys[..n] ==> n > 0 && keys[n] == keys[n - 1] + 1;
  }

  /** There is a line of digits for each word and an address line for each run of words without a gap, and
      for nothing else. */
  lemma {:induction false} TextSize(words: Words, keys: seq<int>, n: nat)
    requires Ascending(keys) && n <= |keys| && forall k :: k in keys ==> k in words && k >= 0 && words[k] != []
    ensures |Text(words, keys, n)| == n + |RunStarts(keys, n)|
    ensures AddressLines(Text(words, keys, n)) == |RunStarts(keys, n)|
  {
    hide RunStarts, Hex, HexWord, AddressLines, AddressText;
    if n > 0 {
      TextSize(words, keys, n - 1);
      RunStartsNext(keys, n - 1);
      var index := keys[n - 1];
      assert index in keys;
      TextNext(Text(words, keys, n - 1), index, words[index]);
    } else {
      NoText(words, keys);
    }
  }

  lemma {:induction false} NoText(words: Words, keys: seq<int>)
    ensures |RunStarts(keys, 0)| == 0 && AddressLines([]) == 0
  {
    assert RunStarts(keys, 0) == {};
  }

  lemma {:induction false} TextNext(before: seq<string>, index: nat, word: seq<byte>)
    requires word != []
    ensures AddressLines(before + [HexWord(word)]) == AddressLines(before)
    ensures AddressLines(before + [] + [HexWord(word)]) == AddressLines(before)
    ensures AddressLines(before + ["@" + Hex(index)] + [HexWord(word)]) == AddressLines(before) + 1
  {
    HexWordParses(word);
    hide Hex, HexWord, AddressLines;
    AddressLinesSnoc(before, "@" + Hex(index));
    AddressLinesSnoc(before, HexWord(word));
    AddressLinesSnoc(before + ["@" + Hex(index)], HexWord(word));
    assert before + [] == before;
  }

  /** The text, one line each, where keys is sorted(words); reading it back gives exactly the words. */
  method WriteMemh(words: Words, keys: seq<int>) returns (lines: seq<string>)
    requires forall k :: k in words ==> k >= 0 && words[k] != []
    requires Ascending(keys) && forall k :: k in words <==> k in keys
    ensures forall k :: k in Loaded(lines).0 <==> k in words
    ensures forall k :: k in words ==> Loaded(lines).0[k] == Read(words[k])
    ensures lines == Text(words, keys, |keys|)
  {
    hide Loaded, ParseHex, Hex, HexWord;
    lines := [];
    NothingLoaded();
    var previous := -2;
    for i := 0 to |keys|
      invariant Shown(Loaded(lines).0, words, keys, i) && lines == Text(words, keys, i)
      invariant if i == 0 then previous == -2 else previous == keys[i - 1] && Loaded(lines).1 == previous + 1
    {
      var index := keys[i];
      assert index in words;
      if index != previous + 1 {
        AddressLine(lines, index);
        lines := lines + ["@" + Hex(index)];
      }
      WordLine(lines, words[index]);
      ShownNext(Loaded(lines).0, words, keys, i);
      lines := lines + [HexWord(words[index])];
      previous := index;
    }
    assert keys[..|keys|] == keys;
    assert forall k :: k in Loaded(lines).0 <==> k in words;
  }

  lemma NothingLoaded()
    ensures Loaded([]) == (map[], 0)
  {
  }

  lemma {:induction false} AddressLine(lines: seq<string>, index: nat)
    ensures Loaded(lines + ["@" + Hex(index)]) == (Loaded(lines).0, index as int)
  {
    var line := "@" + Hex(index);
    LoadedSnoc(lines, line);
    HexRoundTrip(index);
    assert line[1..] == Hex(index);
  }

  lemma {:induction false} WordLine(lines: seq<string>, word: seq<byte>)
    requires word != []
    ensures var (memory, at) := Loaded(lines); Loaded(lines + [HexWord(word)]) == (memory[at := Read(word)], at + 1)
  {
    LoadedSnoc(lines, HexWord(word));
    HexWordParses(word);
  }

  lemma ShownNext(memory: Memory, words: Words, keys: seq<int>, i: nat)
    requires i < |keys| && Shown(memory, words, keys, i) && keys[i] in words && Ascending(keys)
    ensures Shown(memory[keys[i] := Read(words[keys[i]])], words, keys, i + 1)
  {
    assert keys[..i + 1] == keys[..i] + [keys[i]];
  }

  // ---- End to end ----

  /** The byte at address a of a memory of `wordBytes`-byte words that starts at `base` and was zero
      before the text was read. */
  function MemoryByte(memory: Memory, base: int, wordBytes: nat, a: int): nat
    requires wordBytes > 0 && a >= base
  {
    var w, lane := (a - base) / wordBytes, (a - base) % wordBytes;
    ByteOf(if w in memory then memory[w] else 0, lane)
  }

  /** Reading the text of the words gives every address its segment byte, and zero where no segment
      lies. */
  lemma TextShowsSegments(words: Words, flat: Flat, segments: seq<Segment>, base: int, wordBytes: nat, memory: Memory, a: int)
    requires wordBytes > 0 && a >= base && IsFlat(flat, segments) && Packed(words, flat, base, wordBytes)
    requires forall k :: k in memory <==> k in words
    requires forall k :: k in words ==> memory[k] == Read(words[k])
    ensures forall s :: s in segments && Covers(s, a) ==> MemoryByte(memory, base, wordBytes, a) == ByteAt(s, a)
    ensures (forall s :: s in segments ==> !Covers(s, a)) ==> MemoryByte(memory, base, wordBytes, a) == 0
  {
    hide Packed, PackedWord;
    WordAndLane(base, wordBytes, a);
    var w, lane := (a - base) / wordBytes, (a - base) % wordBytes;
    WordShows(words, flat, base, wordBytes, w);
    LaneShows(WordAt(words, w, wordBytes), flat, Start(base, wordBytes, w), wordBytes, lane);
    hide Start;
    if w in words {
      ReadBytes(words[w], lane);
    } else {
      ZeroBytes(lane);
    }
  }

  lemma LaneShows(word: seq<byte>, flat: Flat, start: int, wordBytes: nat, lane: nat)
    requires PackedWord(word, flat, start, wordBytes) && lane < wordBytes
    ensures |word| == wordBytes && word[lane] == FlatAt(flat, start + lane)
  {
  }
}
