/** The LZ4 block format that sw/lz4/lz4.c decodes: what a block means, how it is written, and how
    it is read back. */
module Lz4Format {
  import opened Arithmetic
  import opened Bytes
  import opened Options

  /** A block ends after a match (End), or after the literals of a last token whose low nibble is
      not used (Tail). */
  datatype Block =
    | End
    | Tail(low: nat, literals: seq<byte>)
    | Sequence(literals: seq<byte>, offset: nat, length: nat, rest: Block)

  predicate Valid(b: Block) {
    match b
    case End => true
    case Tail(low, _) => low < 16
    case Sequence(_, offset, length, rest) => 0 < offset < 65536 && length >= 4 && Valid(rest)
  }

  // ---- Meaning ----

  /** A match of n bytes, each copied from `offset` bytes before the place it is put. */
  function Matched(out: seq<byte>, offset: nat, n: nat): (longer: seq<byte>)
    requires 0 < offset <= |out|
    ensures |longer| == |out| + n
    decreases n
  {
    if n == 0 then out else
      var before := Matched(out, offset, n - 1);
      before + [before[|before| - offset]]
  }

  /** A match repeats the last `offset` bytes, also when it overlaps what it writes. */
  lemma {:induction false} MatchedRepeats(out: seq<byte>, offset: nat, n: nat, i: nat)
    requires 0 < offset <= |out| && i < |out| + n
    ensures Matched(out, offset, n)[i] == if i < |out| then out[i] else out[|out| - offset + (i - |out|) % offset]
    decreases n
  {
    if n > 0 {
      if i < |out| + n - 1 {
        MatchedRepeats(out, offset, n - 1, i);
      } else {
        MatchedRepeats(out, offset, n - 1, i - offset);
        Wraps(i - |out|, offset);
      }
    }
  }

  lemma Wraps(k: nat, d: nat)
    requires d > 0
    ensures k % d == if k < d then k else (k - d) % d
  {
    if k >= d {
      var q, r := (k - d) / d, (k - d) % d;
      assert k == (q + 1) * d + r;
      Unique(k, d, q + 1, r);
    }
  }

  /** What the block appends to the bytes already written; None when a match reaches back before
      the first of them. */
  function Expand(out: seq<byte>, b: Block): (r: Option<seq<byte>>)
    requires Valid(b)
    ensures r.Some? ==> |out| <= |r.value|
    decreases b
  {
    match b
    case End => Some(out)
    case Tail(_, literals) => Some(out + literals)
    case Sequence(literals, offset, length, rest) =>
      if offset > |out + literals| then None else Expand(Matched(out + literals, offset, length), rest)
  }

  // ---- Wire form ----

  function Extension(n: nat): seq<byte> {
    if n < 255 then [n] else [255] + Extension(n - 255)
  }

  function Nibble(n: nat): nat { if n < 15 then n else 15 }

  function Extra(n: nat): seq<byte> { if n < 15 then [] else Extension(n - 15) }

  function Wire(b: Block): seq<byte>
    requires Valid(b)
  {
    match b
    case End => []
    case Tail(low, literals) => [Nibble(|literals|) * 16 + low] + Extra(|literals|) + literals
    case Sequence(literals, offset, length, rest) =>
      [Nibble(|literals|) * 16 + Nibble(length - 4)] + Extra(|literals|) + literals +
      [offset % 256, offset / 256] + Extra(length - 4) + Wire(rest)
  }

  // ---- Reading ----

  /** The extended length and the index after it. */
  function Extend(input: seq<byte>, i: nat, length: nat): (r: Option<(nat, nat)>)
    requires i <= |input|
    ensures r.Some? ==> i < r.value.1 <= |input|
    decreases |input| - i
  {
    if i == |input| then None
    else if input[i] == 255 then Extend(input, i + 1, length + 255)
    else Some((length + input[i], i + 1))
  }

  function ReadLength(input: seq<byte>, i: nat, nibble: nat): (r: Option<(nat, nat)>)
    requires i <= |input|
    ensures r.Some? ==> i <= r.value.1 <= |input|
  {
    if nibble == 15 then Extend(input, i, 15) else Some((nibble, i))
  }

  function Offset(low: byte, high: byte): nat {
    var l: nat, h: nat := low, high;
    l + 256 * h
  }

  /** One token with what follows it: the last literals, or literals, a match and the index after. */
  datatype Head = Last(low: nat, literals: seq<byte>) | Match(literals: seq<byte>, offset: nat, length: nat, next: nat)

  function ReadHead(input: seq<byte>, i: nat): (r: Option<Head>)
    requires i < |input|
    ensures r.Some? && r.value.Last? ==> r.value.low < 16
    ensures r.Some? && r.value.Match? ==>
              0 < r.value.offset < 65536 && r.value.length >= 4 && i < r.value.next <= |input|
  {
    match ReadLength(input, i + 1, input[i] / 16)
    case None => None
    case Some((count, start)) =>
      if |input| - start < count then None
      else if start + count == |input| then Some(Last(input[i] % 16, input[start..start + count]))
      else if |input| - (start + count) < 2 then None
      else
        var at := start + count;
        var offset := Offset(input[at], input[at + 1]);
        if offset == 0 then None else
          match ReadLength(input, at + 2, input[i] % 16)
          case None => None
          case Some((more, next)) => Some(Match(input[start..at], offset, more + 4, next))
  }

  /** The block that starts at index i and takes all the rest of the input. */
  function Parse(input: seq<byte>, i: nat): (r: Option<Block>)
    requires i <= |input|
    ensures r.Some? ==> Valid(r.value)
    decreases |input| - i
  {
    if i == |input| then Some(End) else
      match ReadHead(input, i)
      case None => None
      case Some(Last(low, literals)) => Some(Tail(low, literals))
      case Some(Match(literals, offset, length, next)) =>
        match Parse(input, next)
        case None => None
        case Some(rest) => Some(Sequence(literals, offset, length, rest))
  }

  lemma {:induction false} ExtendReads(input: seq<byte>, i: nat, length: nat, n: nat)
    requires i + |Extension(n)| <= |input| && input[i..i + |Extension(n)|] == Extension(n)
    ensures Extend(input, i, length) == Some((length + n, i + |Extension(n)|))
    decreases n
  {
    var e := Extension(n);
    assert input[i] == input[i..i + |e|][0];
    if n >= 255 {
      assert input[i + 1..i + |e|] == input[i..i + |e|][1..] == Extension(n - 255);
      ExtendReads(input, i + 1, length + 255, n - 255);
    }
  }

  lemma {:induction false} ExtendWrote(input: seq<byte>, i: nat, length: nat)
    requires i <= |input| && Extend(input, i, length).Some?
    ensures var (value, next) := Extend(input, i, length).value;
            value >= length && input[i..next] == Extension(value - length)
    decreases |input| - i
  {
    var (value, next) := Extend(input, i, length).value;
    if input[i] == 255 {
      ExtendWrote(input, i + 1, length + 255);
      assert input[i..next] == [255] + input[i + 1..next];
    } else {
      assert input[i..next] == [input[i]];
    }
  }

  lemma LengthReads(input: seq<byte>, i: nat, n: nat)
    requires i + |Extra(n)| <= |input| && input[i..i + |Extra(n)|] == Extra(n)
    ensures ReadLength(input, i, Nibble(n)) == Some((n, i + |Extra(n)|))
  {
    if n >= 15 {
      ExtendReads(input, i, 15, n - 15);
    }
  }

  lemma LengthWrote(input: seq<byte>, i: nat, nibble: nat)
    requires i <= |input| && nibble <= 15 && ReadLength(input, i, nibble).Some?
    ensures var (n, next) := ReadLength(input, i, nibble).value;
            Nibble(n) == nibble && input[i..next] == Extra(n)
  {
    if nibble == 15 {
      ExtendWrote(input, i, 15);
    }
  }

  lemma Front(input: seq<byte>, i: nat, a: seq<byte>, b: seq<byte>)
    requires i <= |input| && input[i..] == a + b
    ensures i + |a| <= |input| && input[i..i + |a|] == a && input[i + |a|..] == b
  {
  }

  lemma TokenReads(input: seq<byte>, i: nat, high: nat, low: nat, rest: seq<byte>)
    requires i <= |input| && high < 16 && low < 16 && input[i..] == [high * 16 + low] + rest
    ensures i < |input| && input[i] / 16 == high && input[i] % 16 == low && input[i + 1..] == rest
  {
  }

  /** The literals, wherever the token that announces them stands. */
  lemma LiteralsRead(input: seq<byte>, i: nat, literals: seq<byte>, rest: seq<byte>)
    requires i <= |input| && input[i..] == Extra(|literals|) + literals + rest
    ensures ReadLength(input, i, Nibble(|literals|)) == Some((|literals|, i + |Extra(|literals|)|))
    ensures var at := i + |Extra(|literals|)| + |literals|;
            at <= |input| && input[at - |literals|..at] == literals && input[at..] == rest
  {
    var extra := Extra(|literals|);
    assert extra + literals + rest == extra + (literals + rest);
    Front(input, i, extra, literals + rest);
    Front(input, i + |extra|, literals, rest);
    LengthReads(input, i, |literals|);
  }

  lemma MatchReads(input: seq<byte>, i: nat, offset: nat, more: nat, rest: seq<byte>)
    requires i <= |input| && offset < 65536
    requires input[i..] == [offset % 256, offset / 256] + Extra(more) + rest
    ensures i + 2 <= |input| && Offset(input[i], input[i + 1]) == offset
    ensures ReadLength(input, i + 2, Nibble(more)) == Some((more, i + 2 + |Extra(more)|))
    ensures i + 2 + |Extra(more)| <= |input| && input[i + 2 + |Extra(more)|..] == rest
  {
    var pair: seq<byte> := [offset % 256, offset / 256];
    assert pair + Extra(more) + rest == pair + (Extra(more) + rest);
    Front(input, i, pair, Extra(more) + rest);
    assert input[i] == input[i..i + 2][0] && input[i + 1] == input[i..i + 2][1];
    Front(input, i + 2, Extra(more), rest);
    LengthReads(input, i + 2, more);
  }

  lemma LastReads(input: seq<byte>, i: nat, low: nat, literals: seq<byte>)
    requires i <= |input| && low < 16 && input[i..] == Wire(Tail(low, literals))
    ensures i < |input| && ReadHead(input, i) == Some(Last(low, literals))
  {
    hide Extra, Nibble, Offset, ReadLength;
    NibbleFits(|literals|);
    var after := Extra(|literals|) + literals + [];
    Chain3([Nibble(|literals|) * 16 + low], Extra(|literals|), literals);
    TokenReads(input, i, Nibble(|literals|), low, after);
    LiteralsRead(input, i + 1, literals, []);
  }

  lemma Chain3(a: seq<byte>, b: seq<byte>, c: seq<byte>)
    ensures a + b + c == a + (b + c + [])
  {
  }

  lemma Chain6(a: seq<byte>, b: seq<byte>, c: seq<byte>, d: seq<byte>, e: seq<byte>, f: seq<byte>)
    ensures a + b + c + d + e + f == a + (b + c + (d + e + f))
  {
  }

  lemma {:induction false} WireSplits(literals: seq<byte>, offset: nat, length: nat, rest: Block)
    requires Valid(rest) && 0 < offset < 65536 && length >= 4
    ensures Nibble(|literals|) < 16 && Nibble(length - 4) < 16
    ensures var tail := [offset % 256, offset / 256] + Extra(length - 4) + Wire(rest);
            Wire(Sequence(literals, offset, length, rest)) ==
              [Nibble(|literals|) * 16 + Nibble(length - 4)] + (Extra(|literals|) + literals + tail)
  {
    Chain6([Nibble(|literals|) * 16 + Nibble(length - 4)], Extra(|literals|), literals, [offset % 256, offset / 256],
           Extra(length - 4), Wire(rest));
  }

  lemma MatchHeadReads(input: seq<byte>, i: nat, literals: seq<byte>, offset: nat, length: nat, rest: Block)
    returns (next: nat)
    requires i <= |input| && Valid(rest) && 0 < offset < 65536 && length >= 4
    requires input[i..] == Wire(Sequence(literals, offset, length, rest))
    ensures i < |input| && ReadHead(input, i) == Some(Match(literals, offset, length, next))
    ensures next <= |input| && input[next..] == Wire(rest)
  {
    hide Extra, Nibble, Offset, ReadLength, Wire;
    WireSplits(literals, offset, length, rest);
    var tail := [offset % 256, offset / 256] + Extra(length - 4) + Wire(rest);
    TokenReads(input, i, Nibble(|literals|), Nibble(length - 4), Extra(|literals|) + literals + tail);
    LiteralsRead(input, i + 1, literals, tail);
    var at := i + 1 + |Extra(|literals|)| + |literals|;
    MatchReads(input, at, offset, length - 4, Wire(rest));
    next := at + 2 + |Extra(length - 4)|;
  }

  /** Reading inverts writing. */
  lemma {:induction false} WireParses(input: seq<byte>, i: nat, b: Block)
    requires i <= |input| && Valid(b) && input[i..] == Wire(b)
    ensures Parse(input, i) == Some(b)
    decreases b
  {
    hide ReadHead;
    match b
    case End =>
    case Tail(low, literals) =>
      LastReads(input, i, low, literals);
    case Sequence(literals, offset, length, rest) =>
      var next := MatchHeadReads(input, i, literals, offset, length, rest);
      WireParses(input, next, rest);
  }

  lemma NibbleFits(n: nat)
    ensures Nibble(n) < 16
  {
  }

  lemma Joined(input: seq<byte>, i: nat, j: nat, k: nat)
    requires i <= j <= k <= |input|
    ensures input[i..k] == input[i..j] + input[j..k]
  {
  }

  lemma LiteralPieces(input: seq<byte>, i: nat, start: nat, at: nat)
    requires i < start <= at <= |input|
    ensures input[i..at] == [input[i]] + input[i + 1..start] + input[start..at]
  {
  }

  lemma MatchPieces(input: seq<byte>, i: nat, at: nat, next: nat)
    requires i < at && at + 2 <= next <= |input|
    ensures input[i..next] == input[i..at] + [input[at], input[at + 1]] + input[at + 2..next]
  {
  }

  /** What a successful read of a head has passed over. */
  ghost predicate HeadPassed(input: seq<byte>, i: nat, head: Head)
    requires i < |input|
  {
    match head
    case Last(low, literals) => low < 16 && input[i..] == [Nibble(|literals|) * 16 + low] + Extra(|literals|) + literals
    case Match(literals, offset, length, next) =>
      && i < next <= |input| && length >= 4 && offset < 65536
      && input[i..next] == [Nibble(|literals|) * 16 + Nibble(length - 4)] + Extra(|literals|) + literals +
                           [offset % 256, offset / 256] + Extra(length - 4)
  }

  lemma LiteralsWrote(input: seq<byte>, i: nat, count: nat, start: nat)
    requires i < |input| && start + count <= |input| && i < start
    requires ReadLength(input, i + 1, input[i] / 16) == Some((count, start))
    ensures input[i..start + count] ==
              [Nibble(count) * 16 + input[i] % 16] + Extra(count) + input[start..start + count]
  {
    LengthWrote(input, i + 1, input[i] / 16);
    hide ReadLength, Nibble, Extra;
    LiteralPieces(input, i, start, start + count);
  }

  lemma MatchWrote(input: seq<byte>, i: nat, at: nat, nibble: nat, more: nat, next: nat)
    requires i < at && at + 2 <= next <= |input| && nibble < 16
    requires ReadLength(input, at + 2, nibble) == Some((more, next))
    ensures var offset := Offset(input[at], input[at + 1]);
            && offset < 65536 && Nibble(more) == nibble
            && input[i..next] == input[i..at] + [offset % 256, offset / 256] + Extra(more)
  {
    LengthWrote(input, at + 2, nibble);
    OffsetBytes(input[at], input[at + 1]);
    hide ReadLength, Nibble, Extra, Offset;
    MatchPieces(input, i, at, next);
  }

  lemma HeadWrote(input: seq<byte>, i: nat)
    requires i < |input| && ReadHead(input, i).Some?
    ensures HeadPassed(input, i, ReadHead(input, i).value)
  {
    hide ReadLength, Nibble, Extra, Offset;
    var (count, start) := ReadLength(input, i + 1, input[i] / 16).value;
    LiteralsWrote(input, i, count, start);
    if start + count < |input| {
      var (more, next) := ReadLength(input, start + count + 2, input[i] % 16).value;
      MatchWrote(input, i, start + count, input[i] % 16, more, next);
    } else {
      assert input[i..start + count] == input[i..];
    }
  }

  /** Writing inverts reading: the input of a successful read is the wire form of its result. */
  lemma {:induction false} ParseWrote(input: seq<byte>, i: nat)
    requires i <= |input| && Parse(input, i).Some?
    ensures Wire(Parse(input, i).value) == input[i..]
    decreases |input| - i
  {
    hide ReadHead, Nibble, Extra;
    if i < |input| {
      HeadWrote(input, i);
      if ReadHead(input, i).value.Match? {
        var next := ReadHead(input, i).value.next;
        ParseWrote(input, next);
        Joined(input, i, next, |input|);
      }
    }
  }

  lemma OffsetBytes(low: byte, high: byte)
    ensures Offset(low, high) % 256 == low && Offset(low, high) / 256 == high && Offset(low, high) < 65536
  {
  }

  /** A byte string is the wire form of at most one block. */
  lemma {:induction false} WireUnique(a: Block, b: Block)
    requires Valid(a) && Valid(b) && Wire(a) == Wire(b)
    ensures a == b
  {
    WireParses(Wire(a), 0, a);
    WireParses(Wire(b), 0, b);
  }
}
