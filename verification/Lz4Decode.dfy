/** lz4_decode_bench in sw/lz4/lz4.c, for any input and any output capacity. */
module Lz4Decode {
  import opened Bytes
  import opened Lz4Format
  import opened Options

  /** What a block read from index i makes of the bytes written so far, if they fit. */
  function Outcome(input: seq<byte>, i: nat, out: seq<byte>, capacity: nat): (r: Option<seq<byte>>)
    requires i <= |input|
    ensures r.Some? ==> |out| <= |r.value| <= capacity
  {
    match Parse(input, i)
    case None => None
    case Some(b) =>
      match Expand(out, b)
      case None => None
      case Some(all) => if |all| <= capacity then Some(all) else None
  }

  ghost predicate Encodes(input: seq<byte>, b: Block, out: seq<byte>) {
    Valid(b) && Wire(b) == input && Expand([], b) == Some(out)
  }

  /** Decoding succeeds with `out` exactly when the input is the wire form of a block that expands
      to it, and it fits. */
  lemma OutcomeExactly(input: seq<byte>, capacity: nat, out: seq<byte>)
    ensures Outcome(input, 0, [], capacity) == Some(out) <==> |out| <= capacity && exists b :: Encodes(input, b, out)
  {
    hide Wire, Parse, Expand;
    assert input[0..] == input;
    if Parse(input, 0).Some? {
      ParseWrote(input, 0);
    }
    forall b | Encodes(input, b, out)
      ensures Parse(input, 0) == Some(b)
    {
      WireParses(input, 0, b);
    }
    if Outcome(input, 0, [], capacity) == Some(out) {
      assert Encodes(input, Parse(input, 0).value, out);
    }
  }

  /** Writing a block and decoding it gives its expansion. */
  lemma {:induction false} RoundTrip(b: Block, out: seq<byte>)
    requires Valid(b) && Expand([], b) == Some(out)
    ensures Outcome(Wire(b), 0, [], |out|) == Some(out)
  {
    assert Encodes(Wire(b), b, out);
    OutcomeExactly(Wire(b), |out|, out);
  }

  // ---- One head at a time ----

  /** What becomes of the output after one head. */
  function After(input: seq<byte>, head: Head, out: seq<byte>, capacity: nat): Option<seq<byte>>
    requires head.Match? ==> head.next <= |input| && head.offset > 0
  {
    var shown := out + head.literals;
    if head.Last? then
      if |shown| <= capacity then Some(shown) else None
    else if |shown| + head.length <= capacity && head.offset <= |shown| then
      Outcome(input, head.next, Matched(shown, head.offset, head.length), capacity)
    else None
  }

  lemma OutcomeNext(input: seq<byte>, i: nat, out: seq<byte>, capacity: nat)
    requires i <= |input| && |out| <= capacity
    ensures i == |input| ==> Outcome(input, i, out, capacity) == Some(out)
    ensures i < |input| && ReadHead(input, i).None? ==> Outcome(input, i, out, capacity) == None
    ensures i < |input| && ReadHead(input, i).Some? ==>
              Outcome(input, i, out, capacity) == After(input, ReadHead(input, i).value, out, capacity)
  {
    hide ReadHead;
  }

  /** extend_length; None stands for its (size_t)-1. */
  method ExtendLength(input: array<byte>, cursor: nat, length: nat) returns (r: Option<(nat, nat)>)
    requires cursor <= input.Length
    ensures r == Extend(input[..], cursor, length)
  {
    var at: nat, total: nat := cursor, length;
    while true
      invariant at <= input.Length && Extend(input[..], at, total) == Extend(input[..], cursor, length)
      decreases input.Length - at
    {
      if at == input.Length {
        return None;
      }
      var extension: nat := input[at];
      at, total := at + 1, total + extension;
      if extension != 255 {
        return Some((total, at));
      }
    }
  }

  method LengthAt(input: array<byte>, cursor: nat, nibble: nat) returns (r: Option<(nat, nat)>)
    requires cursor <= input.Length
    ensures r == ReadLength(input[..], cursor, nibble)
  {
    if nibble == 15 {
      r := ExtendLength(input, cursor, 15);
    } else {
      r := Some((nibble, cursor));
    }
  }

  /** A real length never collides with (size_t)-1. */
  lemma {:induction false} ExtendBounded(input: seq<byte>, i: nat, length: nat)
    requires i <= |input| && Extend(input, i, length).Some?
    ensures Extend(input, i, length).value.0 <= length + 255 * (Extend(input, i, length).value.1 - i)
    decreases |input| - i
  {
    if input[i] == 255 {
      ExtendBounded(input, i + 1, length + 255);
    }
  }

  method CopyLiterals(input: array<byte>, cursor: nat, output: array<byte>, destination: nat, count: nat)
    requires input != output && cursor + count <= input.Length && destination + count <= output.Length
    modifies output
    ensures output[..destination + count] == old(output[..destination]) + input[cursor..cursor + count]
  {
    for index := 0 to count
      invariant output[..destination + index] == old(output[..destination]) + input[cursor..cursor + index]
    {
      output[destination + index] := input[cursor + index];
    }
  }

  /** The bytes written by a match may be read again by the same match. */
  method CopyMatch(output: array<byte>, destination: nat, offset: nat, count: nat)
    requires 0 < offset <= destination && destination + count <= output.Length
    modifies output
    ensures output[..destination + count] == Matched(old(output[..destination]), offset, count)
  {
    for index := 0 to count
      invariant output[..destination + index] == Matched(old(output[..destination]), offset, index)
    {
      ghost var before := output[..destination + index];
      output[destination + index] := output[destination - offset + index];
      assert output[..destination + index + 1] == before + [before[|before| - offset]];
    }
  }

  datatype Progress = Failed | Finished(size: nat) | Going(cursor: nat, destination: nat)

  /** One head has been decoded, or cannot be: the output is too small, or the match reaches back too
      far. */
  ghost predicate Decoded(input: seq<byte>, cursor: nat, out: seq<byte>, output: seq<byte>, p: Progress)
    requires cursor < |input|
  {
    match ReadHead(input, cursor)
    case None => p == Failed
    case Some(head) =>
      var shown := out + head.literals;
      if head.Last? then
        if |shown| <= |output| then p == Finished(|shown|) && output[..|shown|] == shown else p == Failed
      else if |shown| + head.length <= |output| && head.offset <= |shown| then
        && p == Going(head.next, |shown| + head.length)
        && output[..p.destination] == Matched(shown, head.offset, head.length)
      else p == Failed
  }

  /** The body of the decoding loop. */
  method DecodeHead(input: array<byte>, cursor: nat, output: array<byte>, destination: nat) returns (p: Progress)
    requires input != output && cursor < input.Length && destination <= output.Length
    modifies output
    ensures Decoded(input[..], cursor, old(output[..destination]), output[..], p)
  {
    hide ReadLength, Matched;
    ghost var source, out := input[..], output[..destination];
    var end := input.Length;
    var token := input[cursor];
    var head := LengthAt(input, cursor + 1, token / 16);
    if head.None? {
      return Failed;
    }
    var (count, start) := head.value;
    if end - start < count || output.Length - destination < count {
      return Failed;
    }
    CopyLiterals(input, start, output, destination, count);
    var at, produced := start + count, destination + count;
    assert output[..produced] == out + source[start..at];
    if at == end {
      return Finished(produced);
    }
    if end - at < 2 {
      return Failed;
    }
    var low: nat, high: nat := input[at], input[at + 1];
    var offset := low + 256 * high;
    if offset == 0 || offset > produced {
      return Failed;
    }
    var tail := LengthAt(input, at + 2, token % 16);
    if tail.None? {
      return Failed;
    }
    var (more, next) := tail.value;
    if output.Length - produced < more + 4 {
      return Failed;
    }
    assert ReadHead(source, cursor) == Some(Match(source[start..at], offset, more + 4, next));
    hide ReadHead;
    CopyMatch(output, produced, offset, more + 4);
    p := Going(next, produced + more + 4);
  }

  /** The size is zero on any error; a block that expands to nothing has that result too. */
  method Decode(input: array<byte>, output: array<byte>) returns (size: nat)
    requires input != output
    modifies output
    ensures match Outcome(input[..], 0, [], output.Length)
            case Some(all) => size == |all| && output[..size] == all
            case None => size == 0
  {
    hide Outcome, ReadHead;
    ghost var source, capacity := input[..], output.Length;
    var cursor, destination := 0, 0;
    while cursor != input.Length
      invariant cursor <= input.Length && destination <= output.Length && input[..] == source
      invariant Outcome(source, cursor, output[..destination], capacity) == Outcome(source, 0, [], capacity)
      decreases input.Length - cursor
    {
      OutcomeNext(source, cursor, output[..destination], capacity);
      var p := DecodeHead(input, cursor, output, destination);
      match p
      case Failed => return 0;
      case Finished(n) => return n;
      case Going(next, written) => cursor, destination := next, written;
    }
    OutcomeNext(source, cursor, output[..destination], capacity);
    size := destination;
  }

  /** The result zero is ambiguous, and this is when: an empty input, or one token that announces no
      literals, decodes successfully to nothing. */
  lemma EmptyExpansion(input: seq<byte>, capacity: nat)
    ensures Outcome(input, 0, [], capacity) == Some([]) <==> input == [] || (|input| == 1 && input[0] < 16)
  {
    hide Outcome;
    OutcomeNext(input, 0, [], capacity);
    if input != [] && ReadHead(input, 0).Some? {
      HeadWrote(input, 0);
      var head := ReadHead(input, 0).value;
      assert [] + head.literals == head.literals;
    }
  }
}
