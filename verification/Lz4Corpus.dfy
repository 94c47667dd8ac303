/** The benchmark block of sw/lz4/lz4.c and its check, for any literals and any number of repeat
    sequences. */
module Lz4Corpus {
  import opened Bytes
  import opened Lz4Format
  import opened Lz4Decode
  import opened Options

  const BLOCK := 1024
  const FIRST := 64
  const REPEAT := 16

  function Repeats(again: seq<byte>, n: nat): (b: Block)
    ensures Valid(b)
  {
    if n == 0 then End else Sequence(again, BLOCK, BLOCK - REPEAT, Repeats(again, n - 1))
  }

  /** One sequence of 64 literals and a match over the rest of its 1024 bytes, then n repeats. */
  function Corpus(first: seq<byte>, again: seq<byte>, n: nat): (b: Block)
    ensures Valid(b)
  {
    Sequence(first, FIRST, BLOCK - FIRST, Repeats(again, n))
  }

  predicate Literals(first: seq<byte>, again: seq<byte>) { |first| == FIRST && |again| == REPEAT }

  // ---- The bytes of the static initializer ----

  function RepeatBytes(again: seq<byte>, n: nat): seq<byte> {
    if n == 0 then [] else [0xff, 1] + again + [0, 4] + [255, 255, 255, 224] + RepeatBytes(again, n - 1)
  }

  function CorpusBytes(first: seq<byte>, again: seq<byte>, n: nat): seq<byte> {
    [0xff, 49] + first + [64, 0] + [255, 255, 255, 176] + RepeatBytes(again, n)
  }

  lemma Extra64()
    ensures Extra(64) == [49] && Extra(16) == [1]
    ensures Extra(956) == [255, 255, 255, 176] && Extra(1004) == [255, 255, 255, 224]
  {
  }

  lemma {:induction false} RepeatsWire(again: seq<byte>, n: nat)
    requires |again| == REPEAT
    ensures Wire(Repeats(again, n)) == RepeatBytes(again, n) && |RepeatBytes(again, n)| == 24 * n
  {
    Extra64();
    if n > 0 {
      RepeatsWire(again, n - 1);
      assert [0xff, 1] == [0xff] + [1];
    }
  }

  /** The initializer is the wire form of the corpus; it takes 72 bytes and 24 for each repeat. */
  lemma CorpusWire(first: seq<byte>, again: seq<byte>, n: nat)
    requires Literals(first, again)
    ensures Wire(Corpus(first, again, n)) == CorpusBytes(first, again, n)
    ensures |CorpusBytes(first, again, n)| == 72 + 24 * n
  {
    Extra64();
    RepeatsWire(again, n);
    assert [0xff, 49] == [0xff] + [49];
  }

  // ---- What it expands to ----

  /** The output after k repeats. */
  function Grown(first: seq<byte>, again: seq<byte>, k: nat): (out: seq<byte>)
    requires Literals(first, again)
    ensures |out| == BLOCK * (k + 1)
  {
    if k == 0 then Matched(first, FIRST, BLOCK - FIRST)
    else Matched(Grown(first, again, k - 1) + again, BLOCK, BLOCK - REPEAT)
  }

  lemma RepeatExpands(out: seq<byte>, again: seq<byte>, n: nat)
    requires n > 0 && |out| >= BLOCK && |again| == REPEAT
    ensures Expand(out, Repeats(again, n)) == Expand(Matched(out + again, BLOCK, BLOCK - REPEAT), Repeats(again, n - 1))
  {
    hide Matched;
  }

  lemma {:induction false} NoRepeats(again: seq<byte>)
    ensures Repeats(again, 0) == End
  {
  }

  lemma {:induction false} RepeatsExpand(first: seq<byte>, again: seq<byte>, k: nat, n: nat)
    requires Literals(first, again)
    ensures Expand(Grown(first, again, k), Repeats(again, n)) == Some(Grown(first, again, k + n))
    decreases n
  {
    hide Matched, Repeats;
    if n > 0 {
      RepeatExpands(Grown(first, again, k), again, n);
      RepeatsExpand(first, again, k + 1, n - 1);
    } else {
      assert Repeats(again, 0) == End by { NoRepeats(again); }
    }
  }

  /** The byte that lz4_verify expects at `index` of block `block`. */
  function Expected(first: seq<byte>, again: seq<byte>, block: nat, index: nat): byte
    requires Literals(first, again)
  {
    if block != 0 && index < REPEAT then again[index] else first[index % FIRST]
  }

  lemma {:induction false} FirstAt(first: seq<byte>, index: nat)
    requires |first| == FIRST && index < BLOCK
    ensures Matched(first, FIRST, BLOCK - FIRST)[index] == first[index % FIRST]
  {
    MatchedRepeats(first, FIRST, BLOCK - FIRST, index);
    Wraps(index, FIRST);
    hide Matched;
  }

  /** A repeat keeps what is there, shows its literals, and repeats the rest of the block before. */
  lemma RepeatAt(before: seq<byte>, again: seq<byte>, i: nat)
    requires |before| >= BLOCK && |again| == REPEAT && i < |before| + BLOCK
    ensures Matched(before + again, BLOCK, BLOCK - REPEAT)[i] ==
              if i < |before| then before[i]
              else if i < |before| + REPEAT then again[i - |before|]
              else before[i - BLOCK]
  {
    hide Matched;
    var shown := before + again;
    MatchedRepeats(shown, BLOCK, BLOCK - REPEAT, i);
    if i >= |shown| {
      Wraps(i - |shown|, BLOCK);
    }
  }

  lemma {:induction false} GrownAt(first: seq<byte>, again: seq<byte>, k: nat, block: nat, index: nat)
    requires Literals(first, again) && block <= k && index < BLOCK
    ensures Grown(first, again, k)[block * BLOCK + index] == Expected(first, again, block, index)
  {
    hide Matched;
    if k == 0 {
      FirstAt(first, index);
    } else {
      RepeatAt(Grown(first, again, k - 1), again, block * BLOCK + index);
      if block < k {
        GrownAt(first, again, k - 1, block, index);
      } else if index >= REPEAT {
        GrownAt(first, again, k - 1, block - 1, index);
      }
    }
  }

  /** For any literals and any number of repeats, decoding the initializer fills the output, and
      every byte is the one the check expects. */
  lemma {:induction false} CorpusDecodes(first: seq<byte>, again: seq<byte>, n: nat)
    requires Literals(first, again)
    ensures Outcome(CorpusBytes(first, again, n), 0, [], BLOCK * (n + 1)) == Some(Grown(first, again, n))
    ensures forall block, index :: 0 <= block <= n && 0 <= index < BLOCK ==>
              Grown(first, again, n)[block * BLOCK + index] == Expected(first, again, block, index)
  {
    hide Outcome, Wire, CorpusBytes, Repeats, Grown, Expected;
    CorpusWire(first, again, n);
    FirstExpands(first, again, n);
    RepeatsExpand(first, again, 0, n);
    RoundTrip(Corpus(first, again, n), Grown(first, again, n));
    forall block, index | 0 <= block <= n && 0 <= index < BLOCK
      ensures Grown(first, again, n)[block * BLOCK + index] == Expected(first, again, block, index)
    {
      GrownAt(first, again, n, block, index);
    }
  }

  lemma {:induction false} FirstExpands(first: seq<byte>, again: seq<byte>, n: nat)
    requires Literals(first, again)
    ensures Expand([], Corpus(first, again, n)) == Expand(Grown(first, again, 0), Repeats(again, n))
  {
    assert [] + first == first;
  }

  // ---- lz4_verify ----

  method Verify(output: array<byte>, decoded: nat, first: seq<byte>, again: seq<byte>, blocks: nat) returns (ok: bool)
    requires Literals(first, again) && output.Length == blocks * BLOCK
    ensures ok <==> decoded == output.Length && forall block, index :: 0 <= block < blocks && 0 <= index < BLOCK ==>
                                                   output[block * BLOCK + index] == Expected(first, again, block, index)
  {
    if decoded != output.Length {
      return false;
    }
    for block := 0 to blocks
      invariant forall b, i :: 0 <= b < block && 0 <= i < BLOCK ==> output[b * BLOCK + i] == Expected(first, again, b, i)
    {
      for index := 0 to BLOCK
        invariant forall i :: 0 <= i < index ==> output[block * BLOCK + i] == Expected(first, again, block, i)
      {
        var expected := first[index % FIRST];
        if block != 0 && index < REPEAT {
          expected := again[index];
        }
        assert expected == Expected(first, again, block, index);
        if output[block * BLOCK + index] != expected {
          return false;
        }
      }
    }
    ok := true;
  }

  /** The benchmark passes its own check, whatever the output held before. */
  method Benchmark(input: array<byte>, output: array<byte>, first: seq<byte>, again: seq<byte>, blocks: nat)
    returns (ok: bool)
    requires Literals(first, again) && blocks > 0 && input != output
    requires input[..] == CorpusBytes(first, again, blocks - 1) && output.Length == blocks * BLOCK
    modifies output
    ensures ok
  {
    CorpusDecodes(first, again, blocks - 1);
    var decoded := Decode(input, output);
    assert output[..] == Grown(first, again, blocks - 1);
    ok := Verify(output, decoded, first, again, blocks);
  }
}
