/** random_permutation in tools/gen_multichase_ring.py: an inside-out Fisher-Yates shuffle whose
    random draws are arbitrary. */
module FisherYates {
  /** SplitMix64 as an arbitrary stream of raw values, one per call of `next`. */
  class Rng {
    const raw: nat -> nat
    var drawn: nat

    constructor (stream: nat -> nat)
      ensures raw == stream && drawn == 0
    {
      raw, drawn := stream, 0;
    }

    method Bounded(limit: nat) returns (value: nat)
      modifies this
      ensures value == Draw(raw, old(drawn), limit) && value <= limit
      ensures drawn == old(drawn) + 1
    {
      value := Draw(raw, drawn, limit);
      drawn := drawn + 1;
    }
  }

  function Draw(raw: nat -> nat, at: nat, limit: nat): (value: nat)
    ensures value <= limit
  {
    raw(at) % (limit + 1)
  }

  /** The draws that a shuffle of `count` elements takes when it starts at position `at`. */
  function Draws(raw: nat -> nat, at: nat, count: nat): (draws: seq<nat>)
    ensures |draws| == count && Legal(draws)
  {
    if count == 0 then [] else Draws(raw, at, count - 1) + [Draw(raw, at + count - 1, count - 1)]
  }

  predicate Legal(draws: seq<nat>) { forall i :: 0 <= i < |draws| ==> draws[i] <= i }

  /** The list after the loop has used these draws. */
  function Shuffle(draws: seq<nat>, base: int): (p: seq<int>)
    requires Legal(draws)
    ensures |p| == |draws|
  {
    if draws == [] then [] else
      var n := |draws| - 1;
      var before := Shuffle(draws[..n], base);
      var t := draws[n];
      if t == n then before + [base + n] else before[t := base + n] + [before[t]]
  }

  lemma {:induction false} NextShuffle(draws: seq<nat>, t: nat, base: int)
    requires Legal(draws) && t <= |draws|
    ensures var before := Shuffle(draws, base);
            Shuffle(draws + [t], base) ==
              if t == |draws| then before + [base + |draws|] else before[t := base + |draws|] + [before[t]]
  {
    assert (draws + [t])[..|draws|] == draws;
  }

  lemma Placed(list: seq<int>, index: nat, target: nat, v: int)
    requires target <= index < |list|
    ensures var before := list[..index];
            list[index := list[target]][target := v][..index + 1] ==
              if target == index then before + [v] else before[target := v] + [before[target]]
  {
  }

  method RandomPermutation(count: nat, base: int, rng: Rng) returns (permutation: array<int>)
    modifies rng
    ensures fresh(permutation) && rng.drawn == old(rng.drawn) + count
    ensures permutation[..] == Shuffle(Draws(rng.raw, old(rng.drawn), count), base)
  {
    hide Shuffle, Draw;
    permutation := new int[count](_ => 0);
    for index := 0 to count
      invariant rng.drawn == old(rng.drawn) + index
      invariant permutation[..index] == Shuffle(Draws(rng.raw, old(rng.drawn), index), base)
    {
      var target := rng.Bounded(index);
      ghost var before := permutation[..];
      permutation[index] := permutation[target];
      permutation[target] := base + index;
      assert permutation[..] == before[index := before[target]][target := base + index];
      Placed(before, index, target, base + index);
      NextShuffle(Draws(rng.raw, old(rng.drawn), index), target, base);
    }
    assert permutation[..] == permutation[..count];
  }

  // ---- Permutations ----

  ghost predicate Distinct(p: seq<int>) { forall i, j :: 0 <= i < j < |p| ==> p[i] != p[j] }

  ghost predicate Permutation(p: seq<int>, base: int) {
    && Distinct(p)
    && (forall i :: 0 <= i < |p| ==> base <= p[i] < base + |p|)
    && (forall v :: base <= v < base + |p| ==> v in p)
  }

  /** Whatever is drawn, the result lists each of the values base .. base + count - 1 once. */
  lemma {:induction false} ShufflePermutes(draws: seq<nat>, base: int)
    requires Legal(draws)
    ensures Permutation(Shuffle(draws, base), base)
  {
    if draws != [] {
      var n := |draws| - 1;
      var t := draws[n];
      var before, p := Shuffle(draws[..n], base), Shuffle(draws, base);
      ShufflePermutes(draws[..n], base);
      assert p[t] == base + n;
      forall v | base <= v < base + n
        ensures v in p
      {
        assert v in before;
        var i :| 0 <= i < n && before[i] == v;
        assert p[if i == t then n else i] == v;
      }
    }
  }

  function IndexOf(p: seq<int>, v: int): (i: nat)
    requires v in p
    ensures i < |p| && p[i] == v
  {
    if p[0] == v then 0 else 1 + IndexOf(p[1..], v)
  }

  /** The list before its last element was put in place. */
  function Undone(p: seq<int>, t: nat): seq<int>
    requires t < |p|
  {
    var n := |p| - 1;
    if t == n then p[..n] else p[..n][t := p[n]]
  }

  lemma UndonePermutes(p: seq<int>, base: int, t: nat)
    requires Permutation(p, base) && t < |p| && p[t] == base + |p| - 1
    ensures Permutation(Undone(p, t), base)
  {
    var n := |p| - 1;
    var q := Undone(p, t);
    forall v | base <= v < base + n
      ensures v in q
    {
      var i := IndexOf(p, v);
      assert q[if i == n then t else i] == v;
    }
  }

  /** The draws that lead to p. */
  ghost function Unshuffle(p: seq<int>, base: int): (draws: seq<nat>)
    requires Permutation(p, base)
    ensures |draws| == |p| && Legal(draws)
    decreases |p|
  {
    if p == [] then [] else
      var t := IndexOf(p, base + |p| - 1);
      UndonePermutes(p, base, t);
      Unshuffle(Undone(p, t), base) + [t]
  }

  lemma {:induction false} IndexOfOnly(p: seq<int>, t: nat)
    requires Distinct(p) && t < |p|
    ensures IndexOf(p, p[t]) == t
  {
  }

  lemma {:induction false} UnshuffleLast(p: seq<int>, base: int, t: nat)
    requires Permutation(p, base) && t < |p| && p[t] == base + |p| - 1
    ensures Permutation(Undone(p, t), base) && Unshuffle(p, base) == Unshuffle(Undone(p, t), base) + [t]
  {
    UndonePermutes(p, base, t);
    IndexOfOnly(p, t);
    hide Permutation, Undone, IndexOf;
  }

  lemma {:induction false} UndoneShuffle(draws: seq<nat>, base: int)
    requires Legal(draws) && draws != []
    ensures var n := |draws| - 1;
            && Shuffle(draws, base)[draws[n]] == base + n
            && Undone(Shuffle(draws, base), draws[n]) == Shuffle(draws[..n], base)
  {
  }

  /** Different draws give different permutations: the draws can be read back. */
  lemma {:induction false} UnshuffleShuffle(draws: seq<nat>, base: int)
    requires Legal(draws)
    ensures Permutation(Shuffle(draws, base), base)
    ensures Unshuffle(Shuffle(draws, base), base) == draws
    decreases |draws|
  {
    hide Permutation, Undone, IndexOf;
    ShufflePermutes(draws, base);
    if draws != [] {
      var n := |draws| - 1;
      UndoneShuffle(draws, base);
      UnshuffleLast(Shuffle(draws, base), base, draws[n]);
      UnshuffleShuffle(draws[..n], base);
      hide Shuffle, Unshuffle;
      assert draws == draws[..n] + [draws[n]];
    }
  }

  lemma {:induction false} ShuffleLast(draws: seq<nat>, base: int, t: nat, p: seq<int>)
    requires Legal(draws) && t <= |draws| == |p| - 1 && p[t] == base + |p| - 1
    requires Shuffle(draws, base) == Undone(p, t)
    ensures Shuffle(draws + [t], base) == p
  {
    NextShuffle(draws, t, base);
  }

  /** Every permutation is reached. */
  lemma {:induction false} ShuffleUnshuffle(p: seq<int>, base: int)
    requires Permutation(p, base)
    ensures Shuffle(Unshuffle(p, base), base) == p
    decreases |p|
  {
    if p != [] {
      assert base + |p| - 1 in p;
      var t := IndexOf(p, base + |p| - 1);
      UnshuffleLast(p, base, t);
      ShuffleUnshuffle(Undone(p, t), base);
      hide Permutation, IndexOf, Shuffle, Unshuffle, Undone;
      ShuffleLast(Unshuffle(Undone(p, t), base), base, t, p);
    }
  }
}
