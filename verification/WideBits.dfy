/** wide_bits in tb/verilator_4h_checkpoint_main.cpp and wide_bits64 in
    tb/verilator_checkpoint_main.cpp: bit fields of a value kept in 32-bit words, on integers. */
module WideBits {
  import opened Arithmetic

  function Pow2(n: nat): (p: nat)
    ensures p > 0
  {
    if n == 0 then 1 else 2 * Pow2(n - 1)
  }

  type u32 = w: nat | w < 0x1_0000_0000

  /** The number that the words stand for, least significant word first. */
  function Value(words: seq<u32>): nat {
    if words == [] then 0 else words[0] + 0x1_0000_0000 * Value(words[1..])
  }

  /** Bits lsb .. lsb + width - 1 of v. */
  function Bits(v: nat, lsb: nat, width: nat): int { v / Pow2(lsb) % Pow2(width) }

  // ---- Operators on unsigned values, bit by bit ----

  function Right(a: nat, n: nat): nat { if n == 0 then a else Right(a / 2, n - 1) }

  function Left(a: nat, n: nat): (r: nat)
    ensures a > 0 ==> r > 0
  {
    if n == 0 then a else 2 * Left(a, n - 1)
  }

  /** The low n bits: what an n-bit type keeps. */
  function Low(a: nat, n: nat): nat { if n == 0 then 0 else a % 2 + 2 * Low(a / 2, n - 1) }

  function Or(a: nat, b: nat): nat
    decreases a + b
  {
    if a == 0 && b == 0 then 0 else (if a % 2 == 1 || b % 2 == 1 then 1 else 0) + 2 * Or(a / 2, b / 2)
  }

  function And(a: nat, b: nat): nat {
    if a == 0 || b == 0 then 0 else (if a % 2 == 1 && b % 2 == 1 then 1 else 0) + 2 * And(a / 2, b / 2)
  }

  // ---- Their arithmetic meaning ----

  lemma {:induction false} LeftTimes(a: nat, n: nat)
    ensures Left(a, n) == a * Pow2(n)
  {
    if n > 0 {
      LeftTimes(a, n - 1);
      assert 2 * (a * Pow2(n - 1)) == a * (2 * Pow2(n - 1));
    }
  }

  lemma {:induction false} Splits(a: nat, n: nat)
    ensures a == Left(Right(a, n), n) + Low(a, n) && Low(a, n) < Pow2(n)
  {
    if n > 0 {
      Splits(a / 2, n - 1);
    }
  }

  /** Shifting and masking read the field. */
  lemma {:induction false} BitsAre(v: nat, lsb: nat, width: nat)
    ensures Bits(v, lsb, width) == Low(Right(v, lsb), width)
  {
    var q := Right(v, lsb);
    Splits(v, lsb);
    LeftTimes(q, lsb);
    Splits(q, width);
    LeftTimes(Right(q, width), width);
    Unique(v, Pow2(lsb), q, Low(v, lsb));
    Unique(q, Pow2(width), Right(q, width), Low(q, width));
  }

  // ---- Laws ----

  lemma {:induction false} RightRight(a: nat, m: nat, n: nat)
    ensures Right(Right(a, m), n) == Right(a, m + n)
    decreases m
  {
    if m > 0 {
      RightRight(a / 2, m - 1, n);
    }
  }

  lemma {:induction false} LowJoins(x: nat, a: nat, b: nat)
    ensures Low(x, a + b) == Low(x, a) + Left(Low(Right(x, a), b), a)
    decreases a
  {
    if a > 0 {
      LowJoins(x / 2, a - 1, b);
    }
  }

  lemma {:induction false} LowRight(x: nat, a: nat, b: nat)
    ensures Right(Low(x, a + b), a) == Low(Right(x, a), b)
    decreases a
  {
    if a > 0 {
      LowRight(x / 2, a - 1, b);
    }
  }

  lemma {:induction false} LowLow(x: nat, a: nat, b: nat)
    requires b <= a
    ensures Low(Low(x, a), b) == Low(x, b)
  {
    if b > 0 {
      LowLow(x / 2, a - 1, b - 1);
    }
  }

  lemma {:induction false} OrDisjoint(a: nat, n: nat, b: nat)
    requires a < Pow2(n)
    ensures Or(a, Left(b, n)) == a + Left(b, n)
  {
    if n == 0 {
      OrZero(b);
    } else {
      OrDisjoint(a / 2, n - 1, b);
    }
  }

  lemma {:induction false} OrZero(b: nat)
    ensures Or(0, b) == b
  {
    if b > 0 {
      OrZero(b / 2);
    }
  }

  lemma {:induction false} AndMask(a: nat, n: nat)
    ensures And(a, Left(1, n) - 1) == Low(a, n)
    decreases n
  {
    LeftTimes(1, n);
    if n > 0 {
      AndMask(a / 2, n - 1);
      LeftTimes(1, n - 1);
      if a == 0 {
        LowZero(n);
      }
    }
  }

  lemma {:induction false} LowZero(n: nat)
    ensures Low(0, n) == 0
  {
    if n > 0 {
      LowZero(n - 1);
    }
  }

  lemma {:induction false} LowSmall(a: nat, n: nat)
    requires a < Pow2(n)
    ensures Low(a, n) == a && Right(a, n) == 0
  {
    if n > 0 {
      LowSmall(a / 2, n - 1);
    }
  }

  lemma {:induction false} RightSum(a: nat, v: nat, n: nat)
    requires a < Pow2(n)
    ensures Right(a + Left(v, n), n) == v && Low(a + Left(v, n), n) == a
  {
    if n > 0 {
      RightSum(a / 2, v, n - 1);
    }
  }

  // ---- Words ----

  lemma Pow32()
    ensures Pow2(32) == 0x1_0000_0000
  {
    assert Pow2(8) == 256;
    assert Pow2(16) == 65536;
    assert Pow2(24) == 0x100_0000;
  }

  /** Word k holds bits 32 k .. 32 k + 31; above the last word there are only zeros. */
  lemma {:induction false} WordBits(words: seq<u32>, k: nat)
    ensures Low(Right(Value(words), 32 * k), 32) == if k < |words| then words[k] else 0
    ensures k >= |words| ==> Right(Value(words), 32 * k) == 0
  {
    hide Low, Right, Left, Pow2;
    RightNone(Value(words));
    Pow32();
    if words == [] {
      RightZero(32 * k);
      LowZero(32);
    } else {
      var rest := Value(words[1..]);
      LeftTimes(rest, 32);
      RightSum(words[0], rest, 32);
      if k > 0 {
        RightRight(Value(words), 32, 32 * (k - 1));
        WordBits(words[1..], k - 1);
      }
    }
  }

  lemma {:induction false} RightZero(n: nat)
    ensures Right(0, n) == 0
  {
    if n > 0 {
      RightZero(n - 1);
    }
  }

  /** The bits of one word from `from` up, at most to the end of the word. */
  lemma WordField(words: seq<u32>, k: nat, from: nat, count: nat)
    requires from + count <= 32
    ensures var w: nat := if k < |words| then words[k] else 0;
            Low(Right(w, from), count) == Low(Right(Value(words), 32 * k + from), count)
  {
    hide Low, Right, Value;
    var v := Right(Value(words), 32 * k);
    WordBits(words, k);
    LowRight(v, from, 32 - from);
    LowLow(Right(v, from), 32 - from, count);
    RightRight(Value(words), 32 * k, from);
  }

  lemma {:induction false} RightNone(v: nat)
    ensures Right(v, 0) == v
  {
  }

  lemma {:induction false} LowNone(v: nat)
    ensures Low(v, 0) == 0
  {
  }

  // ---- wide_bits ----

  /** For any number of words and any field of up to 64 bits inside them. */
  method Extract(words: seq<u32>, lsb: nat, width: nat) returns (result: nat)
    requires width <= 64 && lsb + width <= 32 * |words|
    ensures result == Bits(Value(words), lsb, width) && result < Pow2(width)
  {
    ghost var v := Right(Value(words), lsb);
    LowNone(v);
    hide Low, Right, Left, Or, And, Value, Bits, Pow2;
    result := 0;
    var copied := 0;
    while copied < width
      invariant copied <= width && result == Low(v, copied)
    {
      var bit := lsb + copied;
      var word, wordBit := bit / 32, bit % 32;
      var count := if 32 - wordBit <= width - copied then 32 - wordBit else width - copied;
      var mask := Left(1, count) - 1;
      var piece := And(Right(words[word], wordBit), mask);
      AndMask(Right(words[word], wordBit), count);
      WordField(words, word, wordBit, count);
      RightRight(Value(words), lsb, copied);
      LowJoins(v, copied, count);
      Splits(v, copied);
      OrDisjoint(result, copied, piece);
      result := Or(result, Left(piece, copied));
      copied := copied + count;
    }
    BitsAre(Value(words), lsb, width);
    Splits(v, width);
  }

  // ---- wide_bits64 ----

  /** Bits shifted out of a 64-bit value are lost. */
  function Left64(a: nat, n: nat): nat { Low(Left(a, n), 64) }

  lemma LeftLow(a: nat, n: nat, m: nat)
    ensures Low(Left(a, n), n + m) == Left(Low(a, m), n)
  {
    LowJoins(Left(a, n), n, m);
    LeftSplits(a, n);
  }

  lemma {:induction false} LeftSplits(a: nat, n: nat)
    ensures Low(Left(a, n), n) == 0 && Right(Left(a, n), n) == a
  {
    if n > 0 {
      LeftSplits(a, n - 1);
    }
  }

  /** The word, or the zeros above the last one. */
  function Word(words: seq<u32>, k: nat): nat { if k < |words| then words[k] else 0 }

  lemma WordSmall(words: seq<u32>, k: nat, extra: nat)
    ensures Low(Word(words, k), 32 + extra) == Word(words, k)
  {
    Pow32();
    PowGrows(32, extra);
    hide Low, Pow2;
    LowSmall(Word(words, k), 32 + extra);
  }

  lemma {:induction false} PowGrows(n: nat, extra: nat)
    ensures Pow2(n + extra) >= Pow2(n)
  {
    if extra > 0 {
      PowGrows(n, extra - 1);
    }
  }

  lemma {:induction false} FirstWord(words: seq<u32>, word: nat, shift: nat)
    requires word < |words| && shift < 32
    ensures Right(words[word], shift) == Low(Right(Value(words), 32 * word + shift), 32 - shift)
  {
    hide Low, Right, Value;
    var v := Right(Value(words), 32 * word);
    WordBits(words, word);
    LowRight(v, shift, 32 - shift);
    RightRight(Value(words), 32 * word, shift);
  }

  lemma SecondWord(words: seq<u32>, word: nat, shift: nat)
    requires shift < 32
    ensures var v := Right(Value(words), 32 * word + shift);
            Low(v, 64 - shift) == Low(v, 32 - shift) + Left(Word(words, word + 1), 32 - shift)
    ensures Left64(Word(words, word + 1), 32 - shift) == Left(Word(words, word + 1), 32 - shift)
  {
    hide Low, Right, Value, Left;
    var v := Right(Value(words), 32 * word + shift);
    LowJoins(v, 32 - shift, 32);
    RightRight(Value(words), 32 * word + shift, 32 - shift);
    WordBits(words, word + 1);
    LeftLow(Word(words, word + 1), 32 - shift, 32 + shift);
    WordSmall(words, word + 1, shift);
  }

  lemma ThirdWord(words: seq<u32>, word: nat, shift: nat)
    requires 0 < shift < 32
    ensures var v, w := Right(Value(words), 32 * word + shift), Word(words, word + 2);
            && Low(v, 64) == Low(v, 64 - shift) + Left(Low(w, shift), 64 - shift)
            && Left64(w, 64 - shift) == Left(Low(w, shift), 64 - shift)
  {
    hide Low, Right, Value, Left;
    var v := Right(Value(words), 32 * word + shift);
    LowJoins(v, 64 - shift, shift);
    RightRight(Value(words), 32 * word + shift, 64 - shift);
    WordBits(words, word + 2);
    LowLow(Right(v, 64 - shift), 32, shift);
    LeftLow(Word(words, word + 2), 64 - shift, shift);
  }

  lemma {:induction false} NoneLeft(n: nat)
    ensures Left(0, n) == 0
  {
    if n > 0 {
      NoneLeft(n - 1);
    }
  }

  /** For any number of words and any start inside them, with zeros above the last word. */
  method Extract64(words: seq<u32>, lsb: nat) returns (result: nat)
    requires lsb < 32 * |words|
    ensures result == Bits(Value(words), lsb, 64)
  {
    hide Low, Right, Value, Left, Or, Left64, Bits, Pow2;
    var word, shift := lsb / 32, lsb % 32;
    ghost var v := Right(Value(words), lsb);
    FirstWord(words, word, shift);
    SecondWord(words, word, shift);
    result := Right(words[word], shift);
    if word + 1 < |words| {
      Splits(v, 32 - shift);
      OrDisjoint(result, 32 - shift, words[word + 1]);
      result := Or(result, Left64(words[word + 1], 32 - shift));
    } else {
      NoneLeft(32 - shift);
    }
    assert result == Low(v, 64 - shift);
    if shift != 0 {
      ThirdWord(words, word, shift);
      Splits(v, 64 - shift);
      LowZero(shift);
      NoneLeft(64 - shift);
    }
    if shift != 0 && word + 2 < |words| {
      OrDisjoint(result, 64 - shift, Low(words[word + 2], shift));
      result := Or(result, Left64(words[word + 2], 64 - shift));
    }
    BitsAre(Value(words), lsb, 64);
  }

  /** Where both apply, the two functions agree. */
  method Agree(words: seq<u32>, lsb: nat) returns (a: nat, b: nat)
    requires lsb + 64 <= 32 * |words|
    ensures a == b
  {
    a := Extract(words, lsb, 64);
    b := Extract64(words, lsb);
  }
}
