/** The bitmap: an array of 32-bit words. */
module Bitmaps {
  import opened Arith
  import opened Bits

  /** The bytes for `length` bits, in whole words. */
  function PredictSize(length: nat): nat {
    (length + WORD_BITS - 1) / WORD_BITS * WORD_BITS / 8
  }

  function WordCount(length: nat): nat {
    (length + WORD_BITS - 1) / WORD_BITS
  }

  lemma {:induction false} SomeBit(x: nat) returns (k: nat)
    requires x > 0
    ensures Bit(x, k)
  {
    if Bit(x, 0) {
      k := 0;
    } else {
      k := SomeBit(x / 2);
      k := k + 1;
    }
  }

  /** word & (1 << bit) */
  lemma TestBit(word: nat, bit: nat)
    requires bit < WORD_BITS
    ensures And(word, Pow2(bit)) != 0 <==> Bit(word, bit)
  {
    var masked := And(word, Pow2(bit));
    forall k: nat ensures Bit(masked, k) <==> k == bit && Bit(word, bit) {
      BitAnd(word, Pow2(bit), k);
      BitPow2(bit, k);
    }
    if masked != 0 {
      var k := SomeBit(masked);
    } else {
      BitZero(bit);
    }
  }

  lemma PowersFit(bit: nat)
    requires bit < WORD_BITS
    ensures Pow2(bit) < WORD
  {
    WordIsPow2();
    Pow2Monotone(bit, WORD_BITS - 1);
  }

  /** word | (1 << bit) */
  lemma SetBit(word: nat, bit: nat)
    requires word < WORD && bit < WORD_BITS
    ensures Pow2(bit) < WORD && Or(word, Pow2(bit)) < WORD
    ensures forall k :: 0 <= k < WORD_BITS ==> Bit(Or(word, Pow2(bit)), k) == (k == bit || Bit(word, k))
  {
    PowersFit(bit);
    WordIsPow2();
    Fits(word, Pow2(bit), WORD_BITS);
    forall k | 0 <= k < WORD_BITS ensures Bit(Or(word, Pow2(bit)), k) == (k == bit || Bit(word, k)) {
      BitOr(word, Pow2(bit), k);
      BitPow2(bit, k);
    }
  }

  /** word & ~(1 << bit) */
  lemma ClearBit(word: nat, bit: nat)
    requires word < WORD && bit < WORD_BITS
    ensures Pow2(bit) < WORD && And(word, Not(Pow2(bit))) < WORD
    ensures forall k :: 0 <= k < WORD_BITS ==> Bit(And(word, Not(Pow2(bit))), k) == (k != bit && Bit(word, k))
  {
    PowersFit(bit);
    WordIsPow2();
    Fits(word, Not(Pow2(bit)), WORD_BITS);
    forall k | 0 <= k < WORD_BITS ensures Bit(And(word, Not(Pow2(bit))), k) == (k != bit && Bit(word, k)) {
      BitAnd(word, Not(Pow2(bit)), k);
      BitNot(Pow2(bit), WORD_BITS, k);
      BitPow2(bit, k);
    }
  }

  class Bitmap {
    const space: nat
    const bitsets: array<nat>
    const length: nat

    ghost predicate Valid()
      reads bitsets
    {
      && length > 0 && bitsets.Length == WordCount(length)
      && forall i :: 0 <= i < bitsets.Length ==> bitsets[i] < WORD
    }

    ghost function At(i: nat): bool
      requires Valid() && i < length
      reads bitsets
    {
      Bit(bitsets[i / WORD_BITS], i % WORD_BITS)
    }

    /** What the words stand for. */
    ghost function Contents(): (s: seq<bool>)
      requires Valid()
      reads bitsets
      ensures |s| == length
    {
      seq(length, i requires 0 <= i < length && Valid() reads bitsets => At(i))
    }

    constructor (space: nat, length: nat)
      requires length > 0
      ensures Valid() && fresh(bitsets) && this.space == space && this.length == length
      ensures forall i :: 0 <= i < length ==> !Contents()[i]
    {
      this.space := space;
      this.length := length;
      bitsets := new nat[WordCount(length)](_ => 0);
      new;
      forall i | 0 <= i < length ensures !Contents()[i] {
        BitZero(i % WORD_BITS);
      }
    }

    method Get(index: nat) returns (b: bool)
      requires Valid() && index < length
      ensures b == Contents()[index]
    {
      TestBit(bitsets[index / WORD_BITS], index % WORD_BITS);
      b := And(bitsets[index / WORD_BITS], Pow2(index % WORD_BITS)) != 0;
    }

    method SetTrue(index: nat)
      requires Valid() && index < length
      modifies bitsets
      ensures Valid() && Contents() == old(Contents())[index := true]
    {
      var word, bit := index / WORD_BITS, index % WORD_BITS;
      SetBit(bitsets[word], bit);
      bitsets[word] := Or(bitsets[word], Pow2(bit));
    }

    method SetFalse(index: nat)
      requires Valid() && index < length
      modifies bitsets
      ensures Valid() && Contents() == old(Contents())[index := false]
    {
      var word, bit := index / WORD_BITS, index % WORD_BITS;
      ClearBit(bitsets[word], bit);
      bitsets[word] := And(bitsets[word], Not(Pow2(bit)));
    }

    lemma FullWords(words: nat)
      requires Valid() && words <= bitsets.Length
      requires forall j :: 0 <= j < words ==> bitsets[j] == WORD - 1
      ensures forall i :: 0 <= i < length && i < words * WORD_BITS ==> Contents()[i]
    {
      WordIsPow2();
      forall i | 0 <= i < length && i < words * WORD_BITS ensures Contents()[i] {
        OnesHaveNoZero(WORD_BITS, i % WORD_BITS);
      }
    }

    /** The lowest clear bit. */
    method SearchFalse() returns (found: bool, result: nat)
      requires Valid()
      ensures found ==> result < length && !Contents()[result] && forall i :: 0 <= i < result ==> Contents()[i]
      ensures !found ==> forall i :: 0 <= i < length ==> Contents()[i]
    {
      result := 0;
      var word := 0;
      while word < bitsets.Length && bitsets[word] == WORD - 1
        invariant word <= bitsets.Length
        invariant forall j :: 0 <= j < word ==> bitsets[j] == WORD - 1
      {
        word := word + 1;
      }
      FullWords(word);
      if word == bitsets.Length {
        return false, 0;
      }
      var bit := FindFirstZero(bitsets[word]);
      var ndx := word * WORD_BITS + bit;
      forall i | word * WORD_BITS <= i < ndx && i < length ensures Contents()[i] {
      }
      found := ndx < length;
      result := if found then ndx else 0;
    }
  }
}
