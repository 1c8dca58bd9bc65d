/**
 * The bit arithmetic of 32-bit words: the masks of align.h, the bit search of utils.h and the words of a
 * bitmap. Words are natural numbers below WORD; the operators are defined bit by bit.
 */
module Bits {
  import opened Arith

  const WORD_BITS := 32
  const WORD := 0x1_0000_0000

  function Bit(x: nat, k: nat): bool {
    if k == 0 then x % 2 == 1 else Bit(x / 2, k - 1)
  }

  function Digit(b: bool): nat {
    if b then 1 else 0
  }

  function And(x: nat, y: nat): nat {
    if x == 0 || y == 0 then 0 else 2 * And(x / 2, y / 2) + Digit(Bit(x, 0) && Bit(y, 0))
  }

  function Or(x: nat, y: nat): nat
    decreases x + y
  {
    if x == 0 && y == 0 then 0 else 2 * Or(x / 2, y / 2) + Digit(Bit(x, 0) || Bit(y, 0))
  }

  function Xor(x: nat, y: nat): nat
    decreases x + y
  {
    if x == 0 && y == 0 then 0 else 2 * Xor(x / 2, y / 2) + Digit(Bit(x, 0) != Bit(y, 0))
  }

  /** Subtraction and complement of a 32-bit word. */
  function Minus(x: nat, y: nat): nat
    requires x < WORD && y < WORD
  {
    (x - y) % WORD
  }

  function Not(x: nat): nat
    requires x < WORD
  {
    WORD - 1 - x
  }

  lemma {:induction false} BitZero(k: nat)
    ensures !Bit(0, k)
  {
    if k > 0 {
      BitZero(k - 1);
    }
  }

  lemma {:induction false} BitAnd(x: nat, y: nat, k: nat)
    ensures Bit(And(x, y), k) == (Bit(x, k) && Bit(y, k))
  {
    if x == 0 || y == 0 {
      BitZero(k);
    } else if k > 0 {
      BitAnd(x / 2, y / 2, k - 1);
    }
  }

  lemma {:induction false} BitOr(x: nat, y: nat, k: nat)
    ensures Bit(Or(x, y), k) == (Bit(x, k) || Bit(y, k))
  {
    if x == 0 && y == 0 {
      BitZero(k);
    } else if k > 0 {
      BitOr(x / 2, y / 2, k - 1);
    }
  }

  /** The complement within n bits flips each of them. */
  lemma {:induction false} BitNot(x: nat, n: nat, k: nat)
    requires x < Pow2(n) && k < n
    ensures Bit(Pow2(n) - 1 - x, k) == !Bit(x, k)
  {
    if k > 0 {
      BitNot(x / 2, n - 1, k - 1);
      assert (Pow2(n) - 1 - x) / 2 == Pow2(n - 1) - 1 - x / 2;
    }
  }

  lemma {:induction false} BitPow2(n: nat, k: nat)
    ensures Bit(Pow2(n), k) == (n == k)
  {
    if k == 0 {
    } else if n == 0 {
      BitZero(k - 1);
    } else {
      BitPow2(n - 1, k - 1);
    }
  }

  /** Operations keep within the width of their operands. */
  lemma {:induction false} Fits(x: nat, y: nat, n: nat)
    requires x < Pow2(n) && y < Pow2(n)
    ensures And(x, y) < Pow2(n) && Or(x, y) < Pow2(n) && Xor(x, y) < Pow2(n)
  {
    if n > 0 {
      Fits(x / 2, y / 2, n - 1);
    }
  }

  /** Every bit of the word of all ones is set... */
  lemma {:induction false} OnesHaveNoZero(n: nat, k: nat)
    requires k < n
    ensures Bit(Pow2(n) - 1, k)
  {
    if k > 0 {
      OnesHaveNoZero(n - 1, k - 1);
      assert (Pow2(n) - 1) / 2 == Pow2(n - 1) - 1;
    }
  }

  /** ... and every other word of n bits has a lowest clear bit. */
  lemma {:induction false} HasLowestZero(x: nat, n: nat) returns (k: nat)
    requires x < Pow2(n) - 1
    ensures k < n && !Bit(x, k) && forall j :: 0 <= j < k ==> Bit(x, j)
  {
    if Bit(x, 0) {
      assert x == 2 * (x / 2) + 1;
      k := HasLowestZero(x / 2, n - 1);
      forall j | 0 <= j < k + 1 ensures Bit(x, j) {
        if j > 0 {
          assert Bit(x / 2, j - 1);
        }
      }
      k := k + 1;
    } else {
      k := 0;
    }
  }

  lemma TwiceTheMultiple(x: nat, m: nat)
    requires m > 0
    ensures x / (2 * m) * (2 * m) == 2 * (x / 2 / m * m)
  {
    HalveThenDivide(x, m);
    assert x / 2 / m * (2 * m) == 2 * (x / 2 / m * m);
  }

  lemma AndEven(x: nat, half: nat)
    ensures And(x, 2 * half) == 2 * And(x / 2, half)
  {
  }

  /** A mask of the top n - k bits clears the low k bits of x. */
  lemma {:induction false} MaskClearsLowBits(x: nat, n: nat, k: nat)
    requires k <= n && x < Pow2(n) && Pow2(k) <= Pow2(n)
    ensures And(x, Pow2(n) - Pow2(k)) == x / Pow2(k) * Pow2(k)
    decreases n
  {
    if n == 0 {
    } else if k == 0 {
      MaskClearsLowBits(x / 2, n - 1, 0);
      assert (Pow2(n) - 1) / 2 == Pow2(n - 1) - 1;
    } else {
      var half: nat := Pow2(n - 1) - Pow2(k - 1);
      MaskClearsLowBits(x / 2, n - 1, k - 1);
      TwiceTheMultiple(x, Pow2(k - 1));
      AndEven(x, half);
    }
  }

  /** The number of low bits that are ones below the first zero: y ends in a one and then n zeros. */
  ghost predicate LowestOne(y: nat, n: nat) {
    Bit(y, n) && forall j :: 0 <= j < n ==> !Bit(y, j)
  }

  lemma {:induction false} XorSelf(x: nat)
    ensures Xor(x, x) == 0
  {
    if x > 0 {
      XorSelf(x / 2);
    }
  }

  /** x ^ (x - 1) turns the lowest one and the zeros below it into ones, and clears the rest. */
  lemma {:induction false} XorWithPredecessor(x: nat, n: nat)
    requires x > 0 && LowestOne(x, n)
    ensures Xor(x, x - 1) == Pow2(n + 1) - 1
    decreases n
  {
    if n == 0 {
      assert (x - 1) / 2 == x / 2;
      XorSelf(x / 2);
      assert Pow2(1) == 2;
    } else {
      assert !Bit(x, 0);
      assert x == 2 * (x / 2);
      forall j | 0 <= j < n - 1 ensures !Bit(x / 2, j) {
        assert !Bit(x, j + 1);
      }
      XorWithPredecessor(x / 2, n - 1);
      assert (x - 1) / 2 == x / 2 - 1;
      assert Bit(x - 1, 0);
    }
  }

  lemma WordIsPow2()
    ensures Pow2(WORD_BITS) == WORD == 2 * Pow2(WORD_BITS - 1)
  {
    assert Pow2(8) == 256;
    Pow2Double(8);
    Pow2Double(16);
  }

  lemma {:induction false} XorZero(x: nat)
    ensures Xor(0, x) == x
  {
    if x > 0 {
      XorZero(x / 2);
    }
  }

  lemma {:induction false} HasLowestOne(x: nat, n: nat) returns (k: nat)
    requires 0 < x < Pow2(n)
    ensures k < n && LowestOne(x, k)
  {
    if Bit(x, 0) {
      k := 0;
    } else {
      assert x == 2 * (x / 2);
      k := HasLowestOne(x / 2, n - 1);
      forall j | 0 <= j < k + 1 ensures !Bit(x, j) {
        if j > 0 {
          assert !Bit(x / 2, j - 1);
        }
      }
      k := k + 1;
    }
  }

  lemma WordBelow(word: nat)
    requires word < WORD
    ensures Minus(word, 1) == if word == 0 then WORD - 1 else word - 1
  {
  }

  lemma HalfOfOnes(n: nat)
    ensures (Pow2(n + 1) - 1) / 2 == Pow2(n) - 1
  {
  }

  /** What the bit trick leaves of a word: as many ones as there are zeros below its lowest one. */
  lemma LeavesOnes(word: nat) returns (n: nat)
    requires word < WORD
    ensures Xor(word, Minus(word, 1)) / 2 == Pow2(n) - 1
    ensures word == 0 ==> n == 31
    ensures word > 0 ==> n < WORD_BITS && LowestOne(word, n)
  {
    hide Xor, Minus, Pow2, Bit, LowestOne;
    WordIsPow2();
    WordBelow(word);
    if word == 0 {
      n := 31;
      XorZero(WORD - 1);
    } else {
      n := HasLowestOne(word, WORD_BITS);
      XorWithPredecessor(word, n);
    }
    HalfOfOnes(n);
  }

  /** The index of the lowest one of a word, found by counting the ones that the trick leaves. */
  method FindFirstOne(word: nat) returns (ndx: nat)
    requires word < WORD
    ensures word == 0 ==> ndx == 31
    ensures word > 0 ==> ndx < WORD_BITS && LowestOne(word, ndx)
  {
    ghost var n := LeavesOnes(word);
    var x: nat := Xor(word, Minus(word, 1)) / 2;
    ndx := 0;
    while x != 0
      invariant ndx <= n && x == Pow2(n - ndx) - 1
      decreases x
    {
      x := x / 2;
      ndx := ndx + 1;
    }
  }

  /** The index of the lowest clear bit of a word that has one. */
  method FindFirstZero(word: nat) returns (ndx: nat)
    requires word < WORD
    ensures word == WORD - 1 ==> ndx == 31
    ensures word < WORD - 1 ==> ndx < WORD_BITS && !Bit(word, ndx) && forall j :: 0 <= j < ndx ==> Bit(word, j)
  {
    ndx := FindFirstOne(Not(word));
    WordIsPow2();
    if word < WORD - 1 {
      BitNot(word, WORD_BITS, ndx);
      forall j | 0 <= j < ndx ensures Bit(word, j) {
        BitNot(word, WORD_BITS, j);
        assert !Bit(Not(word), j);
      }
    }
  }

  /** align.h: rounding an address up or down with a mask, in 32-bit arithmetic. An alignment of 0 asks for nothing. */
  function AlignRoundUp(from: nat, alignment: nat): nat
    requires from < WORD && alignment < WORD
  {
    if alignment == 0 then from else And((from + (alignment - 1)) % WORD, Minus(0, alignment))
  }

  function AlignRoundDown(from: nat, alignment: nat): nat
    requires from < WORD && alignment < WORD
  {
    if alignment == 0 then from else And(from, Minus(0, alignment))
  }

  lemma WordLess(p: nat)
    requires 0 < p < WORD
    ensures Minus(0, p) == WORD - p
  {
  }

  lemma MaskIsDivision(x: nat, k: nat)
    requires x < WORD && k < WORD_BITS
    ensures Pow2(k) < WORD
    ensures And(x, Minus(0, Pow2(k))) == x / Pow2(k) * Pow2(k)
  {
    hide And, Minus, Pow2;
    WordIsPow2();
    Pow2Monotone(k, WORD_BITS - 1);
    WordLess(Pow2(k));
    MaskClearsLowBits(x, WORD_BITS, k);
  }

  /** For powers of two the masks are divisions, as long as the sum does not wrap. */
  lemma MaskRoundsDown(from: nat, k: nat)
    requires from < WORD && k < WORD_BITS
    ensures Pow2(k) < WORD && AlignRoundDown(from, Pow2(k)) == from / Pow2(k) * Pow2(k)
  {
    MaskIsDivision(from, k);
  }

  lemma MaskRoundsUp(from: nat, k: nat)
    requires k < WORD_BITS && from + Pow2(k) <= WORD
    ensures Pow2(k) < WORD && AlignRoundUp(from, Pow2(k)) == (from + Pow2(k) - 1) / Pow2(k) * Pow2(k)
  {
    hide And, Minus, Pow2;
    var last: nat := from + Pow2(k) - 1;
    MaskIsDivision(last, k);
    DivUnique(last, WORD, 0, last);
  }
}
