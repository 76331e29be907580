/** Machine-word vocabulary shared by the driver model: fixed-width integer
    types, single-bit access on 32-bit words and the bit-reversal helper. */
module Bits {

  /** `unsigned int` values that the model keeps as mathematical integers. */
  type uint32 = x: int | 0 <= x < 0x1_0000_0000

  /** Bit `i` of `w`, counted from the least significant bit. */
  predicate Bit(w: bv32, i: bv5) {
    (w >> i) & 1 == 1
  }

  /** The four bits `s .. s+3` of `w`, used to glue bitwise facts back into word equality. */
  function Nibble(w: bv32, s: bv5): bv32 {
    (w >> s) & 0xF
  }

  lemma NibbleFromBits(x: bv32, y: bv32, s: bv5)
    requires s <= 28
    requires forall i: bv5 :: Bit(x, i) == Bit(y, i)
    ensures Nibble(x, s) == Nibble(y, s)
  {
    assert Bit(x, s) == Bit(y, s) && Bit(x, s + 1) == Bit(y, s + 1);
    assert Bit(x, s + 2) == Bit(y, s + 2) && Bit(x, s + 3) == Bit(y, s + 3);
  }

  lemma WordFromNibbles(x: bv32, y: bv32)
    requires Nibble(x, 0) == Nibble(y, 0) && Nibble(x, 4) == Nibble(y, 4)
    requires Nibble(x, 8) == Nibble(y, 8) && Nibble(x, 12) == Nibble(y, 12)
    requires Nibble(x, 16) == Nibble(y, 16) && Nibble(x, 20) == Nibble(y, 20)
    requires Nibble(x, 24) == Nibble(y, 24) && Nibble(x, 28) == Nibble(y, 28)
    ensures x == y
  {
  }

  /** Two words that agree on every bit are the same word. */
  lemma BitwiseEqual(x: bv32, y: bv32)
    requires forall i: bv5 :: Bit(x, i) == Bit(y, i)
    ensures x == y
  {
    NibbleFromBits(x, y, 0);
    NibbleFromBits(x, y, 4);
    NibbleFromBits(x, y, 8);
    NibbleFromBits(x, y, 12);
    NibbleFromBits(x, y, 16);
    NibbleFromBits(x, y, 20);
    NibbleFromBits(x, y, 24);
    NibbleFromBits(x, y, 28);
    WordFromNibbles(x, y);
  }

  /** `r` is the mirror image of `w`: bit `i` of `r` is bit `31 - i` of `w`. */
  ghost predicate IsReversal(w: bv32, r: bv32) {
    forall i: bv5 :: Bit(r, i) == Bit(w, 31 - i)
  }

  lemma ShiftLeftBit(x: bv32, k: bv5)
    ensures Bit(x << 1, k) == (k != 0 && Bit(x, k - 1))
  {
  }

  lemma OrLowBit(x: bv32, b: bv32, k: bv5)
    requires b == 0 || b == 1
    ensures Bit(x | b, k) == (Bit(x, k) || (k == 0 && b == 1))
  {
    if b == 0 {
      assert x | b == x;
    } else if k == 0 {
      assert (x | b) >> k == x | 1;
      assert (x | 1) & 1 == 1;
    } else {
      assert (x | b) >> k == (x >> k) | (1 >> k);
      assert (1 as bv32) >> k == 0;
    }
  }

  /** After `j` shifting rounds of reverseWord, bits `1 .. j` of the output hold
      input bits `j - 1 .. 0` and every other bit is clear. */
  ghost predicate Collected(word: bv32, output: bv32, j: bv5) {
    forall k: bv5 :: Bit(output, k) == (0 < k <= j && Bit(word, j - k))
  }

  /** One shifting round of reverseWord, seen from output bit `k`. */
  lemma ReverseRoundBit(word: bv32, output: bv32, j: bv5, bit: bv32, merged: bv32, next: bv32, k: bv5)
    requires j < 31
    requires bit == if Bit(word, j) then 1 else 0
    requires !Bit(output, 0)
    requires k != 0 ==> Bit(output, k - 1) == (0 < k - 1 <= j && Bit(word, j - (k - 1)))
    requires merged == output | bit && next == merged << 1
    ensures Bit(next, k) == (0 < k <= j + 1 && Bit(word, j + 1 - k))
  {
    ShiftLeftBit(merged, k);
    if k != 0 {
      OrLowBit(output, bit, k - 1);
    }
  }

  /** One shifting round of reverseWord: the bits collected so far move up by one
      and input bit `j` lands in bit 1. */
  lemma ReverseRound(word: bv32, output: bv32, j: bv5, bit: bv32, merged: bv32, next: bv32)
    requires j < 31
    requires bit == if Bit(word, j) then 1 else 0
    requires Collected(word, output, j)
    requires merged == output | bit && next == merged << 1
    ensures Collected(word, next, j + 1)
  {
    forall k: bv5 ensures Bit(next, k) == (0 < k <= j + 1 && Bit(word, j + 1 - k)) {
      assert !Bit(output, 0);
      if k != 0 {
        assert Bit(output, k - 1) == (0 < k - 1 <= j && Bit(word, j - (k - 1)));
      }
      ReverseRoundBit(word, output, j, bit, merged, next, k);
    }
  }

  /** The last round of reverseWord ORs input bit 31 into bit 0 without shifting. */
  lemma ReverseLastRound(word: bv32, output: bv32, bit: bv32, next: bv32)
    requires bit == if Bit(word, 31) then 1 else 0
    requires Collected(word, output, 31)
    requires next == output | bit
    ensures IsReversal(word, next)
  {
    forall k: bv5 ensures Bit(next, k) == Bit(word, 31 - k) {
      OrLowBit(output, bit, k);
    }
  }

  /** The C test `word & (1 << i) ? 1 : 0`: one when bit `i` of `word` is set. */
  function TestBit(word: bv32, i: bv6): (bit: bv32)
    requires i < 32
    ensures bit == if Bit(word, i as bv5) then 1 else 0
  {
    MaskedBit(word, i);
    if word & (1 << i) != 0 then 1 else 0
  }

  lemma MaskedBit(word: bv32, i: bv6)
    requires i < 32
    ensures (word & (1 << i) != 0) == Bit(word, i as bv5)
  {
  }

  /** Small indices survive the trip to `bv5` and back. */
  lemma IndexRoundTrip(a: nat)
    requires a < 32
    ensures (a as bv5) as int == a
  {
  }

  /** `x | (1 << i)` sets bit `i` and no other. */
  function SetWordBit(x: bv32, i: bv5): (r: bv32)
    ensures forall k: bv5 :: Bit(r, k) == (k == i || Bit(x, k))
  {
    var r := x | (1 << i);
    assert forall k: bv5 :: Bit(r, k) == (k == i || Bit(x, k)) by {
      forall k: bv5 ensures Bit(r, k) == (k == i || Bit(x, k)) {
        SetBitAt(x, i, k);
      }
    }
    r
  }

  /** `x & ~(1 << i)` clears bit `i` and no other. */
  function ClearWordBit(x: bv32, i: bv5): (r: bv32)
    ensures forall k: bv5 :: Bit(r, k) == (k != i && Bit(x, k))
  {
    var r := x & !(1 << i);
    assert forall k: bv5 :: Bit(r, k) == (k != i && Bit(x, k)) by {
      forall k: bv5 ensures Bit(r, k) == (k != i && Bit(x, k)) {
        ClearBitAt(x, i, k);
      }
    }
    r
  }

  lemma SetBitAt(x: bv32, i: bv5, k: bv5)
    ensures Bit(x | (1 << i), k) == (k == i || Bit(x, k))
  {
  }

  lemma ClearBitAt(x: bv32, i: bv5, k: bv5)
    ensures Bit(x & !(1 << i), k) == (k != i && Bit(x, k))
  {
  }

  lemma NothingCollected(word: bv32)
    ensures Collected(word, 0, 0)
  {
    forall k: bv5 ensures !Bit(0, k) {
    }
  }

  /** Loop state of reverseWord after `i` rounds. */
  ghost predicate ReverseProgress(word: bv32, output: bv32, i: bv6) {
    if i < 32 then Collected(word, output, i as bv5) else IsReversal(word, output)
  }

  /** reverseWord: walks the input from bit 0 upwards, ORing each bit into
      the low end of the output and shifting left after every bit but the last. */
  method ReverseWord(word: bv32) returns (output: bv32)
    ensures IsReversal(word, output)
  {
    output := 0;
    NothingCollected(word);
    var i: bv6 := 0;
    while i < 32
      invariant i <= 32
      invariant ReverseProgress(word, output, i)
    {
      var bit := TestBit(word, i);
      ghost var before := output;
      output := output | bit;
      ghost var merged := output;
      if i < 31 {
        output := output << 1;
        ReverseRound(word, before, i as bv5, bit, merged, output);
      } else {
        ReverseLastRound(word, before, bit, output);
      }
      i := i + 1;
    }
  }

  /** Reversal is symmetric: if `r` mirrors `w` then `w` mirrors `r`. */
  lemma ReversalSymmetric(w: bv32, r: bv32)
    requires IsReversal(w, r)
    ensures IsReversal(r, w)
  {
    forall i: bv5 ensures Bit(w, i) == Bit(r, 31 - i) {
      assert Bit(r, 31 - i) == Bit(w, 31 - (31 - i));
    }
  }

  /** A word has exactly one mirror image. */
  lemma ReversalUnique(w: bv32, r1: bv32, r2: bv32)
    requires IsReversal(w, r1) && IsReversal(w, r2)
    ensures r1 == r2
  {
    BitwiseEqual(r1, r2);
  }

  /** reverseWord is an involution: reversing a reversed word gives the original back. */
  lemma ReverseInvolution(w: bv32, r: bv32, rr: bv32)
    requires IsReversal(w, r) && IsReversal(r, rr)
    ensures rr == w
  {
    ReversalSymmetric(w, r);
    ReversalUnique(r, rr, w);
  }
}
