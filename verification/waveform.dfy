/** The PWM waveform buffer: a fixed number of 32-bit words that hold the
    serial wire pattern, packed most significant bit first. */
module Waveform {
  import opened Bits

  /** Bit of word `p / 32` that holds wire position `p` under the MSB-first
      packing: position 0 of a word is its bit 31. */
  function PackedBit(p: nat): bv5 {
    (31 - p % 32) as bv5
  }

  /** The wire bit at absolute position `p`, read with the packing convention. */
  predicate WireBit(w: seq<bv32>, p: nat)
    requires p < 32 * |w|
  {
    Bit(w[p / 32], PackedBit(p))
  }

  /** Distinct positions in the same word occupy distinct bits. */
  lemma PackedBitInjective(p: nat, q: nat)
    requires p / 32 == q / 32 && p != q
    ensures PackedBit(p) != PackedBit(q)
  {
    IndexRoundTrip(31 - p % 32);
    IndexRoundTrip(31 - q % 32);
  }

  /** The waveforms `w` and `r` agree at every position except `p`, where `r` holds `b`. */
  ghost predicate OnlyPositionChanged(w: seq<bv32>, r: seq<bv32>, p: nat, b: bool)
    requires |r| == |w|
  {
    forall q :: 0 <= q < 32 * |w| ==> WireBit(r, q) == if q == p then b else WireBit(w, q)
  }

  /** setPWMBit: writes wire bit `bit` at position `bitPos`, at bit `31 - bitPos % 32`
      of word `bitPos / 32`. A `bit` other than 0 or 1 matches no case of the switch. */
  function SetPWMBit(w: seq<bv32>, bitPos: nat, bit: bv8): (r: seq<bv32>)
    requires bitPos < 32 * |w|
    ensures |r| == |w|
    ensures forall k :: 0 <= k < |w| && k != bitPos / 32 ==> r[k] == w[k]
    ensures bit == 0 || bit == 1 ==> OnlyPositionChanged(w, r, bitPos, bit == 1)
    ensures bit != 0 && bit != 1 ==> r == w
  {
    var wordOffset := bitPos / 32;
    var bitIdx := bitPos - wordOffset * 32;
    var shift := (31 - bitIdx) as bv5;
    PackedBitOfPosition(bitPos);
    if bit == 1 then
      var r := w[wordOffset := SetWordBit(w[wordOffset], shift)];
      WordWritten(w, bitPos, true, r);
      r
    else if bit == 0 then
      var r := w[wordOffset := ClearWordBit(w[wordOffset], shift)];
      WordWritten(w, bitPos, false, r);
      r
    else
      w
  }

  lemma PackedBitOfPosition(p: nat)
    ensures (31 - (p - (p / 32) * 32)) as bv5 == PackedBit(p)
  {
  }

  /** Setting or clearing the packed bit of `p` in its word changes wire position `p` only. */
  lemma WordWritten(w: seq<bv32>, p: nat, b: bool, r: seq<bv32>)
    requires p < 32 * |w|
    requires r == w[p / 32 := if b then SetWordBit(w[p / 32], PackedBit(p)) else ClearWordBit(w[p / 32], PackedBit(p))]
    ensures OnlyPositionChanged(w, r, p, b)
  {
    forall q | 0 <= q < 32 * |w|
      ensures WireBit(r, q) == if q == p then b else WireBit(w, q)
    {
      if q / 32 == p / 32 && q != p {
        PackedBitInjective(q, p);
      }
    }
  }

  /** The position whose packed bit is bit `p % 32` of word `p / 32`: the
      mirror of `p` inside its word. */
  function Mirror(p: nat): (m: nat)
    ensures m / 32 == p / 32 && m % 32 == 31 - p % 32
  {
    32 * (p / 32) + 31 - p % 32
  }

  /** getPWMBit: reads bit `bitPos % 32` of word `bitPos / 32`, counted from the
      least significant end, which is the wire bit at the mirrored position. */
  function GetPWMBit(w: seq<bv32>, bitPos: nat): (b: bool)
    requires bitPos < 32 * |w|
    ensures b == WireBit(w, Mirror(bitPos))
  {
    var wordOffset := bitPos / 32;
    var bitIdx := bitPos - wordOffset * 32;
    assert PackedBit(Mirror(bitPos)) == bitIdx as bv5;
    Bit(w[wordOffset], bitIdx as bv5)
  }

  /** setPWMBit and getPWMBit do not agree: after writing `bit` at `p`, reading
      `p` back reports what it reported before, and the written value shows up
      when reading the mirrored position. */
  lemma GetAfterSet(w: seq<bv32>, p: nat, bit: bv8)
    requires p < 32 * |w|
    requires bit == 0 || bit == 1
    ensures GetPWMBit(SetPWMBit(w, p, bit), p) == GetPWMBit(w, p)
    ensures GetPWMBit(SetPWMBit(w, p, bit), Mirror(p)) == (bit == 1)
  {
    var r := SetPWMBit(w, p, bit);
    assert Mirror(p) != p;
    assert Mirror(Mirror(p)) == p;
  }

  /** A concrete instance: set wire bit 0 of an all-zero word, and getPWMBit(0) still reads 0. */
  lemma SetBitZeroReadsZero()
    ensures SetPWMBit([0], 0, 1) == [0x8000_0000]
    ensures !GetPWMBit(SetPWMBit([0], 0, 1), 0)
  {
    GetAfterSet([0], 0, 1);
    assert !Bit(0, 31);
  }
}
