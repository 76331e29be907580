/** show(): encode the pixel buffer into the waveform buffer, then copy the
    part the control block transfers into the DMA sample buffer. */
module Driver {
  import opened Pixels
  import opened Waveform
  import opened Encoder
  import opened PageMap
  import opened Dma

  /** A wire position below `limit` reads the same in the two buffers when
      they agree on the words that hold it. */
  lemma SameWords(a: seq<bv32>, b: seq<bv32>, limit: nat, q: nat)
    requires |a| == |b| && limit <= |a|
    requires a[..limit] == b[..limit]
    requires q < 32 * limit
    ensures WireBit(a, q) == WireBit(b, q)
  {
    assert a[q / 32] == a[..limit][q / 32];
  }

  /** show() without the hardware start and the wait: the encoder, then the
      copy of `cb.length / 4` words. The sample buffer then carries every wire
      bit of the scaled pixels. */
  method Show(leds: seq<Color>, numLEDs: nat, brightness: real, waveform: seq<bv32>,
              sample: seq<bv32>, cb: ControlBlock)
    returns (scaled: seq<Color>, waveform': seq<bv32>, sample': seq<bv32>)
    requires numLEDs <= |leds|
    requires 0.0 <= brightness <= 1.0
    requires 72 * numLEDs <= 32 * |waveform| && |sample| == |waveform|
    requires 9 * numLEDs + 4 < WORD_RANGE && 4 * |waveform| < WORD_RANGE
    requires cb.length == TransferLength(numLEDs, |waveform|)
    ensures |scaled| == |leds|
    ensures forall i :: 0 <= i < numLEDs ==> scaled[i] == ScaleColor(leds[i], brightness)
    ensures forall i :: numLEDs <= i < |leds| ==> scaled[i] == leds[i]
    ensures |waveform'| == |waveform| && |sample'| == |sample|
    ensures forall q :: 0 <= q < 72 * numLEDs ==> WireBit(sample', q) == Encode(scaled[..numLEDs])[q]
    ensures forall q :: 72 * numLEDs <= q < 32 * |waveform| ==> WireBit(waveform', q) == WireBit(waveform, q)
    ensures sample'[..cb.length / 4] == waveform'[..cb.length / 4]
    ensures sample'[cb.length / 4..] == sample[cb.length / 4..]
  {
    scaled, waveform' := EncodeFrame(leds, numLEDs, brightness, waveform);
    CopyCoversEncodedBits(numLEDs, |waveform|);
    sample' := CopySample(cb.length, waveform', sample);
    forall q | 0 <= q < 72 * numLEDs
      ensures WireBit(sample', q) == Encode(scaled[..numLEDs])[q]
    {
      SameWords(sample', waveform', cb.length / 4, q);
    }
  }
}
