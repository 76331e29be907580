/** The DMA control block that moves the waveform to the PWM FIFO, and the
    copy of the waveform into the block's sample buffer. */
module Dma {
  import opened Bits
  import opened PageMap

  /** Bus address of the PWM controller's FIFO register (base 0x7e20c000, FIFO at + 0x18). */
  const PWM_FIFO_BUS_ADDR: uint32 := 0x7e20_c000 + 0x18

  /** dma_cb_t: transfer information, source and destination bus addresses,
      length in bytes, 2D stride, next block (0 ends the chain) and two
      reserved words. */
  datatype ControlBlock = ControlBlock(
    info: uint32, src: uint32, dst: uint32, length: uint32,
    stride: uint32, next: uint32, pad0: uint32, pad1: uint32)

  /** The smaller of two integers. */
  function Min(a: int, b: int): int {
    if a <= b then a else b
  }

  lemma LengthIsWhole(numLEDs: nat)
    ensures ((numLEDs as real * 2.25) + 1.0) * 4.0 == (9 * numLEDs + 4) as real
  {
  }

  /** The transfer length: `((numLEDs * 2.25) + 1) * 4` evaluated in double
      precision (exact, as 2.25 is a binary fraction), converted to the
      unsigned length field, then clamped to the buffer of `numDataWords` words.
      The conversion is defined only when the value fits in 32 bits. The result
      is 9 bytes for every 4 pixels (72 wire bits per pixel) plus one extra
      word, capped at the waveform buffer's size in bytes. */
  function TransferLength(numLEDs: nat, numDataWords: nat): (length: uint32)
    requires 9 * numLEDs + 4 < WORD_RANGE
    requires 4 * numDataWords < WORD_RANGE
    ensures length == Min(9 * numLEDs + 4, 4 * numDataWords)
    ensures length == 4 * numDataWords <==> 9 * numLEDs + 4 >= 4 * numDataWords
  {
    var exact := ((numLEDs as real * 2.25) + 1.0) * 4.0;
    LengthIsWhole(numLEDs);
    var length := exact.Floor;
    if length > numDataWords * 4 then numDataWords * 4 else length
  }

  /** The control-block fill of the buffer setup: the sample buffer at byte
      offset `sampleOffset` of the locked buffer is the source (translated to
      its physical address), the PWM FIFO the destination. */
  function BuildControlBlock(pm: PageMap, info: uint32, sampleOffset: nat, numLEDs: nat, numDataWords: nat)
    : (cb: ControlBlock)
    requires sampleOffset < |pm.entries| * PAGE_SIZE
    requires 9 * numLEDs + 4 < WORD_RANGE
    requires 4 * numDataWords < WORD_RANGE
    ensures cb.info == info && cb.dst == PWM_FIFO_BUS_ADDR
    ensures cb.stride == 0 && cb.next == 0 && cb.pad0 == 0 && cb.pad1 == 0
    ensures cb.length == Min(9 * numLEDs + 4, 4 * numDataWords)
    ensures Aligned(pm) && Distinct(pm) && Fits(pm) ==>
      PhysToVirt(pm, cb.src) == Ok(pm.virtbase + sampleOffset)
  {
    var src := VirtToPhys(pm, pm.virtbase + sampleOffset);
    SourceRoundTrip(pm, sampleOffset);
    ControlBlock(info, src, PWM_FIFO_BUS_ADDR, TransferLength(numLEDs, numDataWords), 0, 0, 0, 0)
  }

  lemma SourceRoundTrip(pm: PageMap, sampleOffset: nat)
    requires sampleOffset < |pm.entries| * PAGE_SIZE
    ensures Aligned(pm) && Distinct(pm) && Fits(pm) ==>
      PhysToVirt(pm, VirtToPhys(pm, pm.virtbase + sampleOffset)) == Ok(pm.virtbase + sampleOffset)
  {
    if Aligned(pm) && Distinct(pm) && Fits(pm) {
      VirtPhysRoundTrip(pm, pm.virtbase + sampleOffset);
    }
  }

  /** The copy loop of show(): the first `length / 4` words of the waveform go
      to the sample buffer, the rest of the sample buffer keeps its contents. */
  method CopySample(length: uint32, waveform: seq<bv32>, sample: seq<bv32>) returns (sample': seq<bv32>)
    requires |sample| == |waveform|
    requires length / 4 <= |waveform|
    ensures |sample'| == |sample|
    ensures sample'[..length / 4] == waveform[..length / 4]
    ensures sample'[length / 4..] == sample[length / 4..]
  {
    sample' := sample;
    var i := 0;
    while i < length / 4
      invariant 0 <= i <= length / 4 && |sample'| == |sample|
      invariant sample'[..i] == waveform[..i]
      invariant sample'[i..] == sample[i..]
    {
      sample' := sample'[i := waveform[i]];
      i := i + 1;
    }
  }

  /** Without the cap, the copied words hold every wire bit of the pixels and
      at least 8 more: one word more than the pixels need when the pixel count
      is a multiple of 4, and a partly used last word otherwise. */
  lemma CopyCoversPixels(numLEDs: nat, numDataWords: nat)
    requires 9 * numLEDs + 4 < WORD_RANGE && 4 * numDataWords < WORD_RANGE
    requires 9 * numLEDs + 4 <= 4 * numDataWords
    ensures 32 * (TransferLength(numLEDs, numDataWords) / 4) >= 72 * numLEDs + 8
  {
    var n := numLEDs;
    var w := (9 * n + 4) / 4;
    assert 4 * w + 3 >= 9 * n + 4;
  }

  /** The DMA engine sends `TransferLength` bytes, but the copy moves only the
      whole words among them: when `n` is not a multiple of 4 the transfer ends
      with `n % 4` bytes of sample word `length / 4`, a word the copy never
      writes (CopySample leaves it as it was). */
  lemma TransferOutrunsCopy(numLEDs: nat, numDataWords: nat)
    requires 9 * numLEDs + 4 < WORD_RANGE && 4 * numDataWords < WORD_RANGE
    requires 9 * numLEDs + 4 <= 4 * numDataWords
    ensures var length := TransferLength(numLEDs, numDataWords);
      length - 4 * (length / 4) == numLEDs % 4
    ensures var length := TransferLength(numLEDs, numDataWords);
      numLEDs % 4 != 0 <==> (length / 4 < numDataWords && 4 * (length / 4) < length)
  {
    var n := numLEDs;
    var k, r := n / 4, n % 4;
    assert n == 4 * k + r;
    assert 9 * n + 4 == 4 * (9 * k + 2 * r + 1) + r;
  }

  /** With any cap, when the waveform buffer can hold the pixels' wire bits
      the copy carries all of them. */
  lemma CopyCoversEncodedBits(numLEDs: nat, numDataWords: nat)
    requires 9 * numLEDs + 4 < WORD_RANGE && 4 * numDataWords < WORD_RANGE
    requires 72 * numLEDs <= 32 * numDataWords
    ensures 72 * numLEDs <= 32 * (TransferLength(numLEDs, numDataWords) / 4)
    ensures TransferLength(numLEDs, numDataWords) / 4 <= numDataWords
  {
    if 9 * numLEDs + 4 <= 4 * numDataWords {
      CopyCoversPixels(numLEDs, numDataWords);
    }
  }
}
