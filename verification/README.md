# WS2812 driver for the Raspberry Pi — a Dafny model of its data path

`ws2812-RPi.c` drives a chain of WS2812 LEDs from a Raspberry Pi. It keeps
an 8-bit-per-channel pixel buffer and turns it into a serial waveform. Each
pixel becomes 24 data bits in green, red, blue order. Each data bit becomes
three wire bits: `1,1,0` for a one and `1,0,0` for a zero. The wire bits are
packed most significant bit first into 32-bit words. A DMA control block then
streams those words to the PWM FIFO. The control block's source address is
found through a table that maps the locked buffer's virtual pages to physical
pages.

This project models the sequential core of that data path and proves its
properties. The modules are:

- `Bits` (`bits.dfy`): bit access on 32-bit words, single-bit set and clear,
  and `reverseWord`.
- `Waveform` (`waveform.dfy`): the waveform buffer. It covers the packing
  convention, `setPWMBit` and `getPWMBit`.
- `Pixels` (`pixels.dfy`): the LED buffer and the public API. It covers
  `Color`, `clearLEDBuffer`, the pixel setters and getter, `setBrightness`,
  brightness scaling and `Wheel`. `RGB2Color` and its alias `Color` are
  `Pixels.RGB2Color`. `getPixelColor` is `Pixels.GetPixelColor`; what it
  reads after a write is stated in `Pixels.SetThenGet`.
- `Encoder` (`encoder.dfy`): the encode loop of `show()`. The reference
  encoding is a pure function from pixels to wire bits. An imperative loop
  drives `setPWMBit`, and it is proved to produce that encoding.
- `PageMap` (`pagemap.dfy`): the page table. It is built from the kernel's
  pagemap entries. It covers the present test, the entry construction,
  `mem_virt_to_phys` and `mem_phys_to_virt`.
- `Dma` (`dma.dfy`): the control-block fill, its transfer length, and the
  copy of the waveform into the sample buffer.
- `Driver` (`driver.dfy`): `show()` without the hardware start. It encodes,
  then copies. The sample buffer is proved to carry every wire bit of the
  scaled pixels.

Representation:

- Words are `bv32`.
- Wire positions are `nat`, and wire position `p` is bit `31 - p % 32` of word `p / 32`.
- Colour channels are `bv8`, so arithmetic wraps the way the C `unsigned char` conversions do.
- Physical addresses and page-table values are integers kept in the `unsigned int` range.
- Virtual addresses (the locked buffer's base and the addresses inside it) are unbounded `nat`s, not pointers.
  - The `unsigned int` offset of `mem_virt_to_phys` and the sum returned by `mem_phys_to_virt` are reduced `% 2^32`, as the C arithmetic does.
  - The round trips assume the mapped region lies below 2^32 (`PageMap.Fits`).
- Pagemap entries are integers below `2^64`.
- `fatal()` becomes a `Fatal(fault)` result.
- Header constants that do not appear in the file are handled as follows:
  - `PAGE_SIZE` is 4096. Shifts by `PAGE_SHIFT` (12) are written as products and quotients by `PAGE_SIZE`.
  - `NUM_PIXELS` and `NUM_DATA_WORDS` are the lengths of the buffers passed in.
  - `DMA_TI_CONFIGWORD` is a parameter.
  - The byte offset of the sample buffer inside the locked buffer is a parameter.

Three behaviours of the code are easy to misread. The model follows the code
in each:

- **Transfer length.** The DMA transfer length is computed as
  `((numLEDs * 2.25) + 1) * 4` (ws2812-RPi.c:671).
  - In double precision this is exactly `9n + 4` bytes, that is `72n + 32`
    bits. This is what the comment above it (ws2812-RPi.c:668-670) describes:
    2.25 words per pixel, one extra word, times 4 bytes.
  - The copy in `show()` (ws2812-RPi.c:875-877) moves `(9n + 4) / 4` whole
    words. When `n` is not a multiple of 4, the transfer therefore ends with
    `n % 4` bytes of a sample word that `show()` never writes
    (`Dma.TransferOutrunsCopy`).
  - The copied words still carry every wire bit of the pixels and at least
    8 more (`Dma.CopyCoversPixels`).
- **Present test.** The "page present" test parses as
  `(pfn >> 55) & (0xfbf != 0x10c)`.
  - It therefore rejects exactly the entries with bit 55 set, and never looks
    at the present flag (bit 63).
  - This is modelled as written (`PageMap.PresentTestFires`,
    `PageMap.PresentFlagIgnored`).
- **Bit order of `getPWMBit`.** `getPWMBit` reads bit `p % 32`, while
  `setPWMBit` writes bit `31 - p % 32`. Reading back a written position
  shows the mirrored position (`Waveform.GetAfterSet`).

## Model

| member | source | states |
|---|---|---|
| Bits.TestBit | ws2812-RPi.c:121-122 | the masked test of bit `i` gives 1 exactly when bit `i` of the word is set, 0 otherwise |
| Bits.SetWordBit | ws2812-RPi.c:343 | ORing in `1 << i` sets bit `i` and leaves every other bit as it was |
| Bits.ClearWordBit | ws2812-RPi.c:347 | ANDing with `~(1 << i)` clears bit `i` and leaves every other bit as it was |
| Bits.ReverseWord | ws2812-RPi.c:117-129 | bit `i` of the result is bit `31 - i` of the input, for all 32 bits |
| Bits.ReversalSymmetric | ws2812-RPi.c:117-129 | if `r` is the reversal of `w` then `w` is the reversal of `r` |
| Bits.ReversalUnique | ws2812-RPi.c:117-129 | a word has only one reversal |
| Bits.ReverseInvolution | ws2812-RPi.c:117-129 | reversing twice gives the original word back |
| Waveform.SetPWMBit | ws2812-RPi.c:333-351 | with bit 0 or 1, wire position `p` (bit `31 - p%32` of word `p/32`) takes the value and every other wire position and word is unchanged; any other value changes nothing |
| Waveform.GetPWMBit | ws2812-RPi.c:354-365 | reads bit `p % 32` of word `p / 32`, which is the wire bit at the mirrored position `32(p/32) + 31 - p%32` |
| Waveform.GetAfterSet | ws2812-RPi.c:329-365 | after `setPWMBit(p, b)`, `getPWMBit(p)` reports what it reported before, and `b` is seen at the mirrored position |
| Waveform.SetBitZeroReadsZero | ws2812-RPi.c:329-351 | setting wire bit 0 of a zero word gives `0x80000000`, and `getPWMBit(0)` still reads 0 |
| Pixels.RGB2Color | ws2812-RPi.c:266-275 | the colour built from `r`, `g`, `b` has exactly those channels |
| Pixels.GetPixelColor | ws2812-RPi.c:307-317 | storing the colour read from `pixel` back there, whole or channel by channel, leaves the buffer as it was |
| Pixels.ClearLEDBuffer | ws2812-RPi.c:256-263 | the buffer keeps its length and every pixel is black |
| Pixels.SetPixelColor | ws2812-RPi.c:278-290 | for an in-range pixel it returns true, stores the three channels there and leaves every other pixel alone |
| Pixels.SetPixelColorT | ws2812-RPi.c:293-304 | for an in-range pixel it returns true, stores the colour there and leaves every other pixel alone |
| Pixels.SetThenGet | ws2812-RPi.c:278-317 | `getPixelColor` after `setPixelColor` gives the written colour at that pixel and the old colour elsewhere |
| Pixels.SetBrightness | ws2812-RPi.c:237-248 | accepts exactly the values in [0, 1] and stores them; a rejected value leaves the brightness unchanged |
| Pixels.BrightnessStaysInRange | ws2812-RPi.c:237-248 | starting from a brightness in [0, 1], the brightness stays in [0, 1] whatever is requested |
| Pixels.ScaleValue | ws2812-RPi.c:841-843 | the result `s` is the product truncated towards zero, `s <= c * b < s + 1`; it lies between 0 and the channel, is the channel at 1 and 0 at 0 |
| Pixels.ScaleValueIsTruncation | ws2812-RPi.c:841-843 | any integer within one below `c * b` is the scaled value, so the truncation bound determines it |
| Pixels.ScaleChannel | ws2812-RPi.c:841-843 | the scaled 8-bit channel is `c * b` truncated towards zero; it is never brighter, is unchanged at full brightness and is off at zero |
| Pixels.ScaleColor | ws2812-RPi.c:841-843 | each channel of the scaled pixel is its own channel times the brightness, truncated; the pixel is unchanged at brightness 1 and black at 0 |
| Pixels.ScaleMonotone | ws2812-RPi.c:841-843 | a higher brightness never gives a darker channel |
| Pixels.Wheel | ws2812-RPi.c:922-932 | the three channels always sum to 255; in each third of the range a given channel is off and another ramps by 3 per step |
| Encoder.ColorBits | ws2812-RPi.c:844 | green sits in bits 16-23, red in bits 8-15, blue in bits 0-7, and nothing is above bit 23 |
| Encoder.WireChannelOrder | ws2812-RPi.c:844 | colour (10, 20, 30) goes out as `0x140A1E`, not in the API's r, g, b order |
| Encoder.Symbol | ws2812-RPi.c:852-863 | a data bit is sent as high, the bit itself, then low |
| Encoder.SymbolsIndex | ws2812-RPi.c:849-865 | wire bit `q` of the symbol stream is bit `q % 3` of the symbol for data bit `q / 3` |
| Encoder.DataStreamIndex | ws2812-RPi.c:838-850 | data bit `d` of the stream is bit `d % 24` of pixel `d / 24` |
| Encoder.EncodeIndex | ws2812-RPi.c:838-866 | wire bit `q` of the encoding belongs to pixel `q / 72`, data bit `(q % 72) / 3`, symbol position `q % 3` |
| Encoder.EncodeLayout | ws2812-RPi.c:838-866 | data bit `j` of pixel `i` is sent at wire positions `72i + 3j .. 72i + 3j + 2` as `1,1,0` when set and `1,0,0` when clear |
| Encoder.SymbolsRoundTrip | ws2812-RPi.c:852-863 | sampling the middle bit of every symbol gives back the data bits |
| Encoder.ColorFromDataBits | ws2812-RPi.c:844-850 | two colours whose 24 data bits agree are equal, so the colour word loses no channel bit |
| Encoder.DataStreamInjective | ws2812-RPi.c:838-850 | runs of pixels of the same length with the same data bits are equal |
| Encoder.EncodeInjective | ws2812-RPi.c:838-866 | pixels with the same wire bits are the same pixels: the encoding can be decoded |
| Encoder.BlackPixelIsAllZeroSymbols | ws2812-RPi.c:852-863 | a black pixel is sent as 24 zero symbols `1,0,0` |
| Encoder.WhitePixelIsAllOneSymbols | ws2812-RPi.c:852-863 | a white pixel is sent as 24 one symbols `1,1,0` |
| Encoder.WriteSymbol | ws2812-RPi.c:852-863 | the three `setPWMBit` calls put the bit's symbol at the next three wire positions and change no other position |
| Encoder.EmitSymbol | ws2812-RPi.c:849-865 | writing the symbol of the next data bit extends the correctly encoded prefix by three positions and leaves the rest as it was |
| Encoder.EmittedFrame | ws2812-RPi.c:841-843 | scaling pixel `i` in place does not change the encoding of the pixels before it |
| Encoder.EmitPixel | ws2812-RPi.c:849-865 | the inner loop over bits 23 down to 0 extends the encoded prefix by the pixel's 72 wire bits and changes no later position |
| Encoder.EncodeFrame | ws2812-RPi.c:838-866 | the first `numLEDs` pixels are scaled in place and the rest kept; the waveform's first `72 numLEDs` wire bits are the encoding of the scaled pixels; every later position is unchanged |
| PageMap.PresentTestFires | ws2812-RPi.c:643 | the test as the compiler parses it fires exactly when bit 55 of the entry is set |
| PageMap.PresentFlagIgnored | ws2812-RPi.c:643 | an all-zero (not present) entry passes the test, and a present entry with bit 55 set is rejected |
| PageMap.PhysAddrOf | ws2812-RPi.c:647 | the page address built from an entry is page aligned, has the bus-alias bit 30 set and keeps the low 18 bits of the frame number |
| PageMap.TruncationCollides | ws2812-RPi.c:647 | any two frame numbers that are equal modulo 2^20 give the same physical page |
| PageMap.AliasHidesFrameBit18 | ws2812-RPi.c:647 | frames 0 and `0x40000` give the same page, because ORing in the bus alias hides bit 18 of the frame |
| PageMap.BuildPageMap | ws2812-RPi.c:602-650 | fails on a misaligned base, then on the first short read or first entry failing the present test; otherwise page `i` maps `virtbase + i*PAGE_SIZE` to the address built from entry `i` |
| PageMap.BuiltTableDistinct | ws2812-RPi.c:631-650 | frames whose low 18 bits differ give a table with pairwise distinct physical pages |
| PageMap.VirtToPhys | ws2812-RPi.c:186-189 | in an aligned table the result has the virtual address's in-page offset and lies in the page recorded for the page index of the offset taken modulo 2^32 |
| PageMap.FindPage | ws2812-RPi.c:197-201 | returns the first index from `from` on whose physical page matches, or reports that none matches |
| PageMap.PhysToVirt | ws2812-RPi.c:192-205 | fatal exactly when no page matches the address's page; otherwise a first matching page exists and the result is the virtual address at the same offset in it, in 32-bit arithmetic |
| PageMap.VirtPhysRoundTrip | ws2812-RPi.c:186-205 | with aligned, distinct pages in 32-bit space, physical-to-virtual undoes virtual-to-physical |
| PageMap.PhysVirtRoundTrip | ws2812-RPi.c:186-205 | a successful physical-to-virtual translation lands in the region, and virtual-to-physical gives the address back |
| Dma.TransferLength | ws2812-RPi.c:671-674 | the double-precision length rule equals `min(9n + 4, 4 NUM_DATA_WORDS)` bytes; the cap applies exactly when `9n + 4` reaches the buffer size |
| Dma.BuildControlBlock | ws2812-RPi.c:654-684 | info as given, destination the PWM FIFO `0x7E20C018`, stride, padding and next are 0, length as above, and the source translates back to the sample buffer |
| Dma.CopySample | ws2812-RPi.c:875-877 | the first `length / 4` sample words equal the waveform's, and the rest of the sample buffer is unchanged |
| Dma.CopyCoversPixels | ws2812-RPi.c:668-674 | without the cap, the copied words hold all `72n` wire bits and at least 8 more |
| Dma.TransferOutrunsCopy | ws2812-RPi.c:875-877 | the transfer of `9n + 4` bytes is `n % 4` bytes longer than the words copied, so exactly when `n % 4 != 0` it ends inside a sample word that the copy does not write |
| Dma.CopyCoversEncodedBits | ws2812-RPi.c:671-674 | whenever the waveform buffer can hold the pixels' wire bits, the copy carries all of them and stays within the buffer |
| Driver.Show | ws2812-RPi.c:824-877 | after `show()` the sample buffer carries the encoding of the scaled pixels at every one of the first `72 numLEDs` wire positions; the waveform beyond them and the sample beyond the copy are unchanged |

## Left out

- Peripheral mapping through `/dev/mem` and `mmap` (ws2812-RPi.c:208-224): OS I/O.
- The `mmap` of the locked buffer, the `lseek` and the `/proc/<pid>/pagemap` reads (ws2812-RPi.c:588-640): OS I/O. Their results are inputs to `PageMap.BuildPageMap`:
  - the base address;
  - the sequence of entries read, where a shorter sequence stands for a short read.
- The `malloc`, `open` and `lseek` failure paths: I/O.
- The write that touches each page before it is read (ws2812-RPi.c:637): a memory effect with no value.
- Register sequencing in `initHardware`, `startTransfer` and the stop sequence (ws2812-RPi.c:699-811): MMIO writes whose bit meanings live in the header, which is not part of this model.
- The `usleep` delay after a transfer and its float computation (ws2812-RPi.c:883-887): timing.
- `terminate`, `fatal` and their output (ws2812-RPi.c:142-180): `fatal` is a `Fatal` result.
- Dump and print helpers (ws2812-RPi.c:104-114, 379-544): console output.
- Effects and `effectsDemo` (ws2812-RPi.c:936-1093): timing- and randomness-driven callers of the pixel API.
- `clearPWMBuffer` and `numPixels` (ws2812-RPi.c:251-253, 320-322): not in the modelled data path.
- Pixels.ScaleValue: scales by `floor(c * b)` with `b` a real in [0, 1]. It does not model the float rounding of `c * brightness` before the conversion back to `unsigned char`, nor a NaN brightness, which passes both tests of `setBrightness`.
- Pixels.SetBrightness: models the comparisons on a real, not on a `float`. The printed messages are left out.
- Pixels.SetPixelColor, Pixels.SetPixelColorT and Pixels.GetPixelColor: require the pixel to be in range. The bound check in the code is commented out and an out-of-range index is undefined behaviour.
- Dma.TransferLength: requires `9n + 4` to fit in 32 bits. Converting a larger double to the unsigned length field is undefined behaviour.
- PageMap.VirtToPhys: requires the virtual address to lie inside the mapped region. The code indexes `page_map` without a check (ws2812-RPi.c:188), and an address outside the region reads out of bounds.
- PageMap.VirtToPhys and PageMap.PhysToVirt: virtual addresses are unbounded integers, not pointers. The round trips assume the mapped region fits in the 32-bit address space.
- Waveform.SetPWMBit: requires `bitPos < 32 * |waveform|`. The code indexes `PWMWaveform` without a check (ws2812-RPi.c:343, 347), and a position past the buffer writes out of bounds.
- Waveform.GetPWMBit: requires `bitPos < 32 * |waveform|`. The code indexes `PWMWaveform` without a check (ws2812-RPi.c:360), and a position past the buffer reads out of bounds.
- Encoder.EncodeFrame: requires `numLEDs <= |leds|` and `72 * numLEDs <= 32 * |waveform|`. The loop at ws2812-RPi.c:838-866 does not test either capacity; with a larger `numLEDs` it reads and writes past the buffers.
- Driver.Show: requires the same two capacities as Encoder.EncodeFrame, for the same reason.
- Dma.CopySample: requires the sample buffer to be as long as the waveform buffer. Both are `NUM_DATA_WORDS` long in the header, which is not part of this model.
- Driver.Show: requires the sample buffer to be as long as the waveform buffer, as Dma.CopySample does.
- `1 << 31` in `setPWMBit`, `getPWMBit` and `reverseWord` is taken to give `0x80000000`, as the compiler does in practice.
