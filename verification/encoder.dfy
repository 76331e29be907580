/** The waveform encoder of show(): every pixel becomes 24 data bits in
    green, red, blue order, every data bit becomes three wire bits, and the
    wire bits are packed into the waveform buffer most significant bit first. */
module Encoder {
  import opened Bits
  import opened Pixels
  import opened Waveform

  /** colorBits: the pixel's 24-bit wire word, green in bits 16-23, red in
      bits 8-15 and blue in bits 0-7, nothing above bit 23. */
  function ColorBits(c: Color): (w: bv32)
    ensures w >> 24 == 0
    ensures (w >> 16) & 0xFF == c.g as bv32
    ensures (w >> 8) & 0xFF == c.r as bv32
    ensures w & 0xFF == c.b as bv32
  {
    ((c.r as bv32) << 8) | ((c.g as bv32) << 16) | (c.b as bv32)
  }

  /** The channel order is green, red, blue and not the red, green, blue of the API. */
  lemma WireChannelOrder()
    ensures ColorBits(Color(10, 20, 30)) == 0x14_0A_1E
    ensures ColorBits(Color(10, 20, 30)) != 0x0A_14_1E
  {
  }

  /** Data bit `j` of a pixel, counted from the most significant of the 24. */
  predicate DataBit(c: Color, j: nat)
    requires j < 24
  {
    Bit(ColorBits(c), (23 - j) as bv5)
  }

  /** The three wire bits for one data bit: high, the data bit, low
      (1,1,0 for a one and 1,0,0 for a zero). */
  function Symbol(bit: bool): (s: seq<bool>)
    ensures |s| == 3 && s[0] && s[1] == bit && !s[2]
  {
    if bit then [true, true, false] else [true, false, false]
  }

  /** Wire bit `k` of the symbol for `bit`. */
  predicate SymbolBit(bit: bool, k: nat) {
    k == 0 || (k == 1 && bit)
  }

  /** The 24 data bits of a pixel, most significant first. */
  function PixelBits(c: Color): (bits: seq<bool>)
    ensures |bits| == 24
    ensures forall j :: 0 <= j < 24 ==> bits[j] == DataBit(c, j)
  {
    seq(24, j requires 0 <= j < 24 => DataBit(c, j))
  }

  /** The data bits of a run of pixels, pixel after pixel. */
  function DataStream(px: seq<Color>): (bits: seq<bool>)
    ensures |bits| == 24 * |px|
  {
    if |px| == 0 then [] else PixelBits(px[0]) + DataStream(px[1..])
  }

  /** Every data bit replaced by its three-bit symbol. */
  function Symbols(bits: seq<bool>): (wire: seq<bool>)
    ensures |wire| == 3 * |bits|
  {
    if |bits| == 0 then [] else Symbol(bits[0]) + Symbols(bits[1..])
  }

  /** The wire bit sequence of a run of pixels. */
  function Encode(px: seq<Color>): (wire: seq<bool>)
    ensures |wire| == 72 * |px|
  {
    Symbols(DataStream(px))
  }

  /** Wire position `q` in closed form: pixel `q / 72`, data bit `(q % 72) / 3`,
      symbol bit `q % 3`. */
  predicate WireAt(px: seq<Color>, q: nat)
    requires q < 72 * |px|
  {
    SymbolBit(DataBit(px[q / 72], (q % 72) / 3), q % 3)
  }

  lemma StepBack(q: nat, d: nat)
    requires d == 3 || d == 24
    requires q >= d
    ensures (q - d) / d == q / d - 1 && (q - d) % d == q % d
  {
  }

  lemma {:induction false} SymbolsIndex(bits: seq<bool>, q: nat)
    requires q < 3 * |bits|
    ensures Symbols(bits)[q] == SymbolBit(bits[q / 3], q % 3)
  {
    if q >= 3 {
      StepBack(q, 3);
      SymbolsIndex(bits[1..], q - 3);
    }
  }

  lemma {:induction false} DataStreamIndex(px: seq<Color>, d: nat)
    requires d < 24 * |px|
    ensures DataStream(px)[d] == DataBit(px[d / 24], d % 24)
  {
    if d >= 24 {
      StepBack(d, 24);
      DataStreamIndex(px[1..], d - 24);
    }
  }

  lemma WirePositionParts(q: nat)
    ensures (q / 3) / 24 == q / 72 && (q / 3) % 24 == (q % 72) / 3
  {
    var i, r := q / 72, q % 72;
    assert q == 72 * i + r;
    assert q / 3 == 24 * i + r / 3;
  }

  /** Every position of the encoding holds the bit the closed form predicts. */
  lemma EncodeIndex(px: seq<Color>, q: nat)
    requires q < 72 * |px|
    ensures Encode(px)[q] == WireAt(px, q)
  {
    SymbolsIndex(DataStream(px), q);
    WirePositionParts(q);
    DataStreamIndex(px, q / 3);
  }

  lemma PositionParts(i: nat, j: nat, k: nat)
    requires j < 24 && k < 3
    ensures (72 * i + 3 * j + k) / 72 == i
    ensures ((72 * i + 3 * j + k) % 72) / 3 == j
    ensures (72 * i + 3 * j + k) % 3 == k
  {
  }

  /** Pixel `i`'s data bit `j` occupies wire positions `72i + 3j .. 72i + 3j + 2`
      and is sent as its symbol. */
  lemma EncodeLayout(px: seq<Color>, i: nat, j: nat)
    requires i < |px| && j < 24
    ensures Encode(px)[72 * i + 3 * j .. 72 * i + 3 * j + 3] == Symbol(DataBit(px[i], j))
  {
    var p := 72 * i + 3 * j;
    var e := Encode(px);
    var bit := DataBit(px[i], j);
    assert e[p] == SymbolBit(bit, 0) by {
      SymbolAt(px, i, j, 0, p);
      EncodeIndex(px, p);
    }
    assert e[p + 1] == SymbolBit(bit, 1) by {
      SymbolAt(px, i, j, 1, p + 1);
      EncodeIndex(px, p + 1);
    }
    assert e[p + 2] == SymbolBit(bit, 2) by {
      SymbolAt(px, i, j, 2, p + 2);
      EncodeIndex(px, p + 2);
    }
    SymbolSlice(e, p, bit);
  }

  /** Three positions holding the symbol bits of `bit` form its symbol. */
  lemma SymbolSlice(s: seq<bool>, p: nat, bit: bool)
    requires p + 3 <= |s|
    requires s[p] == SymbolBit(bit, 0) && s[p + 1] == SymbolBit(bit, 1) && s[p + 2] == SymbolBit(bit, 2)
    ensures s[p .. p + 3] == Symbol(bit)
  {
  }

  /** What a receiver samples: the middle bit of every three-bit symbol. */
  function MiddleBits(wire: seq<bool>): (bits: seq<bool>)
    ensures |bits| == |wire| / 3
  {
    if |wire| < 3 then [] else [wire[1]] + MiddleBits(wire[3..])
  }

  /** Sampling the middle of each symbol recovers the data bits. */
  lemma {:induction false} SymbolsRoundTrip(bits: seq<bool>)
    ensures MiddleBits(Symbols(bits)) == bits
  {
    if |bits| > 0 {
      var wire := Symbols(bits);
      assert wire[3..] == Symbols(bits[1..]);
      SymbolsRoundTrip(bits[1..]);
    }
  }

  /** Bits 24 to 31 of a colour word are clear. */
  lemma HighBitsClear(c: Color, k: bv5)
    requires k >= 24
    ensures !Bit(ColorBits(c), k)
  {
    var w := ColorBits(c);
    assert w >> k == (w >> 24) >> (k - 24);
  }

  lemma DataIndex(k: bv5)
    requires k < 24
    ensures 23 - k as int < 24 && (23 - (23 - k as int)) as bv5 == k
  {
    IndexRoundTrip(k as int);
  }

  /** Two pixels with the same 24 data bits are the same pixel. */
  lemma ColorFromDataBits(a: Color, b: Color)
    requires forall j :: 0 <= j < 24 ==> DataBit(a, j) == DataBit(b, j)
    ensures a == b
  {
    var wa, wb := ColorBits(a), ColorBits(b);
    forall k: bv5 ensures Bit(wa, k) == Bit(wb, k) {
      if k < 24 {
        DataIndex(k);
        assert DataBit(a, 23 - k as int) == DataBit(b, 23 - k as int);
      } else {
        HighBitsClear(a, k);
        HighBitsClear(b, k);
      }
    }
    BitwiseEqual(wa, wb);
  }

  /** Different runs of pixels of the same length have different data streams. */
  lemma {:induction false} DataStreamInjective(a: seq<Color>, b: seq<Color>)
    requires |a| == |b| && DataStream(a) == DataStream(b)
    ensures a == b
  {
    if |a| > 0 {
      var sa, sb := DataStream(a), DataStream(b);
      assert sa[..24] == PixelBits(a[0]) && sb[..24] == PixelBits(b[0]);
      forall j | 0 <= j < 24 ensures DataBit(a[0], j) == DataBit(b[0], j) {
        assert PixelBits(a[0])[j] == PixelBits(b[0])[j];
      }
      ColorFromDataBits(a[0], b[0]);
      assert sa[24..] == DataStream(a[1..]) && sb[24..] == DataStream(b[1..]);
      DataStreamInjective(a[1..], b[1..]);
      assert a == [a[0]] + a[1..] && b == [b[0]] + b[1..];
    }
  }

  /** The encoding loses nothing: the wire bits determine the pixels, which a
      receiver recovers by sampling the middle of each symbol. */
  lemma EncodeInjective(a: seq<Color>, b: seq<Color>)
    requires Encode(a) == Encode(b)
    ensures a == b
  {
    SymbolsRoundTrip(DataStream(a));
    SymbolsRoundTrip(DataStream(b));
    DataStreamInjective(a, b);
  }

  /** A black pixel is sent as 24 copies of the zero symbol 1,0,0. */
  lemma BlackPixelIsAllZeroSymbols(j: nat)
    requires j < 24
    ensures Encode([Black])[3 * j .. 3 * j + 3] == [true, false, false]
  {
    EncodeLayout([Black], 0, j);
    assert ColorBits(Black) == 0;
  }

  /** A white pixel is sent as 24 copies of the one symbol 1,1,0. */
  lemma WhitePixelIsAllOneSymbols(j: nat)
    requires j < 24
    ensures Encode([Color(255, 255, 255)])[3 * j .. 3 * j + 3] == [true, true, false]
  {
    var white := Color(255, 255, 255);
    EncodeLayout([white], 0, j);
    assert ColorBits(white) == 0xFF_FFFF;
    WhiteBit((23 - j) as bv5);
  }

  lemma WhiteBit(i: bv5)
    requires i < 24
    ensures Bit(0xFF_FFFF, i)
  {
  }

  /** Wire positions `0 .. n - 1` of `out` hold the encoding of `px`. */
  ghost predicate Emitted(out: seq<bv32>, px: seq<Color>, n: nat)
    requires n <= 72 * |px| && n <= 32 * |out|
  {
    forall q :: 0 <= q < n ==> WireBit(out, q) == WireAt(px, q)
  }

  /** Wire positions from `n` on are as they were in `w`. */
  ghost predicate Untouched(out: seq<bv32>, w: seq<bv32>, n: nat)
    requires |out| == |w|
  {
    forall q :: n <= q < 32 * |w| ==> WireBit(out, q) == WireBit(w, q)
  }

  /** Positions `pos .. pos + 2` of `r` hold the symbol for `bit`; all other
      wire positions are as in `out`. */
  ghost predicate SymbolWritten(out: seq<bv32>, r: seq<bv32>, pos: nat, bit: bool)
    requires |r| == |out|
  {
    forall q :: 0 <= q < 32 * |out| ==>
      WireBit(r, q) == if pos <= q < pos + 3 then SymbolBit(bit, q - pos) else WireBit(out, q)
  }

  /** The three setPWMBit calls for one data bit: 1, then the bit, then 0. */
  function WriteSymbol(out: seq<bv32>, pos: nat, bit: bool): (r: seq<bv32>)
    requires pos + 3 <= 32 * |out|
    ensures |r| == |out| && SymbolWritten(out, r, pos, bit)
  {
    var o1 := SetPWMBit(out, pos, 1);
    var o2 := SetPWMBit(o1, pos + 1, if bit then 1 else 0);
    SetPWMBit(o2, pos + 2, 0)
  }

  /** Rescaling pixel `i` does not disturb the wire bits of earlier pixels. */
  lemma EmittedFrame(out: seq<bv32>, px: seq<Color>, i: nat, c: Color)
    requires i < |px| && 72 * i <= 32 * |out|
    requires Emitted(out, px, 72 * i)
    ensures Emitted(out, px[i := c], 72 * i)
  {
    forall q | 0 <= q < 72 * i ensures WireBit(out, q) == WireAt(px[i := c], q) {
      assert q / 72 < i;
    }
  }

  /** The wire bits of data bit `j` of pixel `i`. */
  lemma SymbolAt(px: seq<Color>, i: nat, j: nat, k: nat, q: nat)
    requires i < |px| && j < 24 && k < 3 && q == 72 * i + 3 * j + k
    ensures q < 72 * |px|
    ensures WireAt(px, q) == SymbolBit(DataBit(px[i], j), k)
  {
    PositionParts(i, j, k);
  }

  /** Writing the symbol of data bit `j` of pixel `i` extends the emitted prefix by three. */
  lemma EmitSymbol(w: seq<bv32>, px: seq<Color>, out: seq<bv32>, out': seq<bv32>, i: nat, j: nat, bit: bool)
    requires i < |px| && j < 24 && 72 * i + 3 * j + 3 <= 32 * |w|
    requires |out| == |w| && |out'| == |w|
    requires Emitted(out, px, 72 * i + 3 * j) && Untouched(out, w, 72 * i + 3 * j)
    requires SymbolWritten(out, out', 72 * i + 3 * j, bit)
    requires bit == DataBit(px[i], j)
    ensures Emitted(out', px, 72 * i + 3 * j + 3) && Untouched(out', w, 72 * i + 3 * j + 3)
  {
    var p := 72 * i + 3 * j;
    forall q | 0 <= q < p + 3 ensures WireBit(out', q) == WireAt(px, q) {
      if q >= p {
        SymbolAt(px, i, j, q - p, q);
      }
    }
    assert Untouched(out', w, p + 3);
  }

  lemma BitIndexAgrees(j: int)
    requires 0 <= j < 24
    ensures (j as bv6) as bv5 == (23 - (23 - j)) as bv5
  {
    IndexRoundTrip(j);
    assert (j as bv6) as int == j;
  }

  /** Pixels before `i` are scaled by `brightness`, the rest are as given. */
  ghost predicate ScaledUpTo(leds: seq<Color>, scaled: seq<Color>, i: nat, brightness: real)
    requires 0.0 <= brightness <= 1.0
  {
    |scaled| == |leds| && i <= |leds| &&
    (forall k :: 0 <= k < i ==> scaled[k] == ScaleColor(leds[k], brightness)) &&
    (forall k :: i <= k < |leds| ==> scaled[k] == leds[k])
  }

  /** The inner loop of show()'s encoder: the 24 data bits of pixel `i`,
      most significant first, each written as three wire bits with setPWMBit
      from wire position `72 * i` on. */
  method EmitPixel(waveform: seq<bv32>, px: seq<Color>, i: nat, out: seq<bv32>) returns (out': seq<bv32>)
    requires i < |px| && 72 * i + 72 <= 32 * |waveform| && |out| == |waveform|
    requires Emitted(out, px, 72 * i) && Untouched(out, waveform, 72 * i)
    ensures |out'| == |waveform|
    ensures Emitted(out', px, 72 * i + 72) && Untouched(out', waveform, 72 * i + 72)
  {
    out' := out;
    var wireBit := 72 * i;
    var colorBits := ColorBits(px[i]);
    var j := 23;
    while j >= 0
      invariant -1 <= j <= 23
      invariant |out'| == |waveform|
      invariant wireBit == 72 * i + 3 * (23 - j)
      invariant Emitted(out', px, wireBit) && Untouched(out', waveform, wireBit)
    {
      var colorBit := TestBit(colorBits, j as bv6);
      BitIndexAgrees(j);
      // the two cases of the switch on colorBit differ only in the middle wire bit
      ghost var before := out';
      out' := WriteSymbol(out', wireBit, colorBit == 1);
      EmitSymbol(waveform, px, before, out', i, 23 - j, colorBit == 1);
      wireBit := wireBit + 3;
      j := j - 1;
    }
  }

  /** The encode loop of show(): scales each of the first `numLEDs` pixels by
      `brightness` in place, then writes its 72 wire bits with setPWMBit.
      Wire positions past `72 * numLEDs` keep their previous value. */
  method EncodeFrame(leds: seq<Color>, numLEDs: nat, brightness: real, waveform: seq<bv32>)
    returns (scaled: seq<Color>, out: seq<bv32>)
    requires numLEDs <= |leds|
    requires 0.0 <= brightness <= 1.0
    requires 72 * numLEDs <= 32 * |waveform|
    ensures |scaled| == |leds|
    ensures forall i :: 0 <= i < numLEDs ==> scaled[i] == ScaleColor(leds[i], brightness)
    ensures forall i :: numLEDs <= i < |leds| ==> scaled[i] == leds[i]
    ensures |out| == |waveform|
    ensures forall q :: 0 <= q < 72 * numLEDs ==> WireBit(out, q) == Encode(scaled[..numLEDs])[q]
    ensures forall q :: 72 * numLEDs <= q < 32 * |waveform| ==> WireBit(out, q) == WireBit(waveform, q)
  {
    scaled := leds;
    out := waveform;
    var wireBit := 0;
    var i := 0;
    while i < numLEDs
      invariant 0 <= i <= numLEDs
      invariant |scaled| == |leds| && |out| == |waveform|
      invariant ScaledUpTo(leds, scaled, i, brightness)
      invariant wireBit == 72 * i
      invariant Emitted(out, scaled, wireBit) && Untouched(out, waveform, wireBit)
    {
      EmittedFrame(out, scaled, i, ScaleColor(scaled[i], brightness));
      scaled := scaled[i := ScaleColor(scaled[i], brightness)];
      out := EmitPixel(waveform, scaled, i, out);
      wireBit := wireBit + 72;
      i := i + 1;
    }
    forall q | 0 <= q < 72 * numLEDs ensures WireBit(out, q) == Encode(scaled[..numLEDs])[q] {
      EncodeIndex(scaled[..numLEDs], q);
    }
  }
}
