/** The LED buffer and the public pixel API: colours, the pixel setters and
    getter, buffer clearing, the brightness setting and the colour wheel. */
module Pixels {

  /** Color_t: one 8-bit value per channel, in the public r, g, b order. */
  datatype Color = Color(r: bv8, g: bv8, b: bv8)

  const Black := Color(0, 0, 0)

  /** RGB2Color and its alias Color: builds a colour from its three channels. */
  function RGB2Color(r: bv8, g: bv8, b: bv8): (c: Color)
    ensures c.r == r && c.g == g && c.b == b
  {
    Color(r, g, b)
  }

  /** clearLEDBuffer: sets every pixel of the buffer to black. */
  method ClearLEDBuffer(leds: seq<Color>) returns (cleared: seq<Color>)
    ensures |cleared| == |leds|
    ensures forall i :: 0 <= i < |cleared| ==> cleared[i] == Black
  {
    cleared := leds;
    var i := 0;
    while i < |leds|
      invariant 0 <= i <= |leds|
      invariant |cleared| == |leds|
      invariant forall k :: 0 <= k < i ==> cleared[k] == Black
    {
      cleared := cleared[i := Color(0, 0, 0)];
      i := i + 1;
    }
  }

  /** setPixelColor: stores colour (r, g, b) at `pixel` and reports success.
      The source's `pixel < 0` test cannot fire on an unsigned index and its
      upper-bound test is commented out, so the caller must stay in range. */
  function SetPixelColor(leds: seq<Color>, pixel: nat, r: bv8, g: bv8, b: bv8): (res: (bool, seq<Color>))
    requires pixel < |leds|
    ensures res.0
    ensures |res.1| == |leds|
    ensures res.1[pixel].r == r && res.1[pixel].g == g && res.1[pixel].b == b
    ensures forall k :: 0 <= k < |leds| && k != pixel ==> res.1[k] == leds[k]
  {
    (true, leds[pixel := RGB2Color(r, g, b)])
  }

  /** setPixelColorT: stores a ready-made colour at `pixel` and reports success. */
  function SetPixelColorT(leds: seq<Color>, pixel: nat, c: Color): (res: (bool, seq<Color>))
    requires pixel < |leds|
    ensures res.0
    ensures |res.1| == |leds|
    ensures res.1[pixel] == c
    ensures forall k :: 0 <= k < |leds| && k != pixel ==> res.1[k] == leds[k]
  {
    (true, leds[pixel := c])
  }

  /** getPixelColor: the colour stored at `pixel`; writing it back, as a colour
      or channel by channel, leaves the buffer as it was. */
  function GetPixelColor(leds: seq<Color>, pixel: nat): (c: Color)
    requires pixel < |leds|
    ensures SetPixelColorT(leds, pixel, c).1 == leds
    ensures SetPixelColor(leds, pixel, c.r, c.g, c.b).1 == leds
  {
    leds[pixel]
  }

  /** Reading back after setPixelColor yields the colour written at that
      pixel and the old colour everywhere else. */
  lemma SetThenGet(leds: seq<Color>, pixel: nat, r: bv8, g: bv8, b: bv8, q: nat)
    requires pixel < |leds| && q < |leds|
    ensures GetPixelColor(SetPixelColor(leds, pixel, r, g, b).1, q)
            == if q == pixel then Color(r, g, b) else GetPixelColor(leds, q)
  {
  }

  /** setBrightness: accepts a value in [0, 1] and stores it; anything else is
      rejected and leaves the stored brightness as it was. */
  function SetBrightness(brightness: real, b: real): (res: (bool, real))
    ensures res.0 <==> 0.0 <= b <= 1.0
    ensures res.0 ==> res.1 == b
    ensures !res.0 ==> res.1 == brightness
  {
    if b < 0.0 then (false, brightness)
    else if b > 1.0 then (false, brightness)
    else (true, b)
  }

  /** The stored brightness stays within [0, 1] whatever setBrightness is asked to store. */
  lemma BrightnessStaysInRange(brightness: real, b: real)
    requires 0.0 <= brightness <= 1.0
    ensures 0.0 <= SetBrightness(brightness, b).1 <= 1.0
  {
  }

  lemma ScaledProductInRange(c: int, brightness: real)
    requires 0 <= c < 256 && 0.0 <= brightness <= 1.0
    ensures 0 <= (c as real * brightness).Floor <= c
  {
    var x := c as real;
    var p := x * brightness;
    ProductBelow(x, brightness, p);
    assert p.Floor as real <= p <= x;
  }

  /** Scaling a non-negative value by a factor in [0, 1] moves it down, never
      below zero. */
  lemma ProductBelow(x: real, b: real, p: real)
    requires 0.0 <= x && 0.0 <= b <= 1.0 && p == x * b
    ensures 0.0 <= p <= x
  {
    assert x - p == x * (1.0 - b);
  }

  lemma FloorOfWhole(c: int)
    ensures (c as real * 1.0).Floor == c && (c as real * 0.0).Floor == 0
  {
  }

  /** The `unsigned char` holding the integer `x`. */
  function ToByte(x: nat): (b: bv8)
    requires x < 256
    ensures b as int == x
  {
    if x == 0 then 0 else
      var p := ToByte(x - 1);
      ByteSuccessor(p);
      p + 1
  }

  lemma ByteSuccessor(p: bv8)
    requires p as int < 255
    ensures (p + 1) as int == p as int + 1
  {
  }

  lemma ByteValueInjective(a: bv8, b: bv8)
    ensures a as int == b as int ==> a == b
  {
  }

  /** `s` is channel `c` scaled by `brightness` and truncated towards zero. */
  predicate Truncated(c: int, brightness: real, s: int) {
    s as real <= c as real * brightness < s as real + 1.0
  }

  /** `c * brightness` truncated towards zero, on the integer value of a channel. */
  function ScaleValue(c: int, brightness: real): (s: int)
    requires 0 <= c < 256 && 0.0 <= brightness <= 1.0
    ensures Truncated(c, brightness, s)
    ensures 0 <= s <= c
    ensures brightness == 1.0 ==> s == c
    ensures brightness == 0.0 ==> s == 0
  {
    ScaledProductInRange(c, brightness);
    FloorOfWhole(c);
    (c as real * brightness).Floor
  }

  /** The truncated product is the only integer within one below `c * brightness`. */
  lemma ScaleValueIsTruncation(c: int, brightness: real, t: int)
    requires 0 <= c < 256 && 0.0 <= brightness <= 1.0
    requires Truncated(c, brightness, t)
    ensures ScaleValue(c, brightness) == t
  {
    var s := ScaleValue(c, brightness);
    assert s as real < t as real + 1.0 && t as real < s as real + 1.0;
  }

  /** A channel after brightness scaling (`LEDBuffer[i].r *= brightness`): never
      brighter than before, unchanged at full brightness, off at zero. */
  function ScaleChannel(c: bv8, brightness: real): (s: bv8)
    requires 0.0 <= brightness <= 1.0
    ensures Truncated(c as int, brightness, s as int)
    ensures s as int <= c as int
    ensures brightness == 1.0 ==> s == c
    ensures brightness == 0.0 ==> s == 0
  {
    var scaled := ScaleValue(c as int, brightness);
    var s := ToByte(scaled);
    ByteValueInjective(s, c);
    s
  }

  /** One pixel after brightness scaling: every channel scaled the same way,
      so the pixel is unchanged at full brightness and black at zero. */
  function ScaleColor(c: Color, brightness: real): (s: Color)
    requires 0.0 <= brightness <= 1.0
    ensures Truncated(c.r as int, brightness, s.r as int) &&
            Truncated(c.g as int, brightness, s.g as int) &&
            Truncated(c.b as int, brightness, s.b as int)
    ensures s.r as int <= c.r as int && s.g as int <= c.g as int && s.b as int <= c.b as int
    ensures brightness == 1.0 ==> s == c
    ensures brightness == 0.0 ==> s == Black
  {
    Color(ScaleChannel(c.r, brightness), ScaleChannel(c.g, brightness), ScaleChannel(c.b, brightness))
  }

  /** A brighter setting never gives a darker channel. */
  lemma ScaleMonotone(c: bv8, b1: real, b2: real)
    requires 0.0 <= b1 <= b2 <= 1.0
    ensures ScaleChannel(c, b1) as int <= ScaleChannel(c, b2) as int
  {
    TruncationMonotone(c as int, b1, b2, ScaleChannel(c, b1) as int, ScaleChannel(c, b2) as int);
  }

  lemma TruncationMonotone(c: int, b1: real, b2: real, t1: int, t2: int)
    requires 0 <= c && 0.0 <= b1 <= b2 <= 1.0
    requires Truncated(c, b1, t1) && Truncated(c, b2, t2)
    ensures t1 <= t2
  {
    var x := c as real;
    ProductMonotone(x, b1, b2);
    WholeBelow(t1, t2, x * b1, x * b2);
  }

  lemma ProductMonotone(x: real, b1: real, b2: real)
    requires 0.0 <= x && 0.0 <= b1 <= b2 <= 1.0
    ensures x * b1 <= x * b2
  {
    var d := b2 - b1;
    ProductBelow(x, d, x * d);
    assert x * b2 - x * b1 == x * d;
  }

  /** Integers within one below two ordered reals are ordered the same way. */
  lemma WholeBelow(t1: int, t2: int, p1: real, p2: real)
    requires t1 as real <= p1 <= p2 < t2 as real + 1.0
    ensures t1 <= t2
  {
  }

  /** Wheel: maps 0..255 onto a red -> green -> blue -> red cycle. In each third
      one channel is off and the other two share a total of 255. */
  function Wheel(wheelPos: bv8): (c: Color)
    ensures c.r as int + c.g as int + c.b as int == 255
    ensures wheelPos < 85 ==> c.b == 0 && c.r as int == 3 * wheelPos as int
    ensures 85 <= wheelPos < 170 ==> c.g == 0 && c.b as int == 3 * (wheelPos as int - 85)
    ensures 170 <= wheelPos ==> c.r == 0 && c.g as int == 3 * (wheelPos as int - 170)
  {
    if wheelPos < 85 then
      Color(wheelPos * 3, 255 - wheelPos * 3, 0)
    else if wheelPos < 170 then
      var p := wheelPos - 85;
      Color(255 - p * 3, 0, p * 3)
    else
      var p := wheelPos - 170;
      Color(0, p * 3, 255 - p * 3)
  }
}
