/** The types of the Windows10Colors header: the packed RGBA colour with
    its component accessors, the seven accent shades and the six window
    frame colours.  RGBA holds red in the least significant byte and alpha
    in the most significant byte; the bitwise operations of the C++ code
    are written with division and remainder (a `|` of disjoint bit fields
    is an addition). */
module ColorTypes {
  import opened Win32

  type Byte = x: int | 0 <= x < 0x100

  /** A 32-bit DWORD: byte 0 red, byte 1 green, byte 2 blue, byte 3 alpha. */
  type RGBA = DWord

  /** GetRValue: byte 0. */
  function GetRValue(c: RGBA): Byte { c % 0x100 }

  /** GetGValue: byte 1, `(c >> 8) & 0xff`. */
  function GetGValue(c: RGBA): Byte { c / 0x100 % 0x100 }

  /** GetBValue: byte 2, `(c >> 16) & 0xff`. */
  function GetBValue(c: RGBA): Byte { c / 0x1_0000 % 0x100 }

  /** Alpha: byte 3, `(c >> 24) & 0xff`. */
  function AlphaValue(c: RGBA): Byte { c / 0x100_0000 }

  /** Byte k of a colour, k = 0 (red) .. 3 (alpha). */
  function Channel(c: RGBA, k: nat): Byte
    requires k < 4
  {
    if k == 0 then GetRValue(c)
    else if k == 1 then GetGValue(c)
    else if k == 2 then GetBValue(c)
    else AlphaValue(c)
  }

  /** The RGB macro: red, green and blue in bytes 0, 1 and 2, byte 3 zero. */
  function Rgb(r: Byte, g: Byte, b: Byte): RGBA {
    r + g * 0x100 + b * 0x1_0000
  }

  /** `RGB(r, g, b) | (a << 24)`: the four components packed in R, G, B, A
      byte order. */
  function MakeRGBA(r: Byte, g: Byte, b: Byte, a: Byte): RGBA {
    Rgb(r, g, b) + a * 0x100_0000
  }

  /** The RGB macro leaves byte 3 clear and each component comes back out of
      its own byte. */
  lemma RgbChannels(r: Byte, g: Byte, b: Byte)
    ensures Rgb(r, g, b) < 0x100_0000 && AlphaValue(Rgb(r, g, b)) == 0
    ensures GetRValue(Rgb(r, g, b)) == r && GetGValue(Rgb(r, g, b)) == g && GetBValue(Rgb(r, g, b)) == b
  {
    PackedChannels(r, g, b, 0);
  }

  /** Each component of MakeRGBA comes back out of its own byte. */
  lemma MakeRGBAChannels(r: Byte, g: Byte, b: Byte, a: Byte)
    ensures var c := MakeRGBA(r, g, b, a);
      GetRValue(c) == r && GetGValue(c) == g && GetBValue(c) == b && AlphaValue(c) == a
  {
    PackedChannels(r, g, b, a);
  }

  /** Division with remainder has one answer: the quotient and remainder
      of n by d are any q, r with n == q * d + r and 0 <= r < d. */
  lemma DivModUnique(n: int, d: int, q: int, r: int)
    requires d > 0 && 0 <= r < d && n == q * d + r
    ensures n / d == q && n % d == r
  {
    var q', r' := n / d, n % d;
    assert (q - q') * d == r' - r;
    if q > q' {
      MulAtLeast(q - q', d);
    } else if q < q' {
      MulAtLeast(q' - q, d);
    }
  }

  lemma MulAtLeast(k: int, d: int)
    requires k >= 1 && d > 0
    ensures k * d >= d
  {
  }

  /** Each byte of `r + g * 2^8 + b * 2^16 + a * 2^24` is its own component. */
  lemma PackedChannels(r: Byte, g: Byte, b: Byte, a: Byte)
    ensures var c := r + g * 0x100 + b * 0x1_0000 + a * 0x100_0000;
      c % 0x100 == r && c / 0x100 % 0x100 == g && c / 0x1_0000 % 0x100 == b && c / 0x100_0000 == a
  {
    var c := r + g * 0x100 + b * 0x1_0000 + a * 0x100_0000;
    DivModUnique(c, 0x100, g + b * 0x100 + a * 0x1_0000, r);
    DivModUnique(c / 0x100, 0x100, b + a * 0x100, g);
    DivModUnique(c, 0x1_0000, b + a * 0x100, r + g * 0x100);
    DivModUnique(b + a * 0x100, 0x100, a, b);
    DivModUnique(c, 0x100_0000, a, r + g * 0x100 + b * 0x1_0000);
  }

  /** Every RGBA value is the packing of its own four bytes, so a colour is
      determined by its channels. */
  lemma UnpackPack(c: RGBA)
    ensures MakeRGBA(GetRValue(c), GetGValue(c), GetBValue(c), AlphaValue(c)) == c
  {
    var r: int, g: int, b: int, a: int := GetRValue(c), GetGValue(c), GetBValue(c), AlphaValue(c);
    var q1 := c / 0x100;
    var q2 := q1 / 0x100;
    assert c == q1 * 0x100 + r && q1 == q2 * 0x100 + g;
    DivModUnique(c, 0x1_0000, q2, g * 0x100 + r);
    assert q2 == (q2 / 0x100) * 0x100 + b;
    DivModUnique(c, 0x100_0000, q2 / 0x100, b * 0x1_0000 + g * 0x100 + r);
    assert c == r + g * 0x100 + b * 0x1_0000 + a * 0x100_0000;
  }

  /** Two colours with equal channels are equal. */
  lemma ChannelsDetermineColor(c: RGBA, d: RGBA)
    requires forall k :: 0 <= k < 4 ==> Channel(c, k) == Channel(d, k)
    ensures c == d
  {
    assert Channel(c, 0) == Channel(d, 0) && Channel(c, 1) == Channel(d, 1);
    assert Channel(c, 2) == Channel(d, 2) && Channel(c, 3) == Channel(d, 3);
    UnpackPack(c);
    UnpackPack(d);
  }

  /** The `(BYTE)` cast: the low eight bits of an int, in two's complement. */
  function LowByte(n: int): Byte {
    n % 0x100
  }

  /** The cast keeps n modulo 256, so a value that already fits a byte is
      unchanged. */
  lemma LowByteWraps(n: int)
    ensures (n - LowByte(n)) % 0x100 == 0
    ensures 0 <= n < 0x100 ==> LowByte(n) == n
  {
  }

  /** `c | 0xff000000`: alpha forced to 0xff. */
  function WithOpaqueAlpha(c: DWord): RGBA {
    c % 0x100_0000 + 0xff00_0000
  }

  /** WithOpaqueAlpha keeps the colour bytes and sets alpha to 0xff. */
  lemma WithOpaqueAlphaChannels(c: DWord)
    ensures AlphaValue(WithOpaqueAlpha(c)) == 0xff
    ensures GetRValue(WithOpaqueAlpha(c)) == GetRValue(c)
    ensures GetGValue(WithOpaqueAlpha(c)) == GetGValue(c)
    ensures GetBValue(WithOpaqueAlpha(c)) == GetBValue(c)
  {
    UnpackPack(c);
    DivModUnique(c, 0x100_0000, AlphaValue(c), GetRValue(c) + GetGValue(c) * 0x100 + GetBValue(c) * 0x1_0000);
    assert WithOpaqueAlpha(c) == MakeRGBA(GetRValue(c), GetGValue(c), GetBValue(c), 0xff);
    MakeRGBAChannels(GetRValue(c), GetGValue(c), GetBValue(c), 0xff);
  }

  /** Opaque white and opaque black. */
  const WHITE: RGBA := 0xffff_ffff
  const BLACK: RGBA := 0xff00_0000

  /** Accent colour shades, filled in by GetAccentColor. */
  class AccentColor {
    /** Base accent colour. */
    var accent: RGBA
    var darkest: RGBA
    var darker: RGBA
    var dark: RGBA
    var light: RGBA
    var lighter: RGBA
    var lightest: RGBA

    /** A local `AccentColor` is left uninitialised in C++; here its shades
        start at zero, a value no caller reads before it is overwritten. */
    constructor ()
      ensures InFillOrder() == [0, 0, 0, 0, 0, 0, 0]
    {
      accent, darkest, darker, dark := 0, 0, 0, 0;
      light, lighter, lightest := 0, 0, 0;
    }

    /** The seven shades from darkest to lightest, the order in which
        GetAccentColor writes them. */
    function InFillOrder(): seq<RGBA>
      reads this
    {
      [darkest, darker, dark, accent, light, lighter, lightest]
    }
  }

  /** The six frame colours as a value, in the header's declaration order. */
  datatype Frame = Frame(
    activeCaptionText: RGBA,
    activeCaptionBG: RGBA,
    activeFrame: RGBA,
    inactiveCaptionText: RGBA,
    inactiveCaptionBG: RGBA,
    inactiveFrame: RGBA)

  /** Colours for Windows 10 frame painting, filled in field by field. */
  class FrameColors {
    var activeCaptionText: RGBA
    var activeCaptionBG: RGBA
    var activeFrame: RGBA
    var inactiveCaptionText: RGBA
    var inactiveCaptionBG: RGBA
    var inactiveFrame: RGBA

    constructor ()
      ensures Value() == Frame(0, 0, 0, 0, 0, 0)
    {
      activeCaptionText, activeCaptionBG, activeFrame := 0, 0, 0;
      inactiveCaptionText, inactiveCaptionBG, inactiveFrame := 0, 0, 0;
    }

    /** The six fields as a Frame value. */
    function Value(): Frame
      reads this
    {
      Frame(activeCaptionText, activeCaptionBG, activeFrame,
            inactiveCaptionText, inactiveCaptionBG, inactiveFrame)
    }
  }
}
