/** BlendRGBA of Windows10Colors.cpp: a per-channel linear interpolation
    between two colours.  The C++ code computes `ca * (1 - f) + cb * f` in
    single precision and converts it to int; here the factor f is an exact
    fraction num / den (0.6f is 3 / 5, `balance * 0.01f` is balance / 100)
    and the conversion truncates the exact value toward zero.  Products of
    variables are kept to integers, where the solver handles them well. */
module Blend {
  import opened ColorTypes

  /** A blend factor num / den. */
  datatype Ratio = Ratio(num: int, den: int)
  type Factor = r: Ratio | r.den > 0 witness Ratio(0, 1)

  /** A factor in [0, 1]. */
  predicate InUnitRange(f: Factor) { 0 <= f.num <= f.den }

  /** static_cast<int> of the exact quotient n / d: rounds toward zero. */
  function TruncDiv(n: int, d: int): int
    requires d > 0
  {
    if n >= 0 then n / d else -((-n) / d)
  }

  /** TruncDiv rounds toward zero: q * d is the multiple of d nearest to n
      on the side of zero. */
  lemma TruncDivBounds(n: int, d: int)
    requires d > 0
    ensures var q := TruncDiv(n, d);
      && (0 <= n ==> 0 <= q && q * d <= n < q * d + d)
      && (n < 0 ==> q <= 0 && q * d - d < n <= q * d)
  {
  }

  /** The numerator of `ca * (1 - f) + cb * f` over f.den. */
  function Mix(ca: int, cb: int, f: Factor): int {
    ca * (f.den - f.num) + cb * f.num
  }

  /** One channel of BlendRGBA before the cast to a byte. */
  function BlendChannel(ca: Byte, cb: Byte, f: Factor): int {
    TruncDiv(Mix(ca, cb, f), f.den)
  }

  /** BlendRGBA: all four channels, alpha included, are interpolated by the
      same rule and cut to their low byte (the `(BYTE)` casts of the RGB
      macro, and the `<< 24` of the alpha into the top byte). */
  function BlendRGBA(a: RGBA, b: RGBA, f: Factor): RGBA {
    var r, g, b', al := LowByte(BlendChannel(GetRValue(a), GetRValue(b), f)),
             LowByte(BlendChannel(GetGValue(a), GetGValue(b), f)),
             LowByte(BlendChannel(GetBValue(a), GetBValue(b), f)),
             LowByte(BlendChannel(AlphaValue(a), AlphaValue(b), f));
    r + g * 0x100 + b' * 0x1_0000 + al * 0x100_0000
  }

  /** Channel k of a blend is the blend of the two channels k, cut to a byte. */
  lemma BlendRGBAChannel(a: RGBA, b: RGBA, f: Factor, k: nat)
    requires k < 4
    ensures Channel(BlendRGBA(a, b, f), k) == LowByte(BlendChannel(Channel(a, k), Channel(b, k), f))
  {
    assert BlendRGBA(a, b, f) == MakeRGBA(LowByte(BlendChannel(GetRValue(a), GetRValue(b), f)),
                     LowByte(BlendChannel(GetGValue(a), GetGValue(b), f)),
                     LowByte(BlendChannel(GetBValue(a), GetBValue(b), f)),
                     LowByte(BlendChannel(AlphaValue(a), AlphaValue(b), f)));
    MakeRGBAChannels(LowByte(BlendChannel(GetRValue(a), GetRValue(b), f)),
                     LowByte(BlendChannel(GetGValue(a), GetGValue(b), f)),
                     LowByte(BlendChannel(GetBValue(a), GetBValue(b), f)),
                     LowByte(BlendChannel(AlphaValue(a), AlphaValue(b), f)));
  }

  lemma MulMono(a: int, b: int, k: int)
    requires a <= b && 0 <= k
    ensures a * k <= b * k
  {
  }

  /** An interpolation between a <= b stays between a * den and b * den. */
  lemma MixBetween(a: int, b: int, f: Factor)
    requires a <= b && InUnitRange(f)
    ensures a * f.den <= Mix(a, b, f) <= b * f.den
  {
    MulMono(a, b, f.num);
    MulMono(a, b, f.den - f.num);
  }

  /** Truncating a quotient whose numerator lies in [lo * d, hi * d], with
      0 <= lo, gives a value in [lo, hi]. */
  lemma TruncDivBetween(n: int, d: int, lo: int, hi: int)
    requires d > 0 && 0 <= lo && lo * d <= n <= hi * d
    ensures lo <= TruncDiv(n, d) <= hi
  {
    var q := TruncDiv(n, d);
    TruncDivBounds(n, d);
    if q < lo {
      MulMono(q + 1, lo, d);
    }
    if q > hi {
      MulMono(hi + 1, q, d);
    }
  }

  /** The exact multiple k * d divides back to k. */
  lemma TruncDivExact(k: nat, d: int)
    requires d > 0
    ensures TruncDiv(k * d, d) == k
  {
    TruncDivBetween(k * d, d, k, k);
  }

  /** For a factor in [0, 1] each channel lies between the two inputs, so
      the byte cast never wraps. */
  lemma BlendChannelBetween(ca: Byte, cb: Byte, f: Factor)
    requires InUnitRange(f)
    ensures ca <= cb ==> ca <= BlendChannel(ca, cb, f) <= cb
    ensures cb <= ca ==> cb <= BlendChannel(ca, cb, f) <= ca
  {
    if ca <= cb {
      MixBetween(ca, cb, f);
      TruncDivBetween(Mix(ca, cb, f), f.den, ca, cb);
    } else {
      assert Mix(ca, cb, f) == Mix(cb, ca, Ratio(f.den - f.num, f.den));
      MixBetween(cb, ca, Ratio(f.den - f.num, f.den));
      TruncDivBetween(Mix(ca, cb, f), f.den, cb, ca);
    }
  }

  /** Blending a channel value with itself gives it back. */
  lemma BlendChannelSame(c: Byte, f: Factor)
    ensures BlendChannel(c, c, f) == c
  {
    assert Mix(c, c, f) == c * f.den;
    TruncDivExact(c, f.den);
  }

  /** A channel that both colours share comes out unchanged, whatever the
      factor, even one outside [0, 1]. */
  lemma BlendSharedChannel(a: RGBA, b: RGBA, f: Factor, k: nat)
    requires k < 4 && Channel(a, k) == Channel(b, k)
    ensures Channel(BlendRGBA(a, b, f), k) == Channel(a, k)
  {
    BlendRGBAChannel(a, b, f, k);
    BlendChannelSame(Channel(a, k), f);
    LowByteWraps(Channel(a, k));
  }

  /** At factor 0 a channel is the first input's, at factor 1 the second's. */
  lemma BlendChannelEndpoints(ca: Byte, cb: Byte, f: Factor)
    ensures f.num == 0 ==> BlendChannel(ca, cb, f) == ca
    ensures f.num == f.den ==> BlendChannel(ca, cb, f) == cb
  {
    if f.num == 0 {
      assert Mix(ca, cb, f) == ca * f.den;
      TruncDivExact(ca, f.den);
    } else if f.num == f.den {
      assert Mix(ca, cb, f) == cb * f.den;
      TruncDivExact(cb, f.den);
    }
  }

  /** Factor 0 gives the first colour and factor 1 the second, exactly. */
  lemma BlendEndpoints(a: RGBA, b: RGBA, f: Factor)
    ensures f.num == 0 ==> BlendRGBA(a, b, f) == a
    ensures f.num == f.den ==> BlendRGBA(a, b, f) == b
  {
    var c := BlendRGBA(a, b, f);
    forall k | 0 <= k < 4
      ensures f.num == 0 ==> Channel(c, k) == Channel(a, k)
      ensures f.num == f.den ==> Channel(c, k) == Channel(b, k)
    {
      BlendRGBAChannel(a, b, f, k);
      BlendChannelEndpoints(Channel(a, k), Channel(b, k), f);
      LowByteWraps(Channel(a, k));
      LowByteWraps(Channel(b, k));
    }
    if f.num == 0 {
      ChannelsDetermineColor(c, a);
    } else if f.num == f.den {
      ChannelsDetermineColor(c, b);
    }
  }

  /** With a factor in [0, 1] every channel, alpha included, lies between
      the channels of the two inputs. */
  lemma BlendBetween(a: RGBA, b: RGBA, f: Factor, k: nat)
    requires InUnitRange(f) && k < 4
    ensures var c := Channel(BlendRGBA(a, b, f), k);
      (Channel(a, k) <= c <= Channel(b, k)) || (Channel(b, k) <= c <= Channel(a, k))
  {
    BlendRGBAChannel(a, b, f, k);
    BlendChannelBetween(Channel(a, k), Channel(b, k), f);
    LowByteWraps(BlendChannel(Channel(a, k), Channel(b, k), f));
  }

  /** Swapping the colours and taking the complementary factor gives the
      same blend. */
  lemma BlendSymmetric(a: RGBA, b: RGBA, f: Factor)
    ensures BlendRGBA(a, b, f) == BlendRGBA(b, a, Ratio(f.den - f.num, f.den))
  {
    var g: Factor := Ratio(f.den - f.num, f.den);
    forall k | 0 <= k < 4
      ensures Channel(BlendRGBA(a, b, f), k) == Channel(BlendRGBA(b, a, g), k)
    {
      BlendRGBAChannel(a, b, f, k);
      BlendRGBAChannel(b, a, g, k);
      assert Mix(Channel(a, k), Channel(b, k), f) == Mix(Channel(b, k), Channel(a, k), g);
    }
    ChannelsDetermineColor(BlendRGBA(a, b, f), BlendRGBA(b, a, g));
  }
}
