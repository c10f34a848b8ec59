/** The text formatting of the DumpWin10Colors tool: a colour as four
    decimal bytes, an HRESULT as zero-padded hexadecimal, and the names of
    the SysPartsMode values.  Both number formatters go through snprintf
    into a 19-byte buffer, which is modelled as a cut of the formatted text
    to 18 characters. */
module DumpWin10Colors {
  import opened Wrappers
  import opened Win32
  import opened ColorTypes

  // ---------------------------------------------------------------------
  // snprintf into a fixed buffer

  /** `char buf[19]`, the buffer both formatters use. */
  const BUFFER_SIZE: nat := 19

  /** snprintf(buf, size, ...) followed by reading buf back as a string:
      at most size - 1 characters of the formatted text survive, the last
      byte being the terminating NUL. */
  function Snprintf(size: nat, text: string): (s: string)
    requires size > 0
    ensures |s| <= size - 1 && s <= text
    ensures |text| < size ==> s == text
    ensures |text| >= size ==> |s| == size - 1
  {
    if |text| < size then text else text[..size - 1]
  }

  // ---------------------------------------------------------------------
  // Digits in base 10 (`%d`) and base 16 (`%x`)

  /** The digit character of `%d` and lower-case `%x` for d: '0' to '9',
      then 'a' to 'f'. */
  function DigitChar(d: nat): char
    requires d < 16
  {
    if d < 10 then ('0' as int + d) as char else ('a' as int + d - 10) as char
  }

  /** The value of a digit character; other characters count as 0. */
  function DigitValue(ch: char): (d: nat)
    ensures d < 16
  {
    if '0' <= ch <= '9' then ch as int - '0' as int
    else if 'a' <= ch <= 'f' then ch as int - 'a' as int + 10
    else 0
  }

  predicate IsDecimalDigit(ch: char) { '0' <= ch <= '9' }

  predicate IsHexDigit(ch: char) { '0' <= ch <= '9' || 'a' <= ch <= 'f' }

  lemma DigitCharValue(d: nat)
    requires d < 16
    ensures DigitValue(DigitChar(d)) == d
    ensures IsHexDigit(DigitChar(d))
    ensures IsDecimalDigit(DigitChar(d)) <==> d < 10
  {
  }

  /** The digits of n in base b, most significant first, with no leading
      zeros ("0" for zero), as printf writes an unsigned conversion. */
  function Digits(n: nat, base: nat): (s: string)
    requires 2 <= base <= 16
    decreases n
  {
    if n < base then [DigitChar(n)] else Digits(n / base, base) + [DigitChar(n % base)]
  }

  /** The value of a string of digits in base b. */
  function ParseDigits(s: string, base: nat): nat {
    if s == [] then 0 else ParseDigits(s[..|s| - 1], base) * base + DigitValue(s[|s| - 1])
  }

  /** Parsing the digits of n gives n back. */
  lemma {:induction false} ParseDigitsOfDigits(n: nat, base: nat)
    requires base == 10 || base == 16
    ensures ParseDigits(Digits(n, base), base) == n
    decreases n
  {
    var s := Digits(n, base);
    if n < base {
      DigitCharValue(n);
      assert s[..|s| - 1] == [];
      assert ParseDigits(s, base) == 0 * base + n;
    } else {
      var q, r := n / base, n % base;
      ParseDigitsOfDigits(q, base);
      DigitCharValue(r);
      assert ParseDigits(s, base) == q * base + r by {
        assert s == Digits(q, base) + [DigitChar(r)];
        assert s[..|s| - 1] == Digits(q, base);
        assert s[|s| - 1] == DigitChar(r);
      }
    }
  }

  /** Every character of Digits(n, base) is a digit below base. */
  lemma {:induction false} DigitsAreDigits(n: nat, base: nat)
    requires base == 10 || base == 16
    ensures |Digits(n, base)| >= 1
    ensures forall i :: 0 <= i < |Digits(n, base)| ==> IsHexDigit(Digits(n, base)[i])
    ensures base == 10 ==> forall i :: 0 <= i < |Digits(n, base)| ==> IsDecimalDigit(Digits(n, base)[i])
    decreases n
  {
    if n < base {
      DigitCharValue(n);
    } else {
      var q, r := n / base, n % base;
      DigitsAreDigits(q, base);
      DigitCharValue(r);
      var d := Digits(q, base);
      assert Digits(n, base) == d + [DigitChar(r)];
      assert forall i :: 0 <= i < |d| ==> Digits(n, base)[i] == d[i];
    }
  }

  function Pow(b: nat, k: nat): nat {
    if k == 0 then 1 else b * Pow(b, k - 1)
  }

  /** A number below base^k has at most k digits. */
  lemma {:induction false} DigitsLength(n: nat, base: nat, k: nat)
    requires (base == 10 || base == 16) && 1 <= k && n < Pow(base, k)
    ensures |Digits(n, base)| <= k
    decreases k
  {
    if n >= base {
      DigitsLength(n / base, base, k - 1);
    }
  }

  // ---------------------------------------------------------------------
  // output_RGBA

  function Decimal(n: nat): string {
    Digits(n, 10)
  }

  /** The text of `"%d, %d, %d, %d"` for bytes 0, 1, 2 and 3 (red, green,
      blue, alpha). */
  function RgbaText(c: RGBA): string {
    Decimal(GetRValue(c)) + ", " + Decimal(GetGValue(c)) + ", " +
    Decimal(GetBValue(c)) + ", " + Decimal(AlphaValue(c))
  }

  /** output_RGBA: RgbaText through the 19-byte buffer. */
  function OutputRgba(c: RGBA): string {
    Snprintf(BUFFER_SIZE, RgbaText(c))
  }

  /** A byte has at most three decimal digits. */
  lemma DecimalByteLength(n: Byte)
    ensures 1 <= |Decimal(n)| <= 3
  {
    DigitsAreDigits(n, 10);
    DigitsLength(n, 10, 3);
  }

  /** The four bytes always fit the buffer (at most 4 * 3 + 3 * 2 = 18
      characters), so output_RGBA never truncates. */
  lemma OutputRgbaNotTruncated(c: RGBA)
    ensures OutputRgba(c) == RgbaText(c)
    ensures 7 <= |OutputRgba(c)| <= BUFFER_SIZE - 1
  {
    DecimalByteLength(GetRValue(c));
    DecimalByteLength(GetGValue(c));
    DecimalByteLength(GetBValue(c));
    DecimalByteLength(AlphaValue(c));
  }

  /** Opaque white gives the longest text, exactly 18 characters. */
  lemma OutputRgbaWhite()
    ensures OutputRgba(WHITE) == "255, 255, 255, 255"
    ensures |OutputRgba(WHITE)| == BUFFER_SIZE - 1
  {
    assert GetRValue(WHITE) == 255 && GetGValue(WHITE) == 255;
    assert GetBValue(WHITE) == 255 && AlphaValue(WHITE) == 255;
    assert Decimal(255) == "255";
  }

  /** The number of leading decimal digits of s. */
  function LeadingDigits(s: string): (n: nat)
    ensures n <= |s|
  {
    if s == [] || !IsDecimalDigit(s[0]) then 0 else 1 + LeadingDigits(s[1..])
  }

  /** The digit run of `d + t` is d when d is all digits and t does not
      start with one. */
  lemma {:induction false} LeadingDigitsOfConcat(d: string, t: string)
    requires forall i :: 0 <= i < |d| ==> IsDecimalDigit(d[i])
    requires t == [] || !IsDecimalDigit(t[0])
    ensures LeadingDigits(d + t) == |d|
    decreases |d|
  {
    if d != [] {
      assert (d + t)[1..] == d[1..] + t;
      LeadingDigitsOfConcat(d[1..], t);
    }
  }

  /** Reads one decimal byte followed by the separator sep; returns the
      byte and what follows the separator. */
  function ParseByte(s: string, sep: string): Option<(Byte, string)> {
    var k := LeadingDigits(s);
    var n := ParseDigits(s[..k], 10);
    if k == 0 || n >= 0x100 || !(sep <= s[k..]) then None
    else Some((n, s[k + |sep|..]))
  }

  /** Reads the text output_RGBA writes back into a colour. */
  function ParseRgba(s: string): Option<RGBA> {
    match ParseByte(s, ", ")
    case None => None
    case Some((r, s1)) =>
      match ParseByte(s1, ", ")
      case None => None
      case Some((g, s2)) =>
        match ParseByte(s2, ", ")
        case None => None
        case Some((b, s3)) =>
          match ParseByte(s3, "")
          case None => None
          case Some((a, rest)) => if rest == [] then Some(MakeRGBA(r, g, b, a)) else None
  }

  /** One decimal byte and its separator read back. */
  lemma ParseByteOfDecimal(n: Byte, sep: string, rest: string)
    requires sep != [] ==> !IsDecimalDigit(sep[0])
    requires sep == [] ==> rest == [] || !IsDecimalDigit(rest[0])
    ensures ParseByte(Decimal(n) + sep + rest, sep) == Some((n, rest))
  {
    var d, s := Decimal(n), Decimal(n) + sep + rest;
    DigitsAreDigits(n, 10);
    assert s == d + (sep + rest);
    LeadingDigitsOfConcat(d, sep + rest);
    assert s[..|d|] == d;
    ParseDigitsOfDigits(n, 10);
    assert s[|d|..] == sep + rest;
    assert s[|d| + |sep|..] == rest;
  }

  /** output_RGBA loses nothing: its text reads back to the same colour, so
      different colours print differently. */
  lemma ParseOutputRgba(c: RGBA)
    ensures ParseRgba(OutputRgba(c)) == Some(c)
  {
    OutputRgbaNotTruncated(c);
    var r, g, b, a := GetRValue(c), GetGValue(c), GetBValue(c), AlphaValue(c);
    var s3 := Decimal(b) + ", " + Decimal(a);
    var s2 := Decimal(g) + ", " + s3;
    var s1 := Decimal(r) + ", " + s2;
    assert OutputRgba(c) == s1;
    ParseByteOfDecimal(r, ", ", s2);
    ParseByteOfDecimal(g, ", ", s3);
    ParseByteOfDecimal(b, ", ", Decimal(a));
    ParseByteOfDecimal(a, "", "");
    assert Decimal(a) + "" + "" == Decimal(a);
    UnpackPack(c);
  }

  lemma OutputRgbaInjective(c: RGBA, d: RGBA)
    ensures OutputRgba(c) == OutputRgba(d) <==> c == d
  {
    ParseOutputRgba(c);
    ParseOutputRgba(d);
  }

  // ---------------------------------------------------------------------
  // output_HRESULT

  /** `%08x`: the hexadecimal digits, zero-padded on the left to at least
      eight characters. */
  function Hex08(n: nat): (s: string) {
    var h := Digits(n, 16);
    if |h| < 8 then seq(8 - |h|, _ => '0') + h else h
  }

  const HRESULT_PREFIX: string := "result: 0x"

  /** output_HRESULT: nothing for S_OK, else `"result: 0x%08x"` of the
      HRESULT's 32 bits (a negative value prints in two's complement),
      through the 19-byte buffer. */
  function OutputHresult(hr: HResult): string {
    if hr == S_OK then "" else Snprintf(BUFFER_SIZE, HRESULT_PREFIX + Hex08(ToUInt32(hr)))
  }

  /** Leading zeros do not change the value of a digit string. */
  lemma {:induction false} ParseDigitsLeadingZeros(z: nat, s: string, base: nat)
    ensures ParseDigits(seq(z, _ => '0') + s, base) == ParseDigits(s, base)
    decreases |s|, z
  {
    var zs := seq(z, _ => '0');
    if s == [] {
      if z > 0 {
        assert (zs + s)[..|zs + s| - 1] == seq(z - 1, _ => '0') + [];
        ParseDigitsLeadingZeros(z - 1, [], base);
      }
    } else {
      assert (zs + s)[..|zs + s| - 1] == zs + s[..|s| - 1];
      ParseDigitsLeadingZeros(z, s[..|s| - 1], base);
    }
  }

  /** A 32-bit value has exactly eight padded hex digits, all lower-case
      hex digits, and they read back to the value. */
  lemma Hex08OfDword(u: DWord)
    ensures |Hex08(u)| == 8
    ensures forall i :: 0 <= i < 8 ==> IsHexDigit(Hex08(u)[i])
    ensures ParseDigits(Hex08(u), 16) == u
  {
    var h := Digits(u, 16);
    assert Pow(16, 8) == 0x1_0000_0000;
    DigitsLength(u, 16, 8);
    DigitsAreDigits(u, 16);
    ParseDigitsOfDigits(u, 16);
    ParseDigitsLeadingZeros(8 - |h|, h, 16);
  }

  /** output_HRESULT is empty exactly for S_OK. */
  lemma OutputHresultEmpty(hr: HResult)
    ensures OutputHresult(hr) == "" <==> hr == S_OK
  {
    if hr != S_OK {
      Hex08OfDword(ToUInt32(hr));
    }
  }

  /** Any other HRESULT prints as "result: 0x" and eight lower-case hex
      digits, 18 characters, which fit the buffer untruncated. */
  lemma OutputHresultFormat(hr: HResult)
    requires hr != S_OK
    ensures OutputHresult(hr) == HRESULT_PREFIX + Hex08(ToUInt32(hr))
    ensures |OutputHresult(hr)| == BUFFER_SIZE - 1
    ensures OutputHresult(hr)[..10] == "result: 0x"
    ensures forall i :: 10 <= i < 18 ==> IsHexDigit(OutputHresult(hr)[i])
  {
    Hex08OfDword(ToUInt32(hr));
    var s := HRESULT_PREFIX + Hex08(ToUInt32(hr));
    assert forall i :: 10 <= i < 18 ==> s[i] == Hex08(ToUInt32(hr))[i - 10];
  }

  /** Reads output_HRESULT's text back: empty is S_OK, otherwise the prefix
      and eight hex digits, taken as the HRESULT's 32 bits. */
  function ParseHresult(s: string): Option<HResult> {
    if s == "" then Some(S_OK)
    else if |s| == 18 && s[..10] == HRESULT_PREFIX && forall i :: 10 <= i < 18 ==> IsHexDigit(s[i]) then
      var u := ParseDigits(s[10..], 16);
      if u < 0x1_0000_0000 then Some(ToInt32(u)) else None
    else None
  }

  /** output_HRESULT loses nothing: its text reads back to the HRESULT. */
  lemma ParseOutputHresult(hr: HResult)
    ensures ParseHresult(OutputHresult(hr)) == Some(hr)
  {
    if hr != S_OK {
      OutputHresultFormat(hr);
      var s := OutputHresult(hr);
      assert s[10..] == Hex08(ToUInt32(hr));
      Hex08OfDword(ToUInt32(hr));
      ToInt32OfToUInt32(hr);
    }
  }

  // ---------------------------------------------------------------------
  // SysPartsMode names

  /** The colour mode of system parts (taskbar, Start menu). */
  datatype SysPartsMode = AccentColor | Dark | Light

  /** The name operator<< writes for each mode. */
  function SysPartsName(mode: SysPartsMode): string {
    match mode
    case AccentColor => "AccentColor"
    case Dark => "Dark"
    case Light => "Light"
  }

  function ParseSysPartsName(s: string): Option<SysPartsMode> {
    if s == "AccentColor" then Some(SysPartsMode.AccentColor)
    else if s == "Dark" then Some(Dark)
    else if s == "Light" then Some(Light)
    else None
  }

  /** Each mode is written under its own name, and only those three names
      read back as a mode. */
  lemma SysPartsNameRoundTrip(mode: SysPartsMode, s: string)
    ensures ParseSysPartsName(SysPartsName(mode)) == Some(mode)
    ensures ParseSysPartsName(s) == Some(mode) <==> s == SysPartsName(mode)
  {
  }

  /** Different modes get different names. */
  lemma SysPartsNamesDistinct(m1: SysPartsMode, m2: SysPartsMode)
    ensures SysPartsName(m1) == SysPartsName(m2) <==> m1 == m2
  {
    SysPartsNameRoundTrip(m1, SysPartsName(m2));
  }
}
