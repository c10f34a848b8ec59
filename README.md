# Windows10Colors in Dafny

Windows10Colors is a small C++ library that reads the Windows 10 accent colour
and works out the colours for drawing custom window title bars and frames. It
gets its data from the WinRT `UISettings` object, from two registry keys
(`HKCU\SOFTWARE\Microsoft\Windows\DWM` and `...\CurrentVersion\Themes\Personalize`),
from `GetSysColor` and from the high-contrast setting. DumpWin10Colors is a
console tool; it prints a colour as four decimal bytes and an `HRESULT` as hex.

This project models the colour logic of the library and the two printers of the
tool, and proves properties of them. Every operating-system query is replaced by
its outcome, which the model takes as an input. What is left:

- Packing: bytes go into and out of the 32-bit `RGBA` value, which has red in the
  low byte and alpha in the high byte (`ToRGBA`, the BGRA→RGBA swizzle of the
  DWM colorization value, `| 0xff000000`).
- Ordered fill: `GetAccentColor` writes the seven shades one by one and returns
  at the first failing `HRESULT`.
- Status logic in `GetDwmColors`: an early return when the key does not open;
  when both reads fail, the last failing read's error wins.
- Decisions: the precedence in `ColoredTitleBars`, the caption brightness rule
  `2R + 5G + B <= 1024`, and the choice of each of the six frame colours in
  `GetSystemFrameColors`, `GetAccentedFrameColors` and `GetFrameColors`.
- Blending: `BlendRGBA`, a per-channel interpolation that truncates toward zero.
- Printing: `output_RGBA`, `output_HRESULT` and the `SysPartsMode` names.

The modules follow the source files:

- `Win32` (`win32.dfy`): `DWORD`, `LONG` and `HRESULT` values, `FAILED`,
  `HRESULT_FROM_WIN32` (as winerror.h defines it), and the outcome of a registry
  read or key open.
- `ColorTypes` (`colortypes.dfy`), the header:
  - the `RGBA` layout and its channel accessors;
  - the `AccentColor` and `FrameColors` structs, as classes whose fields the
    functions write.
- `Blend` (`blend.dfy`): `BlendRGBA`.
- `Windows10Colors` (`windows10colors.dfy`): the functions of Windows10Colors.cpp.
  - The ones that fill an out-parameter step by step are methods: `GetAccentColor`,
    `GetDwmColors`, `GetSystemFrameColors`, `GetAccentedFrameColors` and
    `GetFrameColors`.
  - Each method is proved against a function of its inputs.
- `DumpWin10Colors` (`dumpwin10colors.dfy`): the printers of DumpWin10Colors.cpp,
  each with a parser that reads its text back.

Modelling choices:

- Integers are unbounded. The source's 32-bit values are subset types, and its
  bit operations are written with division and remainder. A `|` of disjoint
  bit fields is an addition.
- The `float` factor of `BlendRGBA` is an exact fraction:
  - `0.6f` is 3/5;
  - `balance * 0.01f` is balance/100.
- `static_cast<int>` truncates the exact value toward zero. The `(BYTE)` casts
  of the `RGB` macro, and the `<< 24` of the alpha, keep the low byte.
- Uninitialised C++ locals (`AccentColor ac`, `DwmColors dwmColors`) start at
  zero. The code reads them only after it has written them.

Behaviour of the code that the model keeps as written:

- `GetAccentColor` takes all seven shades from WinRT or fails with the first
  failing `HRESULT`; it computes no shade itself and falls back to no other
  colour source.
- The glass fill colour is opaque white `0xffffffff`.
- In `GetAccentedFrameColors`, `inactiveCaptionBG` is `0xffffffff` whether or
  not glass is on. Under high contrast it is the opaque `COLOR_INACTIVECAPTION`.
- Under high contrast, the active frame takes `COLOR_CAPTIONTEXT` and the
  inactive frame takes `COLOR_INACTIVECAPTIONTEXT`.

## Model

| member | source | states |
|---|---|---|
| Win32.HresultFromWin32 | Windows10Colors/Windows10Colors.cpp:209 | `S_OK` exactly for `ERROR_SUCCESS`; every other code gives a failing `HRESULT`; non-positive codes pass through; positive codes become `0x8007xxxx` with the code's low 16 bits |
| Win32.Failed | Windows10Colors/Windows10Colors.cpp:317 | the `FAILED` macro: the sign bit of the `HRESULT` is set (no contract of its own) |
| Win32.Succeeded | Windows10Colors/Windows10Colors.cpp:344 | the `SUCCEEDED` macro: not `FAILED` (no contract of its own) |
| Win32.ToUInt32 | DumpWin10Colors/DumpWin10Colors.cpp:20 | the two's-complement reading of a signed 32-bit value as unsigned, as `%x` prints it |
| Win32.ToInt32 | Windows10Colors/Windows10Colors.cpp:198 | `static_cast<int>` of a DWORD is the signed value with the same 32 bits |
| Win32.ToInt32OfToUInt32 | Windows10Colors/Windows10Colors.cpp:198 | unsigned then signed reinterpretation gives the signed value back |
| ColorTypes.GetRValue | Windows10Colors/Windows10Colors.cpp:238 | red, byte 0 of a colour (no contract of its own; see `ColorTypes.UnpackPack`) |
| ColorTypes.GetGValue | Windows10Colors/Windows10Colors.cpp:239 | green, byte 1 of a colour (no contract of its own; see `ColorTypes.UnpackPack`) |
| ColorTypes.GetBValue | Windows10Colors/Windows10Colors.cpp:240 | blue, byte 2 of a colour (no contract of its own; see `ColorTypes.UnpackPack`) |
| ColorTypes.AlphaValue | Windows10Colors/Windows10Colors.cpp:236-237 | alpha, byte 3 of a colour, as `(a >> 24) & 0xff` (no contract of its own; see `ColorTypes.UnpackPack`) |
| ColorTypes.Rgb | Windows10Colors/Windows10Colors.cpp:238-240 | the `RGB` macro packing three bytes (no contract of its own; its channels are stated by `ColorTypes.RgbChannels`) |
| ColorTypes.MakeRGBA | Windows10Colors/Windows10Colors.cpp:146 | `RGB(r, g, b) \| (a << 24)` (no contract of its own; its channels are stated by `ColorTypes.MakeRGBAChannels`) |
| ColorTypes.RgbChannels | Windows10Colors/Windows10Colors.cpp:146 | the `RGB` macro puts red, green and blue in bytes 0, 1 and 2 and leaves byte 3 zero |
| ColorTypes.MakeRGBAChannels | Windows10Colors/Windows10Colors.cpp:146 | `RGB(r, g, b) \| (a << 24)` returns each of the four components from its own byte |
| ColorTypes.UnpackPack | Windows10Colors/Windows10Colors.h:33-37 | every `RGBA` value is the packing of its own four bytes, red in the LSB and alpha in the MSB |
| ColorTypes.ChannelsDetermineColor | Windows10Colors/Windows10Colors.h:33-37 | two colours with the same four bytes are equal |
| ColorTypes.LowByte | Windows10Colors/Windows10Colors.cpp:238-241 | the `(BYTE)` cast (no contract of its own; stated by `ColorTypes.LowByteWraps`) |
| ColorTypes.WithOpaqueAlpha | Windows10Colors/Windows10Colors.cpp:246-251 | `c \| 0xff000000` (no contract of its own; stated by `ColorTypes.WithOpaqueAlphaChannels`) |
| ColorTypes.LowByteWraps | Windows10Colors/Windows10Colors.cpp:238-241 | the `(BYTE)` cast keeps a value modulo 256 and leaves a byte unchanged |
| ColorTypes.WithOpaqueAlphaChannels | Windows10Colors/Windows10Colors.cpp:246-251 | `c \| 0xff000000` sets alpha to 0xff and keeps red, green and blue |
| ColorTypes.AccentColor.constructor | Windows10Colors/Windows10Colors.h:40-56 | the `AccentColor` struct with its seven shade fields; a new one holds zero in every shade |
| ColorTypes.AccentColor.InFillOrder | Windows10Colors/Windows10Colors.h:40-56 | the seven shade fields, darkest to lightest (no contract of its own; tied to the query order by `Windows10Colors.QueryOrderIsFillOrder`) |
| ColorTypes.FrameColors.constructor | Windows10Colors/Windows10Colors.h:65-85 | the `FrameColors` struct with its six colour fields; a new one holds zero in every field |
| ColorTypes.FrameColors.Value | Windows10Colors/Windows10Colors.h:65-85 | the six fields as one `Frame` value (no contract of its own) |
| Blend.TruncDivBounds | Windows10Colors/Windows10Colors.cpp:238-241 | `static_cast<int>` of a quotient is the multiple nearest to it on the side of zero |
| Blend.TruncDiv | Windows10Colors/Windows10Colors.cpp:238-241 | `static_cast<int>` of an exact quotient, truncating toward zero (no contract of its own; stated by `Blend.TruncDivBounds`) |
| Blend.BlendChannel | Windows10Colors/Windows10Colors.cpp:238-241 | one channel of the blend, `ca * (1 - f) + cb * f` truncated, before the cast to a byte (no contract of its own; stated by `Blend.BlendChannelBetween`, `Blend.BlendChannelSame` and `Blend.BlendChannelEndpoints`) |
| Blend.BlendRGBA | Windows10Colors/Windows10Colors.cpp:232-242 | the per-channel blend with an exact-fraction factor (no contract of its own; stated by `Blend.BlendRGBAChannel` and the lemmas below) |
| Blend.BlendRGBAChannel | Windows10Colors/Windows10Colors.cpp:232-242 | each channel of the blend, alpha included, is the truncated `ca * (1 - f) + cb * f` cut to a byte |
| Blend.BlendChannelBetween | Windows10Colors/Windows10Colors.cpp:238-241 | for the exact-fraction blend and a factor in [0, 1], a blended channel lies between the two input channels |
| Blend.BlendSharedChannel | Windows10Colors/Windows10Colors.cpp:238-241 | for the exact-fraction blend, a channel that both colours share comes out unchanged, for any factor |
| Blend.BlendChannelEndpoints | Windows10Colors/Windows10Colors.cpp:234-235 | at factor 0 a channel is the first input's; at factor 1 it is the second's |
| Blend.BlendEndpoints | Windows10Colors/Windows10Colors.cpp:232-242 | `BlendRGBA(a, b, 0) == a` and `BlendRGBA(a, b, 1) == b` |
| Blend.BlendBetween | Windows10Colors/Windows10Colors.cpp:232-242 | for the exact-fraction blend and a factor in [0, 1], every channel of the blend lies between those of the inputs, so no cast wraps |
| Blend.BlendSymmetric | Windows10Colors/Windows10Colors.cpp:234-235 | for the exact-fraction blend, swapping the colours and taking the factor `1 - f` gives the same blend |
| Windows10Colors.ToRGBA | Windows10Colors/Windows10Colors.cpp:144-147 | the packing of a WinRT `Color` (no contract of its own; stated by `Windows10Colors.ToRGBAChannels` and `Windows10Colors.ToRGBABijective`) |
| Windows10Colors.ToRGBAChannels | Windows10Colors/Windows10Colors.cpp:144-147 | `ToRGBA` puts R, G, B and A in bytes 0, 1, 2 and 3; each byte gives its component back |
| Windows10Colors.ToRGBABijective | Windows10Colors/Windows10Colors.cpp:144-147 | `ToRGBA` is injective and reaches every `RGBA` value |
| Windows10Colors.QueryOrderIsFillOrder | Windows10Colors/Windows10Colors.cpp:165-178 | the i-th `GetColorValue` query (AccentDark3 … AccentLight3) fills the i-th shade from darkest to lightest |
| Windows10Colors.SucceededPrefix | Windows10Colors/Windows10Colors.cpp:165-178 | the number of leading queries that succeed; the query after them, if any, failed |
| Windows10Colors.ShadesWritten | Windows10Colors/Windows10Colors.cpp:151-178 | no shade is written when obtaining the settings object fails |
| Windows10Colors.AccentStatus | Windows10Colors/Windows10Colors.cpp:149-182 | the `HRESULT` of the first failing step, `S_OK` when none fails (no contract of its own; stated by `Windows10Colors.AccentStatusOk` and `Windows10Colors.AccentFirstFailure`) |
| Windows10Colors.AccentFill | Windows10Colors/Windows10Colors.cpp:165-178 | the seven shades after the fill; keeps their number (its elements are stated by `Windows10Colors.AccentFillElements`) |
| Windows10Colors.AccentFillElements | Windows10Colors/Windows10Colors.cpp:165-178 | shade i is the i-th queried colour when that query was reached and succeeded; otherwise it keeps its old value |
| Windows10Colors.AccentStatusOk | Windows10Colors/Windows10Colors.cpp:149-182 | `S_OK` exactly when activation and all seven queries succeed; any success is `S_OK`; success exactly when all seven shades are written |
| Windows10Colors.AccentFirstFailure | Windows10Colors/Windows10Colors.cpp:165-178 | the first failing query's `HRESULT` is returned, and exactly the shades before it are written |
| Windows10Colors.AccentSuccessWritesAll | Windows10Colors/Windows10Colors.cpp:165-180 | after success every shade holds its queried colour, whatever it held before |
| Windows10Colors.AccentShadesByType | Windows10Colors/Windows10Colors.cpp:165-178 | after the fill, the field that the i-th query type names holds the i-th answer when that query was reached and succeeded, and its old value otherwise |
| Windows10Colors.AccentOf | Windows10Colors/Windows10Colors.cpp:327 | the base accent shade `ac.accent` after a successful `GetAccentColor`: the packed answer of the `Accent` query (no contract of its own) |
| Windows10Colors.GetAccentColor | Windows10Colors/Windows10Colors.cpp:149-182 | returns the status of the first failing step; the shades become the ordered fill of the query results, and the rest keep their values |
| Windows10Colors.BgraToRgba | Windows10Colors/Windows10Colors.cpp:216-219 | the BGRA→RGBA swizzle (no contract of its own; stated by `Windows10Colors.BgraToRgbaChannels` and `Windows10Colors.BgraToRgbaInvolution`) |
| Windows10Colors.BgraToRgbaChannels | Windows10Colors/Windows10Colors.cpp:217-219 | the swizzle swaps bytes 0 and 2 and keeps bytes 1 and 3 (alpha) |
| Windows10Colors.BgraToRgbaInvolution | Windows10Colors/Windows10Colors.cpp:217-219 | applying the swizzle twice is the identity |
| Windows10Colors.AfterRead | Windows10Colors/Windows10Colors.cpp:213-226 | a successful read keeps the status; a failed read replaces it with that read's failing `HRESULT_FROM_WIN32` |
| Windows10Colors.DwmColors.constructor | Windows10Colors/Windows10Colors.cpp:184-188 | the `DwmColors` struct with the colorization colour and its balance; a new one holds zero in both |
| Windows10Colors.DwmStatus | Windows10Colors/Windows10Colors.cpp:205-230 | the `HRESULT` of `GetDwmColors` (no contract of its own; stated by `Windows10Colors.DwmStatusCases`) |
| Windows10Colors.DwmStatusCases | Windows10Colors/Windows10Colors.cpp:205-230 | fails exactly when the key open or either read fails; success is `S_OK`; an open failure returns its error; the balance read's error wins over the colour read's |
| Windows10Colors.DwmReadingOf | Windows10Colors/Windows10Colors.cpp:211-226 | a DWM reading exists exactly when `GetDwmColors` succeeds |
| Windows10Colors.GetDwmColors | Windows10Colors/Windows10Colors.cpp:205-230 | nothing is written when the key does not open; each field is written only when its own read succeeds; on success the fields are the swizzled colour and the signed balance |
| Windows10Colors.BalanceFactor | Windows10Colors/Windows10Colors.cpp:350 | `balance * 0.01f` is balance/100, in [0, 1] exactly for balances 0..100 |
| Windows10Colors.SystemFrame | Windows10Colors/Windows10Colors.cpp:244-255 | the six colours `GetSystemFrameColors` writes (no contract of its own; stated by `Windows10Colors.SystemFrameOpaque`) |
| Windows10Colors.SystemFrameOpaque | Windows10Colors/Windows10Colors.cpp:244-255 | all six system-colour frame colours are opaque; the active frame is the caption-text colour; the inactive frame is the opaque inactive caption-text colour |
| Windows10Colors.GetSystemFrameColors | Windows10Colors/Windows10Colors.cpp:244-255 | always `S_OK`, and the fields become the opaque system colours and the 0.6 blend |
| Windows10Colors.FirstPresent | Windows10Colors/Windows10Colors.cpp:281-308 | the first present entry, or none exactly when every entry is missing |
| Windows10Colors.ColoredTitleBars | Windows10Colors/Windows10Colors.cpp:281-308 | the title-bar setting (no contract of its own; stated by `Windows10Colors.ColoredTitleBarsFirstReadable`) |
| Windows10Colors.ColoredTitleBarsFirstReadable | Windows10Colors/Windows10Colors.cpp:281-308 | `flag != 0` for the first readable `ColorPrevalence` (DWM key before Personalize key), and false when neither is readable |
| Windows10Colors.CaptionLuminance | Windows10Colors/Windows10Colors.cpp:334 | the brightness sum `2R + 5G + B` lies in 0..2040 |
| Windows10Colors.CaptionTextFor | Windows10Colors/Windows10Colors.cpp:334-335 | caption text is opaque white when `2R + 5G + B <= 1024` and opaque black otherwise; never anything else |
| Windows10Colors.CaptionTextMonotone | Windows10Colors/Windows10Colors.cpp:334-335 | a background at least as bright in every channel never changes black text to white |
| Windows10Colors.CaptionTextExtremes | Windows10Colors/Windows10Colors.cpp:334-335 | a white background gets black text; a black background gets white text |
| Windows10Colors.ActiveCaptionBG | Windows10Colors/Windows10Colors.cpp:321-332 | the caption background choice (no contract of its own; stated by `Windows10Colors.AccentedCaption`) |
| Windows10Colors.DwmFrameColor | Windows10Colors/Windows10Colors.cpp:346-350 | the DWM blend of the active frame (no contract of its own; stated by `Windows10Colors.DwmFrameColorBlend`) |
| Windows10Colors.ActiveFrame | Windows10Colors/Windows10Colors.cpp:337-357 | the active frame choice (no contract of its own; stated by `Windows10Colors.AccentedActiveFrame`) |
| Windows10Colors.InactiveCaptionText | Windows10Colors/Windows10Colors.cpp:360-363 | the 0.6 blend of black into white (no contract of its own; stated by `Windows10Colors.InactiveCaptionTextValue`) |
| Windows10Colors.AccentedFrame | Windows10Colors/Windows10Colors.cpp:319-365 | the six colours `GetAccentedFrameColors` writes on success (no contract of its own; stated by `Windows10Colors.AccentedCaption`, `Windows10Colors.AccentedActiveFrame` and `Windows10Colors.AccentedInactive`) |
| Windows10Colors.AccentedFrameOfFields | Windows10Colors/Windows10Colors.cpp:321-363 | six fields that hold the pieces each branch selects make up the accented frame |
| Windows10Colors.AccentedCaption | Windows10Colors/Windows10Colors.cpp:321-335 | the caption background is white under glass, the accent colour when title bars are coloured, and white otherwise; its text follows the brightness rule and is black whenever the background is white |
| Windows10Colors.AccentedActiveFrame | Windows10Colors/Windows10Colors.cpp:337-357 | the active frame is white under glass; otherwise it is the DWM blend when the DWM read succeeds and the accent colour when it fails |
| Windows10Colors.DwmFrameColorBlend | Windows10Colors/Windows10Colors.cpp:346-350 | for the exact-fraction blend, the DWM frame colour is opaque; balance 0 gives `0xffd9d9d9`; balance 100 gives the opaque colorization colour; a balance in between puts every channel between the two |
| Windows10Colors.AccentedInactive | Windows10Colors/Windows10Colors.cpp:359-363 | the inactive fields are always `0xffffffff`, `0x7f565656` and `0xff999999` |
| Windows10Colors.InactiveCaptionTextValue | Windows10Colors/Windows10Colors.cpp:360-363 | `BlendRGBA(0xff000000, 0xffffffff, 0.6)` is `0xff999999` |
| Windows10Colors.BlackAndWhiteChannels | Windows10Colors/Windows10Colors.cpp:331-335 | the bytes of opaque black `0xff000000` and opaque white `0xffffffff` |
| Windows10Colors.GetAccentedFrameColors | Windows10Colors/Windows10Colors.cpp:310-366 | if `GetAccentColor` fails, its error is returned and no field is written; otherwise the result is `S_OK` and the six fields are the accented frame for the glass flag, the title-bar setting, the accent and the DWM reading |
| Windows10Colors.HighContrastOn | Windows10Colors/Windows10Colors.cpp:371-373 | `SystemParametersInfo` succeeded and `HCF_HIGHCONTRASTON` is set (no contract of its own; used by `Windows10Colors.GetFrameColors`) |
| Windows10Colors.FrameStatus | Windows10Colors/Windows10Colors.cpp:368-379 | the `HRESULT` of `GetFrameColors` (no contract of its own; stated by `Windows10Colors.FrameStatusCases`) |
| Windows10Colors.ExpectedFrame | Windows10Colors/Windows10Colors.cpp:368-379 | the six colours `GetFrameColors` writes on success (no contract of its own; stated by `Windows10Colors.HighContrastIgnoresGlass` and the frame lemmas above) |
| Windows10Colors.GetFrameColors | Windows10Colors/Windows10Colors.cpp:368-379 | high contrast (query succeeded and `HCF_HIGHCONTRASTON` set) gives the system colours; otherwise the accented colours; a failure writes nothing |
| Windows10Colors.FrameStatusCases | Windows10Colors/Windows10Colors.cpp:368-379 | fails exactly outside high contrast when `GetAccentColor` fails, with its error; success is `S_OK` |
| Windows10Colors.FrameStatusIgnoresDwm | Windows10Colors/Windows10Colors.cpp:337-357 | the DWM registry values never change the status of `GetFrameColors` |
| Windows10Colors.HighContrastIgnoresGlass | Windows10Colors/Windows10Colors.cpp:375-376 | under high contrast the glass flag has no effect |
| DumpWin10Colors.Snprintf | DumpWin10Colors/DumpWin10Colors.cpp:9-11 | at most `size - 1` characters of the formatted text survive, as a prefix; text that fits is kept whole |
| DumpWin10Colors.DigitCharValue | DumpWin10Colors/DumpWin10Colors.cpp:10 | each digit character reads back as its value; `%d` digits are `0`–`9` and `%x` digits are lower case |
| DumpWin10Colors.ParseDigitsOfDigits | DumpWin10Colors/DumpWin10Colors.cpp:10 | the decimal or hex digits of a number read back to the number |
| DumpWin10Colors.DigitsAreDigits | DumpWin10Colors/DumpWin10Colors.cpp:10 | a conversion writes at least one character, and every character is a digit |
| DumpWin10Colors.DigitsLength | DumpWin10Colors/DumpWin10Colors.cpp:10 | a number below base^k has at most k digits |
| DumpWin10Colors.Digits | DumpWin10Colors/DumpWin10Colors.cpp:10 | the digits of an unsigned conversion in base 10 or 16, without leading zeros (no contract of its own; stated by `DumpWin10Colors.ParseDigitsOfDigits`, `DumpWin10Colors.DigitsAreDigits` and `DumpWin10Colors.DigitsLength`) |
| DumpWin10Colors.Decimal | DumpWin10Colors/DumpWin10Colors.cpp:10 | the `%d` conversion of a non-negative value (no contract of its own; stated by `DumpWin10Colors.DecimalByteLength`) |
| DumpWin10Colors.DecimalByteLength | DumpWin10Colors/DumpWin10Colors.cpp:10 | a byte prints as 1 to 3 decimal digits |
| DumpWin10Colors.RgbaText | DumpWin10Colors/DumpWin10Colors.cpp:10 | the text of `"%d, %d, %d, %d"` for the four bytes (no contract of its own; read back by `DumpWin10Colors.ParseOutputRgba`) |
| DumpWin10Colors.OutputRgba | DumpWin10Colors/DumpWin10Colors.cpp:7-12 | `output_RGBA` (no contract of its own; stated by `DumpWin10Colors.OutputRgbaNotTruncated` and `DumpWin10Colors.ParseOutputRgba`) |
| DumpWin10Colors.OutputRgbaNotTruncated | DumpWin10Colors/DumpWin10Colors.cpp:7-12 | the four bytes always fit the 19-byte buffer (7 to 18 characters), so `output_RGBA` never truncates |
| DumpWin10Colors.OutputRgbaWhite | DumpWin10Colors/DumpWin10Colors.cpp:9-10 | opaque white prints as `255, 255, 255, 255`, the longest text at 18 characters |
| DumpWin10Colors.LeadingDigitsOfConcat | DumpWin10Colors/DumpWin10Colors.cpp:10 | the digit run of a number followed by `, ` is exactly the number's digits |
| DumpWin10Colors.ParseByteOfDecimal | DumpWin10Colors/DumpWin10Colors.cpp:10 | one printed byte and its separator read back to the byte and the rest of the text |
| DumpWin10Colors.ParseOutputRgba | DumpWin10Colors/DumpWin10Colors.cpp:7-12 | the text of `output_RGBA` (R, G, B, A in decimal, separated by `, `) reads back to the same colour |
| DumpWin10Colors.OutputRgbaInjective | DumpWin10Colors/DumpWin10Colors.cpp:7-12 | two colours print the same exactly when they are equal |
| DumpWin10Colors.ParseDigitsLeadingZeros | DumpWin10Colors/DumpWin10Colors.cpp:20 | the zero padding of `%08x` does not change the value |
| DumpWin10Colors.Hex08 | DumpWin10Colors/DumpWin10Colors.cpp:20 | the `%08x` conversion (no contract of its own; stated by `DumpWin10Colors.Hex08OfDword`) |
| DumpWin10Colors.OutputHresult | DumpWin10Colors/DumpWin10Colors.cpp:14-22 | `output_HRESULT` (no contract of its own; stated by `DumpWin10Colors.OutputHresultEmpty`, `DumpWin10Colors.OutputHresultFormat` and `DumpWin10Colors.ParseOutputHresult`) |
| DumpWin10Colors.Hex08OfDword | DumpWin10Colors/DumpWin10Colors.cpp:20 | a 32-bit value prints as exactly eight lower-case hex digits, which read back to the value |
| DumpWin10Colors.OutputHresultEmpty | DumpWin10Colors/DumpWin10Colors.cpp:14-17 | `output_HRESULT` is empty exactly when `hr == S_OK` |
| DumpWin10Colors.OutputHresultFormat | DumpWin10Colors/DumpWin10Colors.cpp:19-21 | any other `hr` prints as `result: 0x` and eight zero-padded lower-case hex digits, 18 characters, untruncated |
| DumpWin10Colors.ParseOutputHresult | DumpWin10Colors/DumpWin10Colors.cpp:14-22 | the text of `output_HRESULT` reads back to the same `HRESULT`, negative values included |
| DumpWin10Colors.SysPartsName | DumpWin10Colors/DumpWin10Colors.cpp:24-39 | the name `operator<<` prints for a mode (no contract of its own; stated by `DumpWin10Colors.SysPartsNameRoundTrip`) |
| DumpWin10Colors.SysPartsNameRoundTrip | DumpWin10Colors/DumpWin10Colors.cpp:24-39 | each mode prints under its own name (`AccentColor`, `Dark`, `Light`), and only those names read back as a mode |
| DumpWin10Colors.SysPartsNamesDistinct | DumpWin10Colors/DumpWin10Colors.cpp:24-39 | different modes print different names |

## Left out

- The WinRT loader (Windows10Colors/Windows10Colors.cpp:45-114) is not modelled: the
  `LoadLibraryW`/`GetProcAddress` calls, the once-only initialisation and the
  destructor. It is DLL plumbing with process-global state.
- `HStringRef`, `ActivateInstance` and the COM `As` calls are not modelled. Their
  combined outcome is one input, the activation `HRESULT` of `WinRTSettings`;
  the null-interface case (`E_FAIL`) is one such value.
- The `E_NOTIMPL` branch is not modelled. It is compiled only without the
  Windows 10 SDK.
- Registry access (`RegOpenKeyExW`, `RegGetValueW`, `QueryFromDWORD`, `HKEYWrapper`,
  `RegCloseKey`), `GetSysColor` and `SystemParametersInfo` are inputs. Those
  inputs are their outcomes: an open key or an error code, a value or an error
  code, four system colours, and the high-contrast result.
- Each registry key is one snapshot. `ColoredTitleBars` and `GetDwmColors` open the
  DWM key separately, so a change to the registry between the two opens is not
  modelled.
- Win32.HresultFromWin32: this is the concrete winerror.h definition. The library
  only relies on a nonzero code giving a failing value, and that is proved.
- Blend.BlendRGBA: IEEE single-precision rounding is not modelled. `0.6f` and
  `balance * 0.01f` are exact fractions.
  - For `0.6f` and for balances 0 to 100, a channel may differ by at most one
    from the compiled code.
  - The balance comes from the registry unclamped, and for a large |balance|
    the difference is not bounded. From a balance of about 8000000, 255 blended
    with 255 computes 256.0 in single precision, so the alpha byte is 0x00 where
    the model gives 0xff. At 10^9, channels can differ by up to 255.
  `static_cast<int>` of a float out of `int` range is undefined in C++ and has no
  counterpart here.
- Blend.BlendChannelBetween: holds for the exact fraction only. In single
  precision two equal channels can come out one lower: at balance 4, channels 3
  and 3 blend to 2.
- Blend.BlendSharedChannel: holds for the exact fraction only. In single
  precision, at balance 4 a shared channel 217 comes out 216 and a shared alpha
  255 comes out 254.
- Blend.BlendBetween: holds for the exact fraction only. In single precision a
  channel both colours share can come out one below both of them (balance 4).
- Blend.BlendSymmetric: holds for the exact fraction only. In single precision
  `1 - (1 - f)` is not `f`: at balance 1, channels 0 and 100 blend to 1 one way
  and to 0 with the colours swapped.
- Windows10Colors.DwmFrameColorBlend: holds for the exact fraction only. In
  single precision the active frame's alpha is `0xfe`, not `0xff`, at balances
  4, 18, 23 and 48, and a channel both colours share can drop by one.
- Uninitialised locals start at zero here. The code never reads them before
  writing them.
- The header declares `GetFrameColors(FrameColors&)`
  (Windows10Colors/Windows10Colors.h:94), but the definition takes an extra
  `bool glassEffect`. The model follows the two-parameter definition.
- `main` of DumpWin10Colors.cpp is not modelled. It does console output and calls
  `GetAppDarkModeEnabled`, `GetSysPartsDarkModeEnabled` and `GetSysPartsMode`,
  which are not part of this model. The `std::ostream` of `operator<<` is the
  printed name.
- DumpWin10Colors.SysPartsName: only the three declared `SysPartsMode` values are
  modelled. An out-of-range enum value, for which the switch prints nothing, has
  no counterpart.
- ManualWinRT/ManualWinRT.cpp is not part of this model. It is a demo program that
  writes to the console and the clipboard.
