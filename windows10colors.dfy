/** The colour logic of Windows10Colors.cpp.  Every operating-system query
    is replaced by its outcome, given as an input: the answers of the WinRT
    UISettings object, the two registry keys, GetSysColor and the
    high-contrast setting.  What remains is the packing of colour bytes,
    the order in which results are written and statuses combined, and the
    choice of each window-frame colour. */
module Windows10Colors {
  import opened Win32
  import opened Wrappers
  import opened ColorTypes
  import opened Blend

  // ---------------------------------------------------------------------
  // WinRT accent colours (GetAccentColor)

  /** Windows.UI.Color: alpha, red, green and blue bytes. */
  datatype UIColor = UIColor(a: Byte, r: Byte, g: Byte, b: Byte)

  /** ToRGBA: red, green, blue and alpha go to bytes 0, 1, 2 and 3. */
  function ToRGBA(color: UIColor): RGBA {
    MakeRGBA(color.r, color.g, color.b, color.a)
  }

  /** Each component of the WinRT colour lands in its own byte. */
  lemma ToRGBAChannels(color: UIColor)
    ensures GetRValue(ToRGBA(color)) == color.r && GetGValue(ToRGBA(color)) == color.g
    ensures GetBValue(ToRGBA(color)) == color.b && AlphaValue(ToRGBA(color)) == color.a
  {
    MakeRGBAChannels(color.r, color.g, color.b, color.a);
  }

  /** ToRGBA loses nothing and reaches every RGBA value. */
  lemma ToRGBABijective(x: UIColor, y: UIColor, c: RGBA)
    ensures ToRGBA(x) == ToRGBA(y) ==> x == y
    ensures ToRGBA(UIColor(AlphaValue(c), GetRValue(c), GetGValue(c), GetBValue(c))) == c
  {
    ToRGBAChannels(x);
    ToRGBAChannels(y);
    UnpackPack(c);
  }

  /** The accent entries of UIColorType that GetAccentColor asks for. */
  datatype UIColorType =
    AccentDark3 | AccentDark2 | AccentDark1 | Accent | AccentLight1 | AccentLight2 | AccentLight3

  /** The order of the GetColorValue calls. */
  const QUERY_ORDER: seq<UIColorType> :=
    [AccentDark3, AccentDark2, AccentDark1, Accent, AccentLight1, AccentLight2, AccentLight3]

  /** The AccentColor field that receives the colour of type t. */
  function ShadeOf(ac: AccentColor, t: UIColorType): RGBA
    reads ac
  {
    match t
    case AccentDark3 => ac.darkest
    case AccentDark2 => ac.darker
    case AccentDark1 => ac.dark
    case Accent => ac.accent
    case AccentLight1 => ac.light
    case AccentLight2 => ac.lighter
    case AccentLight3 => ac.lightest
  }

  /** The i-th query fills the i-th shade from darkest to lightest:
      darkest, darker, dark, accent, light, lighter, lightest. */
  lemma QueryOrderIsFillOrder(ac: AccentColor)
    ensures |QUERY_ORDER| == |ac.InFillOrder()|
    ensures forall i :: 0 <= i < 7 ==> ac.InFillOrder()[i] == ShadeOf(ac, QUERY_ORDER[i])
  {
  }

  /** The answer of IUISettings3::GetColorValue for one colour type: its
      status and, unless that is a failure, the colour. */
  datatype ColorValue = ColorValue(hr: HResult, color: UIColor)

  /** The WinRT side of GetAccentColor: the status of obtaining an
      IUISettings3 object (creating the class-name string, activating
      UISettings, querying the interface, and E_FAIL for a null interface,
      all early returns of a failing HRESULT), and the answers of the seven
      GetColorValue calls in QUERY_ORDER. */
  datatype WinRTSettings = WinRTSettings(activation: HResult, colorValues: seq<ColorValue>) {
    predicate Valid() { |colorValues| == |QUERY_ORDER| }
  }

  /** The number of leading calls that succeed, up to the first failure. */
  function SucceededPrefix(values: seq<ColorValue>): (n: nat)
    ensures n <= |values|
    ensures forall i :: 0 <= i < n ==> Succeeded(values[i].hr)
    ensures n < |values| ==> Failed(values[n].hr)
  {
    if values == [] || Failed(values[0].hr) then 0
    else 1 + SucceededPrefix(values[1..])
  }

  /** The number of shades GetAccentColor writes before it returns. */
  function ShadesWritten(s: WinRTSettings): (n: nat)
    ensures n <= |s.colorValues|
    ensures Failed(s.activation) ==> n == 0
  {
    if Failed(s.activation) then 0 else SucceededPrefix(s.colorValues)
  }

  /** The HRESULT GetAccentColor returns: that of the first failing step. */
  function AccentStatus(s: WinRTSettings): HResult {
    if Failed(s.activation) then s.activation
    else
      var n := SucceededPrefix(s.colorValues);
      if n < |s.colorValues| then s.colorValues[n].hr else S_OK
  }

  /** The shades, in fill order, after GetAccentColor: the first
      ShadesWritten(s) are the queried colours, the rest keep their value. */
  function AccentFill(prev: seq<RGBA>, s: WinRTSettings): (shades: seq<RGBA>)
    requires |prev| == |s.colorValues|
    ensures |shades| == |prev|
  {
    var n := ShadesWritten(s);
    seq(n, i requires 0 <= i < n => ToRGBA(s.colorValues[i].color)) + prev[n..]
  }

  /** Shade i is the i-th queried colour when the i-th query was reached
      and succeeded, and its previous value otherwise. */
  lemma AccentFillElements(prev: seq<RGBA>, s: WinRTSettings, i: nat)
    requires |prev| == |s.colorValues| && i < |prev|
    ensures AccentFill(prev, s)[i] == if i < ShadesWritten(s) then ToRGBA(s.colorValues[i].color) else prev[i]
  {
  }

  /** GetAccentColor returns S_OK exactly when the activation and all seven
      queries succeed, and a failure in every other case. */
  lemma AccentStatusOk(s: WinRTSettings)
    requires s.Valid()
    ensures AccentStatus(s) == S_OK <==>
      Succeeded(s.activation) && forall i :: 0 <= i < 7 ==> Succeeded(s.colorValues[i].hr)
    ensures Succeeded(AccentStatus(s)) <==> AccentStatus(s) == S_OK
    ensures Succeeded(AccentStatus(s)) <==> ShadesWritten(s) == 7
  {
  }

  /** The first failing query decides the result: its HRESULT is
      returned and exactly the shades before it are written. */
  lemma AccentFirstFailure(s: WinRTSettings, k: nat)
    requires s.Valid() && Succeeded(s.activation) && k < 7
    requires forall i :: 0 <= i < k ==> Succeeded(s.colorValues[i].hr)
    requires Failed(s.colorValues[k].hr)
    ensures AccentStatus(s) == s.colorValues[k].hr
    ensures ShadesWritten(s) == k
  {
  }

  /** After a successful GetAccentColor every shade holds its queried
      colour, whatever it held before. */
  lemma AccentSuccessWritesAll(prev: seq<RGBA>, s: WinRTSettings)
    requires s.Valid() && |prev| == 7 && Succeeded(AccentStatus(s))
    ensures forall i :: 0 <= i < 7 ==> AccentFill(prev, s)[i] == ToRGBA(s.colorValues[i].color)
  {
    AccentStatusOk(s);
    forall i | 0 <= i < 7
      ensures AccentFill(prev, s)[i] == ToRGBA(s.colorValues[i].color)
    {
      AccentFillElements(prev, s, i);
    }
  }

  /** Read through the field names: after the fill, the field that the
      i-th query type names holds the i-th answer when that query was
      reached and succeeded, and its previous value otherwise. */
  lemma AccentShadesByType(ac: AccentColor, prev: seq<RGBA>, s: WinRTSettings, i: nat)
    requires s.Valid() && |prev| == 7 && i < 7
    requires ac.InFillOrder() == AccentFill(prev, s)
    ensures ShadeOf(ac, QUERY_ORDER[i]) ==
      if i < ShadesWritten(s) then ToRGBA(s.colorValues[i].color) else prev[i]
  {
    QueryOrderIsFillOrder(ac);
    AccentFillElements(prev, s, i);
  }

  /** The base accent colour GetAccentColor delivers on success. */
  function AccentOf(s: WinRTSettings): RGBA
    requires s.Valid()
  {
    ToRGBA(s.colorValues[3].color)
  }

  /** Writes the shades in the order darkest, darker, dark, accent, light,
      lighter, lightest and returns at the first failing HRESULT. */
  method GetAccentColor(color: AccentColor, settings: WinRTSettings) returns (hr: HResult)
    requires settings.Valid()
    modifies color
    ensures hr == AccentStatus(settings)
    ensures color.InFillOrder() == AccentFill(old(color.InFillOrder()), settings)
  {
    var values := settings.colorValues;
    if Failed(settings.activation) {
      return settings.activation;
    }
    var v := values[0];
    if Failed(v.hr) { return v.hr; }
    color.darkest := ToRGBA(v.color);
    v := values[1];
    if Failed(v.hr) { return v.hr; }
    color.darker := ToRGBA(v.color);
    v := values[2];
    if Failed(v.hr) { return v.hr; }
    color.dark := ToRGBA(v.color);
    v := values[3];
    if Failed(v.hr) { return v.hr; }
    color.accent := ToRGBA(v.color);
    v := values[4];
    if Failed(v.hr) { return v.hr; }
    color.light := ToRGBA(v.color);
    v := values[5];
    if Failed(v.hr) { return v.hr; }
    color.lighter := ToRGBA(v.color);
    v := values[6];
    if Failed(v.hr) { return v.hr; }
    color.lightest := ToRGBA(v.color);
    return S_OK;
  }

  // ---------------------------------------------------------------------
  // DWM colours from the registry (GetDwmColors)

  /** The values of HKCU\SOFTWARE\Microsoft\Windows\DWM the code reads. */
  datatype DwmKey = DwmKey(
    colorizationColor: DwordRead,
    colorizationColorBalance: DwordRead,
    colorPrevalence: DwordRead)

  /** The value of HKCU\SOFTWARE\Microsoft\Windows\CurrentVersion\Themes\Personalize
      the code reads. */
  datatype PersonalizeKey = PersonalizeKey(colorPrevalence: DwordRead)

  /** DwmColors: the colorization colour and its balance. */
  class DwmColors {
    var colorizationColor: RGBA
    var colorizationColorBalance: Int32

    /** Left uninitialised in C++; zero here, and read only after a
        successful GetDwmColors has written both fields. */
    constructor ()
      ensures colorizationColor == 0 && colorizationColorBalance == 0
    {
      colorizationColor, colorizationColorBalance := 0, 0;
    }
  }

  /** ColorizationColor is stored as BGRA: bytes 0 and 2 trade places,
      bytes 1 and 3 (alpha) stay. */
  function BgraToRgba(c: DWord): RGBA {
    MakeRGBA(c / 0x1_0000 % 0x100, c / 0x100 % 0x100, c % 0x100, c / 0x100_0000)
  }

  /** The swizzle trades bytes 0 and 2 and keeps bytes 1 and 3. */
  lemma BgraToRgbaChannels(c: DWord)
    ensures GetRValue(BgraToRgba(c)) == GetBValue(c) && GetGValue(BgraToRgba(c)) == GetGValue(c)
    ensures GetBValue(BgraToRgba(c)) == GetRValue(c) && AlphaValue(BgraToRgba(c)) == AlphaValue(c)
  {
    MakeRGBAChannels(GetBValue(c), GetGValue(c), GetRValue(c), AlphaValue(c));
  }

  /** Converting twice gives the stored value back. */
  lemma BgraToRgbaInvolution(c: DWord)
    ensures BgraToRgba(BgraToRgba(c)) == c
  {
    var twice := BgraToRgba(BgraToRgba(c));
    BgraToRgbaChannels(c);
    BgraToRgbaChannels(BgraToRgba(c));
    assert Channel(twice, 0) == Channel(c, 0) && Channel(twice, 1) == Channel(c, 1);
    assert Channel(twice, 2) == Channel(c, 2) && Channel(twice, 3) == Channel(c, 3);
    ChannelsDetermineColor(twice, c);
  }

  /** The status of GetDwmColors after one more QueryFromDWORD: a failing
      read replaces it with that read's error, a successful read keeps it. */
  function AfterRead(hr: HResult, read: DwordRead): (next: HResult)
    ensures read.DwordValue? ==> next == hr
    ensures read.DwordError? ==> Failed(next) && next == HresultFromWin32(read.code)
  {
    match read
    case DwordValue(_) => hr
    case DwordError(code) => HresultFromWin32(code)
  }

  /** The HRESULT GetDwmColors returns. */
  function DwmStatus(key: KeyOpen<DwmKey>): HResult {
    match key
    case KeyOpenError(code) => HresultFromWin32(code)
    case KeyOpened(k) => AfterRead(AfterRead(S_OK, k.colorizationColor), k.colorizationColorBalance)
  }

  /** GetDwmColors fails when the key does not open or either read fails;
      when both reads fail, the balance read's error is the one returned. */
  lemma DwmStatusCases(key: KeyOpen<DwmKey>)
    ensures Failed(DwmStatus(key)) <==>
      key.KeyOpenError? || key.key.colorizationColor.DwordError? || key.key.colorizationColorBalance.DwordError?
    ensures Succeeded(DwmStatus(key)) ==> DwmStatus(key) == S_OK
    ensures key.KeyOpenError? ==> DwmStatus(key) == HresultFromWin32(key.code)
    ensures key.KeyOpened? && key.key.colorizationColorBalance.DwordError? ==>
      DwmStatus(key) == HresultFromWin32(key.key.colorizationColorBalance.code)
    ensures key.KeyOpened? && key.key.colorizationColor.DwordError? && key.key.colorizationColorBalance.DwordValue? ==>
      DwmStatus(key) == HresultFromWin32(key.key.colorizationColor.code)
  {
  }

  /** What a caller of GetDwmColors may use: both values, after success. */
  datatype DwmReading = DwmReading(colorization: RGBA, balance: Int32)

  function DwmReadingOf(key: KeyOpen<DwmKey>): (r: Option<DwmReading>)
    ensures r.Some? <==> Succeeded(DwmStatus(key))
  {
    DwmStatusCases(key);
    if Failed(DwmStatus(key)) then None
    else Some(DwmReading(BgraToRgba(key.key.colorizationColor.value),
                         ToInt32(key.key.colorizationColorBalance.value)))
  }

  /** Reads both DWM values from the registry: returns at once when the
      key does not open, writes each field only when its own read
      succeeds, and returns the error of the last failing read. */
  method GetDwmColors(colors: DwmColors, key: KeyOpen<DwmKey>) returns (hr: HResult)
    modifies colors
    ensures hr == DwmStatus(key)
    ensures key.KeyOpenError? ==> unchanged(colors)
    ensures key.KeyOpened? ==>
      (colors.colorizationColor ==
         match key.key.colorizationColor
         case DwordValue(c) => BgraToRgba(c)
         case DwordError(_) => old(colors.colorizationColor))
    ensures key.KeyOpened? ==>
      (colors.colorizationColorBalance ==
         match key.key.colorizationColorBalance
         case DwordValue(v) => ToInt32(v)
         case DwordError(_) => old(colors.colorizationColorBalance))
    ensures Succeeded(hr) ==>
      DwmReadingOf(key) == Some(DwmReading(colors.colorizationColor, colors.colorizationColorBalance))
  {
    if key.KeyOpenError? {
      return HresultFromWin32(key.code);
    }
    var keyDwm := key.key;
    hr := S_OK;
    var result := keyDwm.colorizationColor;
    if result.DwordValue? {
      colors.colorizationColor := BgraToRgba(result.value);
    } else {
      hr := HresultFromWin32(result.code);
    }
    result := keyDwm.colorizationColorBalance;
    if result.DwordValue? {
      colors.colorizationColorBalance := ToInt32(result.value);
    } else {
      hr := HresultFromWin32(result.code);
    }
    DwmStatusCases(key);
  }

  // ---------------------------------------------------------------------
  // Frame colours

  /** System colours GetSystemFrameColors reads with GetSysColor. */
  datatype SysColors = SysColors(
    activeCaption: DWord,
    captionText: DWord,
    inactiveCaption: DWord,
    inactiveCaptionText: DWord)

  /** 0.6f, the factor for the inactive caption text: 40% text colour,
      60% background. */
  const INACTIVE_TEXT_BLEND: Factor := Ratio(3, 5)

  /** `ColorizationColorBalance * 0.01f`: the balance as a percentage. */
  function BalanceFactor(balance: Int32): (f: Factor)
    ensures f.den == 100
    ensures 0 <= balance <= 100 <==> InUnitRange(f)
  {
    Ratio(balance, 100)
  }

  /** The frame colours GetSystemFrameColors writes. */
  function SystemFrame(sys: SysColors): (f: Frame) {
    var inactiveCaptionBG := WithOpaqueAlpha(sys.inactiveCaption);
    Frame(
      WithOpaqueAlpha(sys.captionText),
      WithOpaqueAlpha(sys.activeCaption),
      WithOpaqueAlpha(sys.captionText),
      BlendRGBA(WithOpaqueAlpha(sys.inactiveCaptionText), inactiveCaptionBG, INACTIVE_TEXT_BLEND),
      inactiveCaptionBG,
      WithOpaqueAlpha(sys.inactiveCaptionText))
  }

  /** Every colour GetSystemFrameColors produces is opaque; the active frame
      has the caption-text colour and the inactive frame the inactive
      caption-text colour. */
  lemma SystemFrameOpaque(sys: SysColors)
    ensures var f := SystemFrame(sys);
      && AlphaValue(f.activeCaptionText) == 0xff && AlphaValue(f.activeCaptionBG) == 0xff
      && AlphaValue(f.activeFrame) == 0xff && AlphaValue(f.inactiveCaptionText) == 0xff
      && AlphaValue(f.inactiveCaptionBG) == 0xff && AlphaValue(f.inactiveFrame) == 0xff
    ensures SystemFrame(sys).activeFrame == SystemFrame(sys).activeCaptionText
    ensures SystemFrame(sys).inactiveFrame == WithOpaqueAlpha(sys.inactiveCaptionText)
  {
    var f := SystemFrame(sys);
    BlendSharedChannel(WithOpaqueAlpha(sys.inactiveCaptionText), f.inactiveCaptionBG, INACTIVE_TEXT_BLEND, 3);
  }

  /** Frame colours from GetSysColor, alpha forced to 0xff; never fails. */
  method GetSystemFrameColors(color: FrameColors, sys: SysColors) returns (hr: HResult)
    modifies color
    ensures hr == S_OK
    ensures color.Value() == SystemFrame(sys)
  {
    color.activeCaptionBG := WithOpaqueAlpha(sys.activeCaption);
    color.activeCaptionText := WithOpaqueAlpha(sys.captionText);
    color.activeFrame := WithOpaqueAlpha(sys.captionText);
    color.inactiveCaptionBG := WithOpaqueAlpha(sys.inactiveCaption);
    var rawInactiveCaptionText := WithOpaqueAlpha(sys.inactiveCaptionText);
    color.inactiveFrame := WithOpaqueAlpha(sys.inactiveCaptionText);
    color.inactiveCaptionText := BlendRGBA(rawInactiveCaptionText, color.inactiveCaptionBG, INACTIVE_TEXT_BLEND);
    return S_OK;
  }

  /** The value of ColorPrevalence in a key, when the key opens and the
      value can be read. */
  function DwmPrevalence(key: KeyOpen<DwmKey>): Option<DWord> {
    if key.KeyOpened? && key.key.colorPrevalence.DwordValue? then Some(key.key.colorPrevalence.value) else None
  }

  function PersonalizePrevalence(key: KeyOpen<PersonalizeKey>): Option<DWord> {
    if key.KeyOpened? && key.key.colorPrevalence.DwordValue? then Some(key.key.colorPrevalence.value) else None
  }

  /** ColoredTitleBars: the DWM key (Windows 10 version 1607) is asked
      first, then the Personalize key (version 1511); default false. */
  function ColoredTitleBars(dwm: KeyOpen<DwmKey>, personalize: KeyOpen<PersonalizeKey>): bool {
    if dwm.KeyOpened? && dwm.key.colorPrevalence.DwordValue? then dwm.key.colorPrevalence.value != 0
    else if personalize.KeyOpened? && personalize.key.colorPrevalence.DwordValue? then
      personalize.key.colorPrevalence.value != 0
    else false
  }

  /** The first present entry of a list. */
  function FirstPresent(flags: seq<Option<DWord>>): (r: Option<DWord>)
    ensures r.None? <==> forall i :: 0 <= i < |flags| ==> flags[i].None?
    ensures r.Some? ==> exists i :: 0 <= i < |flags| && flags[i] == r && forall j :: 0 <= j < i ==> flags[j].None?
  {
    if flags == [] then None
    else if flags[0].Some? then flags[0]
    else
      var rest := FirstPresent(flags[1..]);
      assert forall i :: 1 <= i < |flags| ==> flags[i] == flags[1..][i - 1];
      rest
  }

  /** ColoredTitleBars is `flag != 0` for the first readable ColorPrevalence,
      DWM before Personalize, and false when neither is readable. */
  lemma ColoredTitleBarsFirstReadable(dwm: KeyOpen<DwmKey>, personalize: KeyOpen<PersonalizeKey>)
    ensures ColoredTitleBars(dwm, personalize) ==
      match FirstPresent([DwmPrevalence(dwm), PersonalizePrevalence(personalize)])
      case Some(flag) => flag != 0
      case None => false
  {
    var flags := [DwmPrevalence(dwm), PersonalizePrevalence(personalize)];
    if flags[0].None? && flags[1].Some? {
      var r := FirstPresent(flags);
      assert r == flags[1];
    }
  }

  /** The caption-text brightness sum 2R + 5G + B of a background. */
  function CaptionLuminance(bg: RGBA): (l: int)
    ensures 0 <= l <= 8 * 0xff
  {
    GetRValue(bg) * 2 + GetGValue(bg) * 5 + GetBValue(bg)
  }

  /** The active caption text: opaque white on a background whose
      brightness sum is at most 1024, opaque black otherwise. */
  function CaptionTextFor(bg: RGBA): (t: RGBA)
    ensures t == WHITE || t == BLACK
    ensures AlphaValue(t) == 0xff
    ensures t == WHITE <==> CaptionLuminance(bg) <= 1024
  {
    if CaptionLuminance(bg) <= 1024 then WHITE else BLACK
  }

  /** A background at least as bright in every channel never turns black
      text white. */
  lemma CaptionTextMonotone(bg: RGBA, brighter: RGBA)
    requires GetRValue(bg) <= GetRValue(brighter) && GetGValue(bg) <= GetGValue(brighter)
    requires GetBValue(bg) <= GetBValue(brighter)
    requires CaptionTextFor(bg) == BLACK
    ensures CaptionTextFor(brighter) == BLACK
  {
  }

  /** White backgrounds get black text and black backgrounds white text. */
  lemma CaptionTextExtremes()
    ensures CaptionTextFor(WHITE) == BLACK
    ensures CaptionTextFor(BLACK) == WHITE
  {
    assert GetRValue(WHITE) == 0xff && GetGValue(WHITE) == 0xff && GetBValue(WHITE) == 0xff;
    assert GetRValue(BLACK) == 0 && GetGValue(BLACK) == 0 && GetBValue(BLACK) == 0;
  }

  /** The effective glass fill colour: opaque white. */
  const GLASS_FILL_COLOR: RGBA := 0xffff_ffff
  /** The base the DWM colorization colour is blended into. */
  const ACTIVE_FRAME_BASE_COLOR: RGBA := 0xffd9_d9d9
  /** The fixed inactive frame colour. */
  const INACTIVE_FRAME_COLOR: RGBA := 0x7f56_5656

  /** The active caption background: the glass fill colour under glass,
      else the accent colour when title bars are coloured, else white. */
  function ActiveCaptionBG(glassEffect: bool, useAccentColor: bool, accent: RGBA): RGBA {
    if glassEffect then GLASS_FILL_COLOR else if useAccentColor then accent else WHITE
  }

  /** The DWM colorization colour, forced opaque, blended into the frame
      base colour by balance percent. */
  function DwmFrameColor(d: DwmReading): RGBA {
    BlendRGBA(ACTIVE_FRAME_BASE_COLOR, WithOpaqueAlpha(d.colorization), BalanceFactor(d.balance))
  }

  /** The active frame: the glass fill colour under glass, else the DWM
      colour when GetDwmColors succeeds, else the accent colour. */
  function ActiveFrame(glassEffect: bool, accent: RGBA, dwm: Option<DwmReading>): RGBA {
    if glassEffect then GLASS_FILL_COLOR
    else match dwm
      case Some(d) => DwmFrameColor(d)
      case None => accent
  }

  /** The inactive caption text: black blended 60% of the way to white. */
  function InactiveCaptionText(): RGBA {
    BlendRGBA(BLACK, WHITE, INACTIVE_TEXT_BLEND)
  }

  /** The frame colours GetAccentedFrameColors writes once the accent colour
      has been obtained; `dwm` is the DWM reading when GetDwmColors succeeds. */
  function AccentedFrame(glassEffect: bool, useAccentColor: bool, accent: RGBA, dwm: Option<DwmReading>): Frame {
    var activeCaptionBG := ActiveCaptionBG(glassEffect, useAccentColor, accent);
    Frame(CaptionTextFor(activeCaptionBG), activeCaptionBG, ActiveFrame(glassEffect, accent, dwm),
          InactiveCaptionText(), WHITE, INACTIVE_FRAME_COLOR)
  }

  /** A frame whose fields are the pieces AccentedFrame names is AccentedFrame. */
  lemma AccentedFrameOfFields(f: Frame, glassEffect: bool, useAccentColor: bool, accent: RGBA, dwm: Option<DwmReading>)
    requires f.activeCaptionBG == ActiveCaptionBG(glassEffect, useAccentColor, accent)
    requires f.activeCaptionText == CaptionTextFor(f.activeCaptionBG)
    requires f.activeFrame == ActiveFrame(glassEffect, accent, dwm)
    requires f.inactiveCaptionText == InactiveCaptionText()
    requires f.inactiveCaptionBG == WHITE && f.inactiveFrame == INACTIVE_FRAME_COLOR
    ensures f == AccentedFrame(glassEffect, useAccentColor, accent, dwm)
  {
  }

  /** The active caption: white under glass, else the accent colour when
      title bars are coloured and white when not; its text is white or
      black by the brightness rule, so always opaque, and black on white. */
  lemma AccentedCaption(glassEffect: bool, useAccentColor: bool, accent: RGBA, dwm: Option<DwmReading>)
    ensures AccentedFrame(glassEffect, useAccentColor, accent, dwm).activeCaptionBG ==
      if !glassEffect && useAccentColor then accent else WHITE
    ensures AccentedFrame(glassEffect, useAccentColor, accent, dwm).activeCaptionText ==
      CaptionTextFor(ActiveCaptionBG(glassEffect, useAccentColor, accent))
    ensures !(!glassEffect && useAccentColor) ==>
      AccentedFrame(glassEffect, useAccentColor, accent, dwm).activeCaptionText == BLACK
  {
    CaptionTextExtremes();
  }

  /** The active frame: white under glass; else the DWM colour when the DWM
      read succeeded and the accent colour when it failed. */
  lemma AccentedActiveFrame(glassEffect: bool, accent: RGBA, dwm: Option<DwmReading>)
    ensures glassEffect ==> ActiveFrame(glassEffect, accent, dwm) == WHITE
    ensures !glassEffect && dwm.None? ==> ActiveFrame(glassEffect, accent, dwm) == accent
    ensures !glassEffect && dwm.Some? ==> ActiveFrame(glassEffect, accent, dwm) == DwmFrameColor(dwm.value)
  {
  }

  /** The DWM frame colour is opaque; balance 0 gives the base colour
      0xffd9d9d9, balance 100 the opaque colorization colour, and a balance
      in between puts every channel between the two. */
  lemma DwmFrameColorBlend(d: DwmReading, k: nat)
    requires k < 4
    ensures AlphaValue(DwmFrameColor(d)) == 0xff
    ensures d.balance == 0 ==> DwmFrameColor(d) == ACTIVE_FRAME_BASE_COLOR
    ensures d.balance == 100 ==> DwmFrameColor(d) == WithOpaqueAlpha(d.colorization)
    ensures 0 <= d.balance <= 100 ==>
      var base, tint, c := Channel(ACTIVE_FRAME_BASE_COLOR, k), Channel(WithOpaqueAlpha(d.colorization), k),
        Channel(DwmFrameColor(d), k);
      (base <= c <= tint) || (tint <= c <= base)
  {
    var base, tint := ACTIVE_FRAME_BASE_COLOR, WithOpaqueAlpha(d.colorization);
    assert AlphaValue(base) == 0xff;
    BlendSharedChannel(base, tint, BalanceFactor(d.balance), 3);
    BlendEndpoints(base, tint, BalanceFactor(d.balance));
    if 0 <= d.balance <= 100 {
      BlendBetween(base, tint, BalanceFactor(d.balance), k);
    }
  }

  /** The inactive colours are fixed: white background, 0x7f565656 frame,
      and text 60% of the way from black to white, 0xff999999. */
  lemma AccentedInactive(glassEffect: bool, useAccentColor: bool, accent: RGBA, dwm: Option<DwmReading>)
    ensures AccentedFrame(glassEffect, useAccentColor, accent, dwm).inactiveCaptionBG == WHITE
    ensures AccentedFrame(glassEffect, useAccentColor, accent, dwm).inactiveFrame == INACTIVE_FRAME_COLOR
    ensures AccentedFrame(glassEffect, useAccentColor, accent, dwm).inactiveCaptionText == 0xff99_9999
  {
    InactiveCaptionTextValue();
  }

  /** BlendRGBA(0xff000000, 0xffffffff, 0.6f) is 0xff999999. */
  lemma InactiveCaptionTextValue()
    ensures InactiveCaptionText() == 0xff99_9999
  {
    BlackAndWhiteChannels();
    assert BlendChannel(0, 0xff, INACTIVE_TEXT_BLEND) == 0x99 by {
      assert Mix(0, 0xff, INACTIVE_TEXT_BLEND) == 765;
    }
    assert BlendChannel(0xff, 0xff, INACTIVE_TEXT_BLEND) == 0xff by {
      assert Mix(0xff, 0xff, INACTIVE_TEXT_BLEND) == 0xff * 5;
    }
    assert InactiveCaptionText() == MakeRGBA(0x99, 0x99, 0x99, 0xff);
  }

  /** The bytes of opaque black and opaque white. */
  lemma BlackAndWhiteChannels()
    ensures GetRValue(BLACK) == 0 && GetGValue(BLACK) == 0 && GetBValue(BLACK) == 0 && AlphaValue(BLACK) == 0xff
    ensures GetRValue(WHITE) == 0xff && GetGValue(WHITE) == 0xff && GetBValue(WHITE) == 0xff && AlphaValue(WHITE) == 0xff
  {
  }

  /** The SystemParametersInfo(SPI_GETHIGHCONTRAST) outcome: whether the
      call succeeded and the HIGHCONTRAST flags. */
  datatype HighContrast = HighContrast(querySucceeded: bool, dwFlags: DWord)

  /** `(dwFlags & HCF_HIGHCONTRASTON) != 0` with HCF_HIGHCONTRASTON = 1. */
  predicate HighContrastOn(hc: HighContrast) {
    hc.querySucceeded && hc.dwFlags % 2 == 1
  }

  /** Everything the frame colour functions ask the system for. */
  datatype Environment = Environment(
    highContrast: HighContrast,
    winrt: WinRTSettings,
    dwmKey: KeyOpen<DwmKey>,
    personalizeKey: KeyOpen<PersonalizeKey>,
    sysColors: SysColors)
  {
    predicate Valid() { winrt.Valid() }
  }

  /** Frame colours derived from the accent colour: fails with the accent
      colour's error before writing anything; a failing DWM read only
      changes the active frame to the accent colour. */
  method GetAccentedFrameColors(color: FrameColors, glassEffect: bool, env: Environment) returns (hr: HResult)
    requires env.Valid()
    modifies color
    ensures Failed(AccentStatus(env.winrt)) ==> hr == AccentStatus(env.winrt) && unchanged(color)
    ensures Succeeded(AccentStatus(env.winrt)) ==>
      && hr == S_OK
      && color.Value() == AccentedFrame(glassEffect, ColoredTitleBars(env.dwmKey, env.personalizeKey),
                                        AccentOf(env.winrt), DwmReadingOf(env.dwmKey))
  {
    var useAccentColor := ColoredTitleBars(env.dwmKey, env.personalizeKey);
    var ac := new AccentColor();
    ghost var before := ac.InFillOrder();
    hr := GetAccentColor(ac, env.winrt);
    if Failed(hr) {
      return hr;
    }
    AccentStatusOk(env.winrt);
    AccentFillElements(before, env.winrt, 3);
    assert ac.InFillOrder()[3] == AccentFill(before, env.winrt)[3];
    var accent := ac.accent;

    if glassEffect {
      color.activeCaptionBG := GLASS_FILL_COLOR;
    } else if useAccentColor {
      color.activeCaptionBG := accent;
    } else {
      color.activeCaptionBG := WHITE;
    }
    assert color.activeCaptionBG == ActiveCaptionBG(glassEffect, useAccentColor, accent);
    var bg := color.activeCaptionBG;
    var textIsBright := GetRValue(bg) * 2 + GetGValue(bg) * 5 + GetBValue(bg) <= 1024;
    color.activeCaptionText := if textIsBright then WHITE else BLACK;
    assert color.activeCaptionText == CaptionTextFor(ActiveCaptionBG(glassEffect, useAccentColor, accent));

    if glassEffect {
      color.activeFrame := GLASS_FILL_COLOR;
    } else {
      var dwmColors := new DwmColors();
      var dwmHr := GetDwmColors(dwmColors, env.dwmKey);
      if Succeeded(dwmHr) {
        color.activeFrame := BlendRGBA(ACTIVE_FRAME_BASE_COLOR,
                                       WithOpaqueAlpha(dwmColors.colorizationColor),
                                       BalanceFactor(dwmColors.colorizationColorBalance));
      } else {
        color.activeFrame := accent;
      }
    }
    assert color.activeFrame == ActiveFrame(glassEffect, accent, DwmReadingOf(env.dwmKey));

    color.inactiveCaptionBG := WHITE;
    var rawInactiveCaptionText := BLACK;
    color.inactiveFrame := INACTIVE_FRAME_COLOR;
    color.inactiveCaptionText := BlendRGBA(rawInactiveCaptionText, color.inactiveCaptionBG, INACTIVE_TEXT_BLEND);
    assert color.inactiveCaptionText == InactiveCaptionText();
    AccentedFrameOfFields(color.Value(), glassEffect, useAccentColor, accent, DwmReadingOf(env.dwmKey));
    return S_OK;
  }

  /** The HRESULT GetFrameColors returns. */
  function FrameStatus(env: Environment): HResult {
    if HighContrastOn(env.highContrast) then S_OK else AccentStatus(env.winrt)
  }

  /** The frame colours GetFrameColors writes when it succeeds. */
  function ExpectedFrame(glassEffect: bool, env: Environment): Frame
    requires env.Valid()
  {
    if HighContrastOn(env.highContrast) then SystemFrame(env.sysColors)
    else AccentedFrame(glassEffect, ColoredTitleBars(env.dwmKey, env.personalizeKey),
                       AccentOf(env.winrt), DwmReadingOf(env.dwmKey))
  }

  /** GetFrameColors (the definition, which takes the glass flag): system
      colours under high contrast, accent-derived colours otherwise. */
  method GetFrameColors(color: FrameColors, glassEffect: bool, env: Environment) returns (hr: HResult)
    requires env.Valid()
    modifies color
    ensures hr == FrameStatus(env)
    ensures Failed(hr) ==> unchanged(color)
    ensures Succeeded(hr) ==> color.Value() == ExpectedFrame(glassEffect, env)
  {
    var useSysColors := env.highContrast.querySucceeded && env.highContrast.dwFlags % 2 != 0;
    if useSysColors {
      hr := GetSystemFrameColors(color, env.sysColors);
      return;
    }
    AccentStatusOk(env.winrt);
    hr := GetAccentedFrameColors(color, glassEffect, env);
  }

  /** GetFrameColors fails only outside high contrast, and then exactly
      when GetAccentColor fails, with its error; high contrast always
      succeeds, whatever the system colours are. */
  lemma FrameStatusCases(env: Environment)
    requires env.Valid()
    ensures Failed(FrameStatus(env)) <==> !HighContrastOn(env.highContrast) && Failed(AccentStatus(env.winrt))
    ensures Failed(FrameStatus(env)) ==> FrameStatus(env) == AccentStatus(env.winrt)
    ensures Succeeded(FrameStatus(env)) ==> FrameStatus(env) == S_OK
  {
    AccentStatusOk(env.winrt);
  }

  /** The DWM registry values never make GetFrameColors fail. */
  lemma FrameStatusIgnoresDwm(env: Environment, dwmKey: KeyOpen<DwmKey>)
    ensures FrameStatus(env) == FrameStatus(env.(dwmKey := dwmKey))
  {
  }

  /** Under high contrast the glass flag has no effect. */
  lemma HighContrastIgnoresGlass(env: Environment)
    requires env.Valid() && HighContrastOn(env.highContrast)
    ensures ExpectedFrame(true, env) == ExpectedFrame(false, env)
  {
  }
}
