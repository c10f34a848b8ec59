/** Windows platform types and conventions that the colour code relies on:
    32-bit DWORD and LONG values, HRESULT status codes, the winerror.h
    conversion from Win32 error codes, and the outcomes of the registry
    calls, which the model receives as inputs instead of performing them. */
module Win32 {

  /** An unsigned 32-bit DWORD. */
  type DWord = x: int | 0 <= x < 0x1_0000_0000

  /** A signed 32-bit LONG (also C++ `int` on Windows). */
  type Int32 = x: int | -0x8000_0000 <= x < 0x8000_0000

  /** HRESULT: a signed 32-bit status code. */
  type HResult = Int32

  const S_OK: HResult := 0
  const ERROR_SUCCESS: Int32 := 0
  /** Facility code that HRESULT_FROM_WIN32 puts in bits 16..26. */
  const FACILITY_WIN32: int := 7

  /** The FAILED macro: the severity (sign) bit is set. */
  predicate Failed(hr: HResult) { hr < 0 }

  /** The SUCCEEDED macro. */
  predicate Succeeded(hr: HResult) { !Failed(hr) }

  /** Reinterprets a signed 32-bit value as unsigned (two's complement),
      as a cast to DWORD or a `%x` conversion does. */
  function ToUInt32(x: Int32): (u: DWord)
    ensures x >= 0 ==> u == x
    ensures x < 0 ==> u == x + 0x1_0000_0000
  {
    x % 0x1_0000_0000
  }

  /** Reinterprets an unsigned 32-bit value as signed, as `static_cast<int>`
      of a DWORD does. */
  function ToInt32(u: DWord): (x: Int32)
    ensures ToUInt32(x) == u
  {
    if u < 0x8000_0000 then u else u - 0x1_0000_0000
  }

  lemma ToInt32OfToUInt32(x: Int32)
    ensures ToInt32(ToUInt32(x)) == x
  {
  }

  /** A Win32 error code: anything but ERROR_SUCCESS. */
  type Win32Error = x: Int32 | x != ERROR_SUCCESS witness 1

  /** HRESULT_FROM_WIN32 as winerror.h defines it: values that are zero or
      already negative pass through; a positive code keeps its low 16 bits
      under the severity bit and FACILITY_WIN32, giving 0x8007xxxx. */
  function HresultFromWin32(x: Int32): (hr: HResult)
    ensures hr == S_OK <==> x == ERROR_SUCCESS
    ensures x != ERROR_SUCCESS ==> Failed(hr)
    ensures x <= 0 ==> hr == x
    ensures x > 0 ==> ToUInt32(hr) / 0x1_0000 == 0x8007 && ToUInt32(hr) % 0x1_0000 == x % 0x1_0000
  {
    if x <= 0 then x
    else x % 0x1_0000 + FACILITY_WIN32 * 0x1_0000 + 0x8000_0000 - 0x1_0000_0000
  }

  /** Outcome of reading one REG_DWORD value with RegGetValueW: the value,
      or the error code the call returned. */
  datatype DwordRead = DwordValue(value: DWord) | DwordError(code: Win32Error)

  /** Outcome of opening a registry key with RegOpenKeyExW: the reads the
      open key answers, or the error code the call returned. */
  datatype KeyOpen<K> = KeyOpened(key: K) | KeyOpenError(code: Win32Error)
}
