/** `platform.hpp`: the platform enumeration with its display names, and the shape of the
    text `get_last_error` builds from an error code and the system's message for it. */
module Platform {
  import opened Text

  /** The library's code is selected at compile time: Windows or a POSIX system. */
  datatype Build = PosixBuild | WindowsBuild

  /** The two POSIX systems, whose constants differ in places (`AF_INET6`, `O_CREAT`, ...). */
  datatype Posix = Linux | MacOs

  /** `enum class Platform : u8 { WINDOWS, LINUX, MACOS }` as its underlying value: a `u8`
      can hold values outside the three enumerators. */
  const WINDOWS: byte := 0
  const LINUX: byte := 1
  const MACOS: byte := 2

  /** `get_platform_name` */
  function PlatformName(platform: byte): (name: string)
    ensures platform == WINDOWS <==> name == "Windows"
    ensures platform == MACOS <==> name == "MacOS"
    ensures platform == LINUX <==> name == "Linux"
    ensures platform !in {WINDOWS, LINUX, MACOS} <==> name == "Unknown"
  {
    if platform == WINDOWS then "Windows"
    else if platform == MACOS then "MacOS"
    else if platform == LINUX then "Linux"
    else "Unknown"
  }

  const ERROR_PREFIX: string := "ERROR 0x"

  /** `fmt::format("ERROR 0x{:X}: {}", code, message)`, the POSIX `get_last_error` with
      `errno` and `strerror(errno)`. The code is rendered in upper-case hexadecimal without
      leading zeros and can be read back from the text. */
  function ErrorText(code: nat, message: string): (text: string)
    ensures |text| >= |ERROR_PREFIX| + 3 + |message|
    ensures text[..|ERROR_PREFIX|] == ERROR_PREFIX
    ensures text[|text| - |message| - 2..] == ": " + message
    ensures var digits := text[|ERROR_PREFIX|..|text| - |message| - 2];
      && |digits| >= 1 && AllHexDigits(digits) && NoLowerHex(digits)
      && (|digits| > 1 ==> digits[0] != '0')
      && ParseHex(digits) == code
  {
    var digits := UpperHex(code);
    ParseUpperHex(code);
    var text := ERROR_PREFIX + digits + ": " + message;
    assert text[|ERROR_PREFIX|..|text| - |message| - 2] == digits;
    assert text[|text| - |message| - 2..] == ": " + message;
    text
  }

  /** The Windows `get_last_error`: empty for error code 0, otherwise the same shape with the
      message `FormatMessageW` produced. */
  function WindowsErrorText(code: nat, message: string): (text: string)
    ensures code == 0 <==> text == ""
    ensures code != 0 ==> text == ErrorText(code, message)
  {
    if code == 0 then "" else ErrorText(code, message)
  }
}
