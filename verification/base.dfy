/** Shared C-level types used by the firmware model: bytes, NUL-free C strings,
    an optional value, and the ESP-IDF error code returned by request handlers. */
module Base {

  /** A C `uint8_t`; also the element type of file contents. */
  newtype uint8 = x: int | 0 <= x < 256

  type byte = uint8

  /** The characters of a C string before its terminating NUL. Each `char`
      stands for one byte of the C string, so lengths and the `snprintf`
      bound count bytes as the C code does. */
  type CString = s: string | '\0' !in s

  datatype Option<+T> = None | Some(value: T)

  /** `esp_err_t` as returned by the HTTP handlers: ESP_OK or ESP_FAIL. */
  datatype EspErr = EspOk | EspFail

  function Min(a: int, b: int): (m: int)
    ensures m <= a && m <= b
    ensures m == a || m == b
  {
    if a <= b then a else b
  }
}
