/** Values of the JavaScript host that the runtime manipulates: bytes of a
    typed array, UTF-16 code units of strings, the numeric conversions that
    typed arrays and bitwise operators apply, and the exceptions that abort
    a host call. */
module Base {

  /** One element of a Uint8Array. */
  type byte = x: int | 0 <= x < 0x100

  /** One UTF-16 code unit of a JavaScript string (what charCodeAt returns). */
  type CodeUnit = x: int | 0 <= x < 0x1_0000

  /** A JavaScript string, as its sequence of code units. */
  type JsString = seq<CodeUnit>

  datatype Option<+T> = None | Some(value: T)

  datatype Result<+T> = Ok(value: T) | Err(fault: Fault)

  /** The exceptions a host call can end with. `AssertError` and
      `AbortError` are the classes of the runtime; `RangeError` and
      `TypeError` are what the typed-array constructors throw for a view
      outside its buffer or over a detached buffer. */
  datatype Fault = AssertError | AbortError | RangeError | TypeError

  /** The host's success code for a syscall. */
  const ESUCCESS: int := 0

  /** ToUint32: what storing a number into a Uint32Array keeps. */
  function ToUint32(x: int): (r: int)
    ensures 0 <= r < 0x1_0000_0000
  {
    if 0 <= x < 0x1_0000_0000 then x else x % 0x1_0000_0000
  }

  /** ToUint8: what storing a number into a Uint8Array keeps. */
  function ToUint8(x: int): byte {
    if 0 <= x < 0x100 then x else x % 0x100
  }

  /** ToInt32: the operand conversion of JavaScript's bitwise operators. */
  function ToInt32(x: int): (r: int)
    ensures -0x8000_0000 <= r < 0x8000_0000
    ensures -0x8000_0000 <= x < 0x8000_0000 ==> r == x
  {
    if -0x8000_0000 <= x < 0x8000_0000 then x
    else
      var u := x % 0x1_0000_0000;
      if u >= 0x8000_0000 then u - 0x1_0000_0000 else u
  }

  function Min(a: int, b: int): (m: int)
    ensures m <= a && m <= b && (m == a || m == b)
  {
    if a <= b then a else b
  }

  function Max(a: int, b: int): (m: int)
    ensures m >= a && m >= b && (m == a || m == b)
  {
    if a <= b then b else a
  }
}
