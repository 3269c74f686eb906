/** Shared data of the signing service: bytes and Go strings, the `uint32`
    counter, the error values and the signature-device record. */
module Types {

  /** One byte; Go's `byte`. */
  type byte = b: int | 0 <= b < 256

  type Bytes = seq<byte>

  /** A Go `string` is an immutable sequence of bytes; `[]byte(s)` and
      `string(b)` are the identity on the bytes. */
  type GoString = seq<byte>

  const MaxUint32: int := 0xFFFF_FFFF

  /** Go's `uint32`. */
  type uint32 = n: int | 0 <= n <= MaxUint32

  /** `n++` on a `uint32`: wraps around to 0 after MaxUint32. */
  function Inc32(n: uint32): (r: uint32)
    ensures n < MaxUint32 ==> r == n + 1
    ensures n == MaxUint32 ==> r == 0
  {
    (n + 1) % (MaxUint32 + 1)
  }

  /** The bytes of a string literal (every literal used here is ASCII). */
  function Ascii(s: string): (b: GoString)
    ensures |b| == |s|
  {
    seq(|s|, i requires 0 <= i < |s| => (s[i] as int) % 256)
  }

  datatype Option<T> = None | Some(value: T)

  /** A Go `(value, error)` pair: exactly one of the two is meaningful. */
  datatype Result<T> = Success(value: T) | Failure(error: Error)

  /** Go error values.  The three sentinels are the package-level variables of
      the `types` package; `Wrapped` is `fmt.Errorf` with the `%w` verb, which
      keeps its cause visible to `errors.Is`; `Opaque` is any other error: one
      made with `%v`, or one produced by code outside this model. */
  datatype Error =
    | ErrUnknownSigningAlgorithm
    | ErrDeviceNotFound
    | ErrDeviceAlreadyExists
    | Wrapped(prefix: GoString, cause: Error, suffix: GoString)
    | Opaque(text: GoString)

  /** The text `err.Error()` returns. */
  function Message(e: Error): GoString
  {
    match e
    case ErrUnknownSigningAlgorithm => Ascii("unknown signing algorithm")
    case ErrDeviceNotFound => Ascii("device with given ID does not exist")
    case ErrDeviceAlreadyExists => Ascii("device with given ID already exist")
    case Wrapped(prefix, cause, suffix) => prefix + Message(cause) + suffix
    case Opaque(text) => text
  }

  /** `errors.Is(e, target)`: `target` is `e` or is reached along `%w` causes. */
  predicate Is(e: Error, target: Error)
  {
    e == target || (e.Wrapped? && Is(e.cause, target))
  }

  /** The persistent record of a signature device.  `PreviousSignatures` maps
      the counter value a signing operation started from to the signature it
      produced. */
  datatype SignatureDevice = SignatureDevice(
    ID: GoString,
    Algorithm: GoString,
    Label: GoString,
    Counter: uint32,
    PkPem: Bytes,
    PreviousSignatures: map<uint32, Bytes>)

  /** The request to create a device: an algorithm name and a label. */
  datatype NewSignatureDevice = NewSignatureDevice(Algorithm: GoString, Label: GoString)
}
