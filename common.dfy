/**
 * Shared vocabulary of the table codec: optional and fallible results, the
 * exceptions the Python code can raise, bytes, and the dynamically typed
 * values a table cell can hold.
 */
module Common {

  datatype Option<+T> = None | Some(value: T)

  /** The exception classes the codec can raise, plus one tag for inputs
      whose behaviour lies outside this model (floating point, non-ASCII
      text, `eval` of anything but a plain hexadecimal literal). */
  datatype Error =
    | StructError      // struct.error: a value does not fit its format
    | TypeError
    | ValueError       // int() of text that is not an integer
    | KeyError         // unknown enumeration label
    | AttributeError
    | IndexError
    | NotModelled

  /** A Python call either returns a value or raises. */
  datatype Result<+T> = Ok(value: T) | Err(error: Error)

  type byte = x: int | 0 <= x < 256

  /** A Python value as stored in a table cell or read from a schema record. */
  datatype Value =
    | Int(i: int)
    | Float(r: real)
    | Text(s: string)
    | Bytes(b: seq<byte>)
    | Nil

  /** Python truthiness of an index returned by `findIndex`: `None` and `0`
      are both false. */
  predicate Truthy(index: Option<nat>)
  {
    index.Some? && index.value != 0
  }

  /** A non-empty sequence is its prefix followed by its last element. */
  lemma PrefixAndLast<T>(s: seq<T>)
    requires s != []
    ensures s[..|s| - 1] + [s[|s| - 1]] == s
  {
  }
}
