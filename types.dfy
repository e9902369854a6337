/** Shared vocabulary: the error taxonomy, Option/Result, and the integer
    ranges of the Rust element types the model has to respect. */
module Types {

  /** The two failures a construction can report. */
  datatype SuffixError = InvalidLength | Internal

  datatype Option<+T> = None | Some(value: T)

  datatype Result<+T, +E> = Ok(value: T) | Err(error: E)

  /** Alphabet bound handed to every builder: the whole UCS-4 range. */
  const ALPHABET_SIZE: int := 0x110000

  const U32_MAX: int := 0xFFFF_FFFF
  const U32_MODULUS: int := 0x1_0000_0000
  const I32_MIN: int := -0x8000_0000
  const I32_MAX: int := 0x7FFF_FFFF

  predicate InI32(x: int) { I32_MIN <= x <= I32_MAX }
  predicate InU32(x: int) { 0 <= x <= U32_MAX }

  /** The element type a `Suffix` was instantiated with. */
  datatype Width = I32 | Usize {
    /** Values an element of this width can hold (usize is taken as unbounded above). */
    predicate Holds(x: int) {
      match this
      case I32 => InI32(x)
      case Usize => 0 <= x
    }
  }

  /** The symbol sequence the builders see: every `char` as its code point. */
  function Symbols(chars: seq<char>): (r: seq<int>)
    ensures |r| == |chars|
    ensures forall j :: 0 <= j < |r| ==> 0 <= r[j] < ALPHABET_SIZE && r[j] == chars[j] as int
  {
    seq(|chars|, j requires 0 <= j < |chars| => chars[j] as int)
  }
}
