/** Machine integers, byte strings and the library calls the store relies on. */
module Base {

  const TWO16: int := 0x1_0000
  const TWO32: int := 0x1_0000_0000
  const TWO64: int := 0x1_0000_0000_0000_0000

  type byte = x: int | 0 <= x < 256
  type uint64 = x: int | 0 <= x < 0x1_0000_0000_0000_0000

  /** A Go string: a sequence of bytes. */
  type Str = seq<byte>

  type Bytes = seq<byte>

  /** A 32-byte entity key. */
  type Key = k: Bytes | |k| == 32 witness seq(32, i => 0)

  datatype Option<+T> = None | Some(value: T)

  /** Unsigned 64-bit addition as Go computes it. */
  function Add64(a: uint64, b: uint64): (r: uint64)
    ensures a + b < TWO64 ==> r == a + b
    ensures a + b >= TWO64 ==> r == a + b - TWO64
  {
    (a + b) % TWO64
  }

  /**
   * Library functions the source calls but this repository does not define:
   * `lower` is strings.ToLower, `glob` is path.Match with an error read as
   * "no match", `hexKey` is common.Hash.Hex.
   */
  datatype Lib = Lib(lower: Str -> Str, glob: (Str, Str) -> bool, hexKey: Key -> Str)

  /** The only fact assumed of lower-casing: doing it twice changes nothing more. */
  ghost predicate LowerIsIdempotent(lib: Lib) {
    forall s :: lib.lower(lib.lower(s)) == lib.lower(s)
  }

  /** Lexicographic order on byte strings: Go's `<` on strings and Pebble's key order. */
  predicate Less(a: Bytes, b: Bytes) {
    |b| > 0 && (|a| == 0 || a[0] < b[0] || (a[0] == b[0] && Less(a[1..], b[1..])))
  }
}
