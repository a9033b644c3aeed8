/** Bytes and byte strings. A path is the string of bytes from the root of a stream
    tree down to one of its nodes, the header included. */
module Bytes {
  type Byte = x: int | 0 <= x < 256
  type Path = seq<Byte>

  predicate Proper(p: Path, q: Path) {
    p <= q && |p| < |q|
  }
}
