/** Go strings and byte slices, both seen as sequences of bytes. */
module ByteStrings {
  type byte = bv8
  type Bytes = seq<byte>

  const DASH: byte := 45   // '-'
  const QUOTE: byte := 34  // '"'

  predicate NoDash(s: Bytes) {
    forall i :: 0 <= i < |s| ==> s[i] != DASH
  }

}
