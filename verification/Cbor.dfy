/** internal/codec: canonical CBOR, as an arbitrary encoder of items. */
module Cbor {
  import opened Common

  datatype Item = Int(i: int) | Bin(b: Bytes) | Text(t: Bytes) | Bool(v: bool) | Array(items: seq<Item>)

  type Encoder = Item -> Bytes

  ghost predicate Injective(enc: Encoder) {
    forall x, y {:trigger enc(x), enc(y)} :: enc(x) == enc(y) ==> x == y
  }
}
