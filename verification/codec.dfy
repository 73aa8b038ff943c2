/** Values a binding stores, and the byte codec between them and the store's payloads. */
module Codec {

  /** A value that may be absent: the model's counterpart of Swift's `U?`. */
  datatype Option<+T> = None | Some(value: T)

  /** A payload as the secure store holds it. */
  type Bytes = seq<bv8>

  /** The JSON encoder/decoder pair a binding uses, abstracted to two total functions:
      encoding always yields a payload, decoding may reject one. */
  datatype Codec<!U> = Codec(encode: U -> Bytes, decode: Bytes -> Option<U>)

  /** Decoding undoes encoding for every value. This is the one property of the JSON
      codec the binding relies on; every statement that needs it takes it as a hypothesis. */
  ghost predicate Lawful<U(!new)>(c: Codec<U>) {
    forall u :: c.decode(c.encode(u)) == Some(u)
  }
}
