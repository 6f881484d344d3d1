/** The binary encoding (bincode) both the store and the config cache use, as
    an abstract encoder/decoder pair. The system only ever relies on the pair
    being inverse and on an encoding never being empty (bincode always writes
    at least a length or tag), which `Sound` states. */
module Codec {
  import opened Wrappers

  newtype byte = b: int | 0 <= b < 256

  datatype Codec<!T> = Codec(encode: T -> seq<byte>, decode: seq<byte> -> Option<T>)

  ghost predicate Sound<T(!new)>(c: Codec<T>) {
    forall x :: c.decode(c.encode(x)) == Some(x) && |c.encode(x)| > 0
  }
}
