/** The value types every layer shares: optional values, 128-bit keys and block descriptors. */
module Types {

  datatype Option<T> = None | Some(value: T)

  /** A blob identifier, as its two 64-bit halves. */
  datatype Key = Key(h: nat, l: nat)

  const NULL_KEY := Key(0, 0)

  predicate IsNull(k: Key) {
    k == NULL_KEY
  }

  /** A block descriptor: an address and the number of bytes in use there. */
  datatype Blk = Blk(data: nat, size: nat)

  const NO_BLK := Blk(0, 0)
}
