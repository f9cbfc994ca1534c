/** Byte strings, and the hash function every other module is built on. */
module Bytes {
  newtype byte = x: int | 0 <= x < 256

  type Bytes = seq<byte>

  datatype Option<+T> = None | Some(value: T)

  type Digest = d: Bytes | |d| == 32 witness seq(32, _ => 0)

  /** SHA-256. It is given no value, so everything proved here holds whatever function it is. */
  const SHA256: Bytes -> Digest

  function Sha256(data: Bytes): (digest: Bytes)
    ensures |digest| == 32
  {
    SHA256(data)
  }

  /** No two of these strings hash alike. Asked only of finite sets of strings that were really hashed. */
  ghost predicate NoCollision(inputs: set<Bytes>)
  {
    forall a, b :: a in inputs && b in inputs && Sha256(a) == Sha256(b) ==> a == b
  }

  lemma NoCollisionWithin(inputs: set<Bytes>, more: set<Bytes>)
    requires NoCollision(more) && inputs <= more
    ensures NoCollision(inputs)
  {
  }
}
