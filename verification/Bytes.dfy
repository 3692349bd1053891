/** Byte strings and the hash function shared by the trie modules. */
module Bytes {

  type Byte = x: nat | x < 256

  type Bytes = seq<Byte>

  /** Go slice and blob lengths fit in 64 bits. */
  const SIZE_LIMIT: nat := 0x1_0000_0000_0000_0000

  type Hash32 = s: Bytes | |s| == 32 witness seq(32, _ => 0)

  /**
   Keccak-256.  Nothing is known about it beyond its result length: every theorem holds for any
   function into 32-byte strings, and each theorem that needs collision freedom says between which
   byte strings it needs it.
   */
  const Keccak256: Bytes -> Hash32

  function Keccak(data: Bytes): Hash32 {
    Keccak256(data)
  }

  datatype Option<+T> = None | Some(value: T)

  datatype Result<+T> = Ok(value: T) | Err

  ghost predicate Distinct<T>(s: seq<T>) {
    forall i, j | 0 <= i < j < |s| :: s[i] != s[j]
  }
}
