/**
 * The 64-bit FNV-1a hasher the hash map uses: start from the offset basis
 * and, for every byte, XOR the byte in and multiply by the FNV prime,
 * wrapping modulo 2^64.
 */
module Fnv {
  import opened Bytes

  const INITIAL_STATE: bv64 := 0xcbf2_9ce4_8422_2325
  const PRIME: bv64 := 0x0100_0000_01b3

  /** One byte of `write`: XOR, then the wrapping multiply. */
  function Step(h: bv64, b: byte): bv64 {
    (h ^ (b as bv64)) * PRIME
  }

  /** `write(bytes)` on a hasher in state `h`. */
  function Write(h: bv64, bytes: seq<byte>): bv64
    decreases |bytes|
  {
    if bytes == [] then h else Write(Step(h, bytes[0]), bytes[1..])
  }

  /** A fresh hasher fed `bytes`, then `finish`. */
  function Fnv1a(bytes: seq<byte>): bv64 {
    Write(INITIAL_STATE, bytes)
  }

  /** Writing in two pieces is writing the concatenation. */
  lemma {:induction false} WriteConcat(h: bv64, a: seq<byte>, b: seq<byte>)
    ensures Write(h, a + b) == Write(Write(h, a), b)
    decreases |a|
  {
    if a == [] {
      assert a + b == b;
    } else {
      assert (a + b)[0] == a[0];
      assert (a + b)[1..] == a[1..] + b;
      WriteConcat(Step(h, a[0]), a[1..], b);
    }
  }

  /** Appending a byte takes one more step from the hash so far. */
  lemma Fnv1aSnoc(bytes: seq<byte>, b: byte)
    ensures Fnv1a(bytes + [b]) == Step(Fnv1a(bytes), b)
  {
    WriteConcat(INITIAL_STATE, bytes, [b]);
  }

  // Published FNV-1a 64-bit test vectors, as bytes.

  lemma VectorEmpty()
    ensures Fnv1a([]) == 0xcbf29ce484222325
  {
  }

  lemma VectorA()
    ensures Fnv1a([0x61]) == 0xaf63dc4c8601ec8c
  {
  }

  lemma VectorZero()
    ensures Fnv1a([0x00]) == 0xaf63bd4c8601b7df
  {
  }

  lemma VectorFoo()
    ensures Fnv1a([0x66, 0x6f, 0x6f]) == 0xdcb27518fed9d577
  {
  }

  lemma VectorFoobar()
    ensures Fnv1a([0x66, 0x6f, 0x6f, 0x62, 0x61, 0x72]) == 0x85944171f73967e8
  {
  }
}
