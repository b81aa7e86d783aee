/** The partition function `ihash` (src/mr/worker.go): 32-bit FNV-1a over
    the key's bytes, masked to 31 bits, then reduced modulo the number of
    reduce buckets. */
module Hashing {
  import opened GoStrings

  /** FNV-1a 32-bit offset basis and prime. */
  const OffsetBasis: bv32 := 2166136261
  const Prime: bv32 := 16777619

  /** One FNV-1a round: XOR the byte in, then multiply modulo 2^32. */
  function Mix(h: bv32, b: byte): bv32 {
    (h ^ (b as bv32)) * Prime
  }

  /** Feeding bytes to the hash state, first byte first (`h.Write`). */
  function Absorb(h: bv32, data: GoString): bv32
    decreases |data|
  {
    if data == [] then h else Absorb(Mix(h, data[0]), data[1..])
  }

  /** `fnv.New32a()`, `Write(data)`, `Sum32()`. */
  function Sum32a(data: GoString): bv32 {
    Absorb(OffsetBasis, data)
  }

  /** Writing a string in two pieces hashes the same as writing it at once. */
  lemma {:induction false} AbsorbConcat(h: bv32, a: GoString, b: GoString)
    ensures Absorb(h, a + b) == Absorb(Absorb(h, a), b)
    decreases |a|
  {
    if a == [] {
      assert a + b == b;
    } else {
      assert (a + b)[0] == a[0] && (a + b)[1..] == a[1..] + b;
      AbsorbConcat(Mix(h, a[0]), a[1..], b);
    }
  }

  /** Published FNV-1a 32-bit test vectors. */
  lemma Sum32aTestVectors()
    ensures Sum32a([]) == 0x811c9dc5
    ensures Sum32a(Ascii("a")) == 0xe40c292c
    ensures Sum32a(Ascii("foobar")) == 0xbf9cf968
  {
    assert Ascii("a") == [97];
    assert Ascii("foobar") == [102, 111, 111, 98, 97, 114];
    assert Absorb(OffsetBasis, [102, 111, 111, 98, 97, 114])
        == Absorb(Mix(OffsetBasis, 102), [111, 111, 98, 97, 114]);
  }

  /** `int(x & 0x7fffffff)`: a 32-bit value with its top bit cleared. */
  function Low31(x: bv32): (h: int)
    ensures 0 <= h < 0x8000_0000
  {
    ((x & 0x7fff_ffff) as bv31) as int
  }

  /** `ihash`: the FNV-1a hash of the key with its top bit cleared. */
  function IHash(key: GoString): (h: int)
    ensures 0 <= h < 0x8000_0000
  {
    Low31(Sum32a(key))
  }

  /** `ihash(key) % nReduce`: the reduce bucket of a key. It depends on the
      key alone, so pairs with equal keys share a bucket; Go's `%` and
      Dafny's agree here because both operands are non-negative. */
  function Bucket(key: GoString, nReduce: int): (r: int)
    requires nReduce > 0
    ensures 0 <= r < nReduce
  {
    IHash(key) % nReduce
  }
}
