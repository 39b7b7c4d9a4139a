/** The hash family of the filter: the table of 100 seeded 32-bit murmur3
    hashers that `init` builds, and `murmurhash`, which reduces a key to a slot
    of the filter with one of them. */
module Hashing {

  /** Go's `int32`. */
  newtype int32 = x: int | -0x8000_0000 <= x < 0x8000_0000

  /** Number of hashers in the table built by `init`. */
  const FamilySize: nat := 100

  /** The 32-bit murmur3 digest of a key under a seed. The digest belongs to a
      foreign library, so the model takes it as a parameter: any total function
      will do, and nothing below depends on how it mixes its input. The
      UTF-8 encoding of the key (`[]byte(key)`) is folded into it. */
  type Digest = (bv32, string) -> bv32

  /** The fixed part of the hasher table: one seed per hasher, drawn once at
      start-up, and the digest they all compute. */
  datatype Hashes = Hashes(seeds: seq<bv32>, digest: Digest)

  predicate ValidHashes(h: Hashes)
  {
    |h.seeds| == FamilySize
  }

  /** The slot that `murmurhash(key, size, idx)` returns: the digest of `key`
      under the seed of hasher `idx`, reduced modulo `size` as a `uint32`
      and converted back to `int32`. The conversion is exact because the
      remainder is below `size`, which is a positive `int32`. */
  function Slot(h: Hashes, key: string, size: int32, idx: int): (p: int32)
    requires ValidHashes(h) && 0 < size && 0 <= idx < FamilySize
    ensures 0 <= p < size
  {
    ((h.digest(h.seeds[idx], key) as int) % (size as int)) as int32
  }

  /** The table of hashers shared by every filter. Each murmur3 hasher
      accumulates the bytes written to it until it is reset; `pending[i]` are
      the bytes hasher `i` has accumulated. Between calls of `Murmurhash`
      every hasher is reset, which is what makes a slot a function of
      `(key, size, idx)` alone. */
  class HasherTable {
    const hashes: Hashes
    var pending: seq<string>

    ghost predicate Valid()
      reads this
    {
      && ValidHashes(hashes)
      && |pending| == FamilySize
      && forall i :: 0 <= i < |pending| ==> pending[i] == []
    }

    /** The table as `init` leaves it: one fresh hasher per seed. */
    constructor (seeds: seq<bv32>, digest: Digest)
      requires |seeds| == FamilySize
      ensures Valid()
      ensures hashes.seeds == seeds && hashes.digest == digest
    {
      hashes := Hashes(seeds, digest);
      pending := seq(FamilySize, _ => []);
    }

    /** `murmurhash`: write the key to hasher `idx`, take its 32-bit sum
        modulo `size`, reset the hasher. The result depends only on the
        arguments, and the table is left as it was found, so any number of
        earlier or later calls cannot change what a call returns. */
    method Murmurhash(key: string, size: int32, idx: int) returns (r: int32)
      requires Valid() && 0 < size && 0 <= idx < FamilySize
      modifies this
      ensures Valid() && pending == old(pending)
      ensures r == Slot(hashes, key, size, idx)
    {
      // Write, to a hasher that was reset after its previous use
      assert pending[idx] + key == key;
      pending := pending[idx := pending[idx] + key];
      // Sum32, then `% uint32(size)` and `int32(...)`
      var sum := hashes.digest(hashes.seeds[idx], pending[idx]);
      r := ((sum as int) % (size as int)) as int32;
      // Reset
      pending := pending[idx := []];
    }
  }
}
