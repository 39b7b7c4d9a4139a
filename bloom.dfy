/** The Bloom filter of `main.go` as written: a byte array with one bit per
    slot packed eight to a byte, `Add`, which ORs one bit in, and `Exists`,
    which tests bits until the first failed test. */
module Bloom {
  import opened Hashing

  /** `1 << bit` as a `uint8`. */
  function Mask(bit: int): bv8
    requires 0 <= bit < 8
  {
    (1 as bv8) << bit
  }

  /** A filter of `n` bytes in which no bit is set. */
  function Zeros(n: nat): seq<bv8>
  {
    seq(n, _ => 0 as bv8)
  }

  /** `filter[p / 8] |= 1 << (p % 8)`. */
  function SetBit(s: seq<bv8>, p: int): seq<bv8>
    requires 0 <= p && p / 8 < |s|
  {
    s[p / 8 := s[p / 8] | Mask(p % 8)]
  }

  /** Slot `p` is set: bit `p % 8` of byte `p / 8` is one. */
  predicate BitSet(s: seq<bv8>, p: int)
    requires 0 <= p && p / 8 < |s|
  {
    s[p / 8] & Mask(p % 8) != 0
  }

  /** The test `Exists` applies to slot `p`: `filter[p / 8] & (1 << (p % 8)) == 1`
      (in Go `&` binds tighter than `==`). */
  predicate Hit(s: seq<bv8>, p: int)
    requires 0 <= p && p / 8 < |s|
  {
    s[p / 8] & Mask(p % 8) == 1
  }

  /** The bytes after `Add(key, k)`. Each of the `k + 1` iterations of its loop
      hashes with hasher `k` (not with the loop index), so every iteration sets
      the same slot; for a negative `k` the loop does not run. */
  function Inserted(s: seq<bv8>, h: Hashes, key: string, size: int32, k: int): (r: seq<bv8>)
    requires ValidHashes(h) && |s| == size as int
    requires k < 0 || (0 < size && k < FamilySize)
    ensures |r| == |s|
    ensures forall j :: 0 <= j < |s| ==> s[j] | r[j] == r[j]
    ensures k < 0 ==> r == s
    ensures k >= 0 ==>
      var p := Slot(h, key, size, k) as int;
      && BitSet(r, p)
      && r[p / 8] & !Mask(p % 8) == s[p / 8] & !Mask(p % 8)
      && forall j :: 0 <= j < |s| && j != p / 8 ==> r[j] == s[j]
  {
    if k < 0 then s else SetBit(s, Slot(h, key, size, k) as int)
  }

  /** What `Exists(key, k)` returns: every slot of hashers `0 .. k - 1` passes
      the test of `Hit`. */
  predicate Present(s: seq<bv8>, h: Hashes, key: string, size: int32, k: int)
    requires ValidHashes(h) && |s| == size as int
    requires k <= 0 || (0 < size && k <= FamilySize)
  {
    forall i :: 0 <= i < k ==> Hit(s, Slot(h, key, size, i) as int)
  }

  lemma SetBitIdempotent(s: seq<bv8>, p: int)
    requires 0 <= p && p / 8 < |s|
    ensures SetBit(SetBit(s, p), p) == SetBit(s, p)
  {
    assert SetBit(s, p)[p / 8] | Mask(p % 8) == SetBit(s, p)[p / 8];
  }

  /** The filter of `main.go`: `size` bytes, where `size` is also the number
      of slots, so only the first `(size - 1) / 8 + 1` bytes are ever used. */
  class BloomFilter {
    const filter: array<bv8>
    const size: int32

    ghost predicate Valid()
    {
      filter.Length == size as int
    }

    /** `NewBloomFilter(size)`: `make([]uint8, size)` panics on a negative
        length; a zero size gives an empty filter. */
    constructor (size: int32)
      requires 0 <= size
      ensures Valid() && fresh(filter)
      ensures this.size == size && filter[..] == Zeros(size as int)
    {
      this.size := size;
      filter := new bv8[size as int](_ => 0 as bv8);
    }

    /** `Add(key, k)`: ORs one bit in place, `k + 1` times over. `murmurhash`
        divides by `size` and indexes the hasher table with `k`. */
    method Add(table: HasherTable, key: string, k: int)
      requires Valid() && table.Valid()
      requires k < 0 || (0 < size && k < FamilySize)
      modifies filter, table
      ensures table.Valid() && table.pending == old(table.pending)
      ensures filter[..] == Inserted(old(filter[..]), table.hashes, key, size, k)
    {
      var i := 0;
      while i <= k
        invariant i == 0 || 0 < i <= k + 1
        invariant table.Valid() && table.pending == old(table.pending)
        invariant filter[..] == if i == 0 then old(filter[..])
                                else Inserted(old(filter[..]), table.hashes, key, size, k)
      {
        ghost var before := filter[..];
        var idx := table.Murmurhash(key, size, k);
        var byteIndex := idx / 8;
        var bitPosition := idx % 8;
        filter[byteIndex] := filter[byteIndex] | ((1 as bv8) << bitPosition);
        assert filter[..] == SetBit(before, idx as int);
        if i > 0 {
          SetBitIdempotent(old(filter[..]), idx as int);
        }
        i := i + 1;
      }
    }

    /** `Exists(key, k)`: tests the slots of hashers `0 .. k - 1` in order and
        returns false at the first that fails; reads the filter only. */
    method Exists(table: HasherTable, key: string, k: int) returns (b: bool)
      requires Valid() && table.Valid()
      requires k <= 0 || (0 < size && k <= FamilySize)
      modifies table
      ensures table.Valid() && table.pending == old(table.pending)
      ensures unchanged(filter)
      ensures b == Present(filter[..], table.hashes, key, size, k)
    {
      var i := 0;
      while i < k
        invariant 0 <= i <= if k < 0 then 0 else k
        invariant table.Valid() && table.pending == old(table.pending)
        invariant forall j :: 0 <= j < i ==> Hit(filter[..], Slot(table.hashes, key, size, j) as int)
      {
        var idx := table.Murmurhash(key, size, i);
        var byteIndex := idx / 8;
        var bitPosition := idx % 8;
        var exist := (filter[byteIndex] & ((1 as bv8) << bitPosition)) == 1;
        if !exist {
          assert !Hit(filter[..], idx as int);
          return false;
        }
        i := i + 1;
      }
      return true;
    }
  }

  /** Every byte index `Add` and `Exists` compute, `p / 8`, lies in the filter;
      bytes from `(size - 1) / 8 + 1` on are never touched. */
  lemma ByteIndexInBounds(h: Hashes, key: string, size: int32, idx: int)
    requires ValidHashes(h) && 0 < size && 0 <= idx < FamilySize
    ensures 0 <= Slot(h, key, size, idx) / 8 <= (size - 1) / 8 < size
  {
  }

  /** Adding a key a second time changes nothing. */
  lemma InsertedIdempotent(s: seq<bv8>, h: Hashes, key: string, size: int32, k: int)
    requires ValidHashes(h) && |s| == size as int
    requires k < 0 || (0 < size && k < FamilySize)
    ensures Inserted(Inserted(s, h, key, size, k), h, key, size, k) == Inserted(s, h, key, size, k)
  {
    if k >= 0 {
      SetBitIdempotent(s, Slot(h, key, size, k) as int);
    }
  }

  /** The order of two additions does not matter, so iterating the members
      in any order (a Go map has none) yields the same bytes. */
  lemma InsertedCommute(s: seq<bv8>, h: Hashes, size: int32, key1: string, k1: int, key2: string, k2: int)
    requires ValidHashes(h) && |s| == size as int
    requires k1 < 0 || (0 < size && k1 < FamilySize)
    requires k2 < 0 || (0 < size && k2 < FamilySize)
    ensures Inserted(Inserted(s, h, key1, size, k1), h, key2, size, k2)
         == Inserted(Inserted(s, h, key2, size, k2), h, key1, size, k1)
  {
    if k1 >= 0 && k2 >= 0 {
      var p1, p2 := Slot(h, key1, size, k1) as int, Slot(h, key2, size, k2) as int;
      var a, b := SetBit(SetBit(s, p1), p2), SetBit(SetBit(s, p2), p1);
      assert |a| == |b|;
      forall j | 0 <= j < |a|
        ensures a[j] == b[j]
      {
        if j == p1 / 8 && j == p2 / 8 {
          assert a[j] == (s[j] | Mask(p1 % 8)) | Mask(p2 % 8);
          assert b[j] == (s[j] | Mask(p2 % 8)) | Mask(p1 % 8);
        }
      }
    }
  }

  /** The test of `Exists` passes only for a slot at bit 0 of its byte, and
      then exactly when that bit is set. */
  lemma HitOnlyAtBitZero(s: seq<bv8>, p: int)
    requires 0 <= p && p / 8 < |s|
    ensures Hit(s, p) <==> p % 8 == 0 && s[p / 8] & 1 == 1
  {
  }

  /** `Exists(key, k)` is true exactly when each of the first `k` slots of the
      key is at bit 0 of its byte and that bit is set. */
  lemma PresentIffBitZero(s: seq<bv8>, h: Hashes, key: string, size: int32, k: int)
    requires ValidHashes(h) && |s| == size as int
    requires k <= 0 || (0 < size && k <= FamilySize)
    ensures Present(s, h, key, size, k) <==>
      forall i :: 0 <= i < k ==>
        Slot(h, key, size, i) % 8 == 0 && s[Slot(h, key, size, i) / 8] & 1 == 1
  {
    forall i | 0 <= i < k {
      HitOnlyAtBitZero(s, Slot(h, key, size, i) as int);
    }
  }

  /** `Exists(key, 0)` is true on every filter: no slot is tested. */
  lemma PresentWithoutHashes(s: seq<bv8>, h: Hashes, key: string, size: int32, k: int)
    requires ValidHashes(h) && |s| == size as int && k <= 0
    ensures Present(s, h, key, size, k)
  {
  }

  /** On a filter with no bit set, `Exists` with at least one hasher is false. */
  lemma EmptyFilterRejects(h: Hashes, key: string, size: int32, k: int)
    requires ValidHashes(h) && 0 < size && 0 < k <= FamilySize
    ensures !Present(Zeros(size as int), h, key, size, k)
  {
    assert !Hit(Zeros(size as int), Slot(h, key, size, 0) as int);
  }
}
