/** The filter as evidently intended: `Add(key, k)` sets the slot of each
    hasher `i` in `0 .. k - 1`, and `Exists(key, k)` tests that bit
    `p % 8` of byte `p / 8` is non-zero for the same hashers. It shares the
    byte layout and the hash family with the filter as written. */
module Corrected {
  import opened Hashing
  import Bloom

  /** Every position of `ps` addresses a byte of a filter of `n` bytes. */
  predicate InRange(ps: seq<int>, n: int)
  {
    forall i :: 0 <= i < |ps| ==> 0 <= ps[i] && ps[i] / 8 < n
  }

  /** The slots of hashers `0 .. k - 1` for `key`, in the order the loop visits them. */
  function Slots(h: Hashes, key: string, size: int32, k: int): (ps: seq<int>)
    requires ValidHashes(h) && (k <= 0 || (0 < size && k <= FamilySize))
    ensures |ps| == if k <= 0 then 0 else k
    ensures InRange(ps, size as int)
  {
    if k <= 0 then [] else seq(k, i requires 0 <= i < k => Slot(h, key, size, i) as int)
  }

  /** The bytes after setting the slots of `ps`, first to last. */
  function SetAll(s: seq<bv8>, ps: seq<int>): (r: seq<bv8>)
    requires InRange(ps, |s|)
    ensures |r| == |s|
    ensures forall j :: 0 <= j < |s| ==> s[j] | r[j] == r[j]
    decreases |ps|
  {
    if ps == [] then s else Bloom.SetBit(SetAll(s, ps[..|ps| - 1]), ps[|ps| - 1])
  }

  /** Every slot of `ps` is set. */
  predicate Covered(s: seq<bv8>, ps: seq<int>)
    requires InRange(ps, |s|)
  {
    forall i :: 0 <= i < |ps| ==> Bloom.BitSet(s, ps[i])
  }

  /** The bytes after the intended `Add(key, k)`. */
  function Inserted(s: seq<bv8>, h: Hashes, key: string, size: int32, k: int): seq<bv8>
    requires ValidHashes(h) && |s| == size as int
    requires k <= 0 || (0 < size && k <= FamilySize)
  {
    SetAll(s, Slots(h, key, size, k))
  }

  /** What the intended `Exists(key, k)` returns: every slot of hashers
      `0 .. k - 1` is set. */
  predicate Present(s: seq<bv8>, h: Hashes, key: string, size: int32, k: int)
    requires ValidHashes(h) && |s| == size as int
    requires k <= 0 || (0 < size && k <= FamilySize)
  {
    Covered(s, Slots(h, key, size, k))
  }

  /** The bytes after the intended `Add(key, k)` for every key of `keys`. */
  function InsertAll(s: seq<bv8>, h: Hashes, size: int32, keys: seq<string>, k: int): (r: seq<bv8>)
    requires ValidHashes(h) && |s| == size as int
    requires k <= 0 || (0 < size && k <= FamilySize)
    ensures |r| == |s|
    ensures forall j :: 0 <= j < |s| ==> s[j] | r[j] == r[j]
    decreases |keys|
  {
    if keys == [] then s
    else Inserted(InsertAll(s, h, size, keys[..|keys| - 1], k), h, keys[|keys| - 1], size, k)
  }

  /** A filter that has every bit of another one keeps its set slots. */
  lemma CoveredKept(s: seq<bv8>, r: seq<bv8>, ps: seq<int>)
    requires |r| == |s| && InRange(ps, |s|)
    requires forall j :: 0 <= j < |s| ==> s[j] | r[j] == r[j]
    requires Covered(s, ps)
    ensures Covered(r, ps)
  {
    forall i | 0 <= i < |ps|
      ensures Bloom.BitSet(r, ps[i])
    {
      assert s[ps[i] / 8] | r[ps[i] / 8] == r[ps[i] / 8];
    }
  }

  /** Setting the slots of `ps` leaves all of them set. */
  lemma {:induction false} SetAllCovers(s: seq<bv8>, ps: seq<int>)
    requires InRange(ps, |s|)
    ensures Covered(SetAll(s, ps), ps)
    decreases |ps|
  {
    if ps != [] {
      var n := |ps| - 1;
      var before := SetAll(s, ps[..n]);
      SetAllCovers(s, ps[..n]);
      CoveredKept(before, SetAll(s, ps), ps[..n]);
      forall i | 0 <= i < |ps|
        ensures Bloom.BitSet(SetAll(s, ps), ps[i])
      {
        if i < n {
          assert ps[..n][i] == ps[i];
        }
      }
    }
  }

  /** Setting the slots of `ps` changes no byte that holds none of them. */
  lemma {:induction false} SetAllFrame(s: seq<bv8>, ps: seq<int>, j: int)
    requires InRange(ps, |s|) && 0 <= j < |s|
    requires forall i :: 0 <= i < |ps| ==> ps[i] / 8 != j
    ensures SetAll(s, ps)[j] == s[j]
    decreases |ps|
  {
    if ps != [] {
      var n := |ps| - 1;
      assert forall i :: 0 <= i < n ==> ps[..n][i] == ps[i];
      SetAllFrame(s, ps[..n], j);
    }
  }

  /** No false negative: right after the intended `Add(key, k)`, the intended
      `Exists(key, k)` is true, whatever the filter held before. */
  lemma NoFalseNegatives(s: seq<bv8>, h: Hashes, key: string, size: int32, k: int)
    requires ValidHashes(h) && |s| == size as int
    requires k <= 0 || (0 < size && k <= FamilySize)
    ensures Present(Inserted(s, h, key, size, k), h, key, size, k)
  {
    SetAllCovers(s, Slots(h, key, size, k));
  }

  /** No false negative after any sequence of insertions: every key added,
      before or after any others, is reported present. */
  lemma {:induction false} NoFalseNegativesAfterAll(s: seq<bv8>, h: Hashes, size: int32,
                                                    keys: seq<string>, k: int, n: int)
    requires ValidHashes(h) && |s| == size as int
    requires k <= 0 || (0 < size && k <= FamilySize)
    requires 0 <= n < |keys|
    ensures Present(InsertAll(s, h, size, keys, k), h, keys[n], size, k)
    decreases |keys|
  {
    var last := |keys| - 1;
    var before := InsertAll(s, h, size, keys[..last], k);
    if n == last {
      NoFalseNegatives(before, h, keys[n], size, k);
    } else {
      assert keys[..last][n] == keys[n];
      NoFalseNegativesAfterAll(s, h, size, keys[..last], k, n);
      CoveredKept(before, InsertAll(s, h, size, keys, k), Slots(h, keys[n], size, k));
    }
  }

  /** The intended `Add(key, k)` changes no byte other than those holding a
      slot that the intended `Exists(key, k)` tests; in particular
      `Add(key, 0)` changes nothing. */
  lemma InsertedTouchesOnlyTestedBytes(s: seq<bv8>, h: Hashes, key: string,
                                       size: int32, k: int, j: int)
    requires ValidHashes(h) && |s| == size as int
    requires k <= 0 || (0 < size && k <= FamilySize)
    requires 0 <= j < |s|
    requires forall i :: 0 <= i < k ==> Slot(h, key, size, i) / 8 != j as int32
    ensures Inserted(s, h, key, size, k)[j] == s[j]
  {
    var ps := Slots(h, key, size, k);
    forall i | 0 <= i < |ps|
      ensures ps[i] / 8 != j
    {
      assert ps[i] == Slot(h, key, size, i) as int;
    }
    SetAllFrame(s, ps, j);
  }

  /** On a filter with no bit set, the intended `Exists` with at least one
      hasher is false. */
  lemma EmptyFilterRejects(h: Hashes, key: string, size: int32, k: int)
    requires ValidHashes(h) && 0 < size && 0 < k <= FamilySize
    ensures !Present(Bloom.Zeros(size as int), h, key, size, k)
  {
    var ps := Slots(h, key, size, k);
    assert !Bloom.BitSet(Bloom.Zeros(size as int), ps[0]);
  }
}
