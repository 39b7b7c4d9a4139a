/** The experiment of `main`: for each number of hashers `k` in `0 .. 99`, a
    fresh filter of 1000 slots receives every member with `Add(key, k)`, then
    every key of the dataset is queried with `Exists(key, k)` and the queried
    non-members reported present are counted. */
module Evaluator {
  import opened Hashing
  import opened Bloom

  /** The size `main` gives every filter. */
  const FilterSize: int32 := 1000

  /** The bytes after `Add(key, k)` for every key of `keys`, in order. */
  function InsertAll(s: seq<bv8>, h: Hashes, size: int32, keys: seq<string>, k: int): (r: seq<bv8>)
    requires ValidHashes(h) && |s| == size as int
    requires k < 0 || (0 < size && k < FamilySize)
    ensures |r| == |s|
    ensures forall j :: 0 <= j < |s| ==> s[j] | r[j] == r[j]
    decreases |keys|
  {
    if keys == [] then s
    else
      Inserted(InsertAll(s, h, size, keys[..|keys| - 1], k), h, keys[|keys| - 1], size, k)
  }

  /** Adding `c` and then `d` is adding `c + d`. */
  lemma {:induction false} InsertAllAppend(s: seq<bv8>, h: Hashes, size: int32,
                                           c: seq<string>, d: seq<string>, k: int)
    requires ValidHashes(h) && |s| == size as int
    requires k < 0 || (0 < size && k < FamilySize)
    ensures InsertAll(s, h, size, c + d, k) == InsertAll(InsertAll(s, h, size, c, k), h, size, d, k)
    decreases |d|
  {
    if d == [] {
      assert c + d == c;
    } else {
      var n := |d| - 1;
      assert (c + d)[..|c + d| - 1] == c + d[..n];
      assert (c + d)[|c + d| - 1] == d[n];
      InsertAllAppend(s, h, size, c, d[..n], k);
    }
  }

  /** A key added first or after all of `d` leaves the same bytes. */
  lemma {:induction false} InsertAllMoveToEnd(s: seq<bv8>, h: Hashes, size: int32,
                                              x: string, d: seq<string>, k: int)
    requires ValidHashes(h) && |s| == size as int
    requires k < 0 || (0 < size && k < FamilySize)
    ensures InsertAll(s, h, size, [x] + d, k) == InsertAll(s, h, size, d + [x], k)
    decreases |d|
  {
    if d != [] {
      var n := |d| - 1;
      var y := d[n];
      assert ([x] + d)[..|d|] == [x] + d[..n];
      assert (d + [x])[..|d|] == d;
      assert (d[..n] + [x])[..n] == d[..n];
      InsertAllMoveToEnd(s, h, size, x, d[..n], k);
      InsertedCommute(InsertAll(s, h, size, d[..n], k), h, size, x, k, y, k);
      assert d[..n] + [y] == d;
    }
  }

  /** Moving a key from the end of the sequence to any earlier position
      leaves the same bytes. */
  lemma InsertAllMoveInside(s: seq<bv8>, h: Hashes, size: int32,
                            c: seq<string>, x: string, d: seq<string>, k: int)
    requires ValidHashes(h) && |s| == size as int
    requires k < 0 || (0 < size && k < FamilySize)
    ensures InsertAll(s, h, size, c + d + [x], k) == InsertAll(s, h, size, c + [x] + d, k)
  {
    var base := InsertAll(s, h, size, c, k);
    assert c + d + [x] == c + (d + [x]);
    assert c + [x] + d == c + ([x] + d);
    InsertAllAppend(s, h, size, c, d + [x], k);
    InsertAllAppend(s, h, size, c, [x] + d, k);
    InsertAllMoveToEnd(base, h, size, x, d, k);
  }

  /** Taking the last element off `a` and an equal element off `b` keeps
      the two sequences permutations of each other. */
  lemma RemoveMatching(a: seq<string>, b: seq<string>, j: int)
    requires multiset(a) == multiset(b) && a != []
    requires 0 <= j < |b| && b[j] == a[|a| - 1]
    ensures multiset(a[..|a| - 1]) == multiset(b[..j] + b[j + 1..])
  {
    var n, x := |a| - 1, b[j];
    assert a == a[..n] + [x];
    assert b == b[..j] + [x] + b[j + 1..];
    var left, right := multiset(a[..n]), multiset(b[..j] + b[j + 1..]);
    assert left + multiset{x} == right + multiset{x};
    forall e
      ensures left[e] == right[e]
    {
      assert (left + multiset{x})[e] == (right + multiset{x})[e];
    }
  }

  /** The bytes after adding the members depend only on which members there
      are, not on their order, so the unordered iteration of `main` over the
      member map yields the same filter whatever order the map gives. */
  lemma {:induction false} InsertAllOrderIrrelevant(s: seq<bv8>, h: Hashes, size: int32,
                                                    a: seq<string>, b: seq<string>, k: int)
    requires ValidHashes(h) && |s| == size as int
    requires k < 0 || (0 < size && k < FamilySize)
    requires multiset(a) == multiset(b)
    ensures InsertAll(s, h, size, a, k) == InsertAll(s, h, size, b, k)
    decreases |a|
  {
    if a == [] {
      assert |b| == |multiset(b)| == 0;
    } else {
      var n := |a| - 1;
      var x := a[n];
      assert a == a[..n] + [x];
      assert x in multiset(b);
      var j :| 0 <= j < |b| && b[j] == x;
      var c, d := b[..j], b[j + 1..];
      assert b == c + [x] + d;
      RemoveMatching(a, b, j);
      InsertAllOrderIrrelevant(s, h, size, a[..n], c + d, k);
      calc {
        InsertAll(s, h, size, a, k);
        Inserted(InsertAll(s, h, size, a[..n], k), h, x, size, k);
        Inserted(InsertAll(s, h, size, c + d, k), h, x, size, k);
        { assert (c + d + [x])[..|c + d|] == c + d; }
        InsertAll(s, h, size, c + d + [x], k);
        { InsertAllMoveInside(s, h, size, c, x, d, k); }
        InsertAll(s, h, size, c + [x] + d, k);
      }
    }
  }

  /** The number of queried keys that are non-members and that `Exists`
      reports present: never more than the number of queried keys. */
  function FalsePositives(s: seq<bv8>, h: Hashes, size: int32, keys: seq<string>,
                          nonMembers: set<string>, k: int): (r: nat)
    requires ValidHashes(h) && |s| == size as int
    requires k <= 0 || (0 < size && k <= FamilySize)
    ensures r <= |keys|
    decreases |keys|
  {
    if keys == [] then 0
    else
      var key := keys[|keys| - 1];
      FalsePositives(s, h, size, keys[..|keys| - 1], nonMembers, k)
        + (if key in nonMembers && Present(s, h, key, size, k) then 1 else 0)
  }

  /** The positions of the queried keys that are non-members reported present. */
  ghost function FalsePositiveIndices(s: seq<bv8>, h: Hashes, size: int32, keys: seq<string>,
                                      nonMembers: set<string>, k: int): set<int>
    requires ValidHashes(h) && |s| == size as int
    requires k <= 0 || (0 < size && k <= FamilySize)
  {
    set j | 0 <= j < |keys| && keys[j] in nonMembers && Present(s, h, keys[j], size, k)
  }

  /** The count is exactly the number of queried positions holding a
      non-member reported present: a member, or a non-member reported absent,
      is never counted. */
  lemma {:induction false} FalsePositivesCountsNonMembersReported(
    s: seq<bv8>, h: Hashes, size: int32, keys: seq<string>, nonMembers: set<string>, k: int)
    requires ValidHashes(h) && |s| == size as int
    requires k <= 0 || (0 < size && k <= FamilySize)
    ensures FalsePositives(s, h, size, keys, nonMembers, k)
         == |FalsePositiveIndices(s, h, size, keys, nonMembers, k)|
    decreases |keys|
  {
    if keys != [] {
      var n := |keys| - 1;
      var prefix := keys[..n];
      FalsePositivesCountsNonMembersReported(s, h, size, prefix, nonMembers, k);
      var all := FalsePositiveIndices(s, h, size, keys, nonMembers, k);
      var before := FalsePositiveIndices(s, h, size, prefix, nonMembers, k);
      var last := if keys[n] in nonMembers && Present(s, h, keys[n], size, k) then {n} else {};
      assert all == before + last;
      assert n !in before;
    }
  }

  /** With no hasher, as in the first configuration of `main`, every queried
      non-member is counted. */
  lemma FalsePositivesWithoutHashes(s: seq<bv8>, h: Hashes, size: int32, keys: seq<string>,
                                    nonMembers: set<string>, k: int)
    requires ValidHashes(h) && |s| == size as int && k <= 0
    ensures FalsePositives(s, h, size, keys, nonMembers, k)
         == |set j | 0 <= j < |keys| && keys[j] in nonMembers|
  {
    FalsePositivesCountsNonMembersReported(s, h, size, keys, nonMembers, k);
    assert FalsePositiveIndices(s, h, size, keys, nonMembers, k)
        == set j | 0 <= j < |keys| && keys[j] in nonMembers;
  }

  /** The counting loop: queries every key of `dataset` and counts the
      non-members reported present. */
  method CountFalsePositives(bloom: BloomFilter, table: HasherTable, dataset: seq<string>,
                             nonMembers: set<string>, k: int) returns (falsePositive: nat)
    requires bloom.Valid() && table.Valid()
    requires k <= 0 || (0 < bloom.size && k <= FamilySize)
    modifies table
    ensures table.Valid() && table.pending == old(table.pending)
    ensures falsePositive == FalsePositives(bloom.filter[..], table.hashes, bloom.size, dataset, nonMembers, k)
  {
    falsePositive := 0;
    for n := 0 to |dataset|
      invariant table.Valid() && table.pending == old(table.pending)
      invariant falsePositive
             == FalsePositives(bloom.filter[..], table.hashes, bloom.size, dataset[..n], nonMembers, k)
    {
      var key := dataset[n];
      var reported := bloom.Exists(table, key, k);
      var ok := key in nonMembers;
      if reported && ok {
        falsePositive := falsePositive + 1;
      }
      assert dataset[..n + 1][..n] == dataset[..n];
    }
    assert dataset[..|dataset|] == dataset;
  }

  /** One configuration of `main`: a fresh filter of `FilterSize` slots,
      every member added with `Add(key, k)`, then the counting loop. */
  method RunConfiguration(table: HasherTable, members: seq<string>, dataset: seq<string>,
                          nonMembers: set<string>, k: int) returns (falsePositive: nat)
    requires table.Valid() && 0 <= k < FamilySize
    modifies table
    ensures table.Valid() && table.pending == old(table.pending)
    ensures var filter := InsertAll(Zeros(FilterSize as int), table.hashes, FilterSize, members, k);
      falsePositive == FalsePositives(filter, table.hashes, FilterSize, dataset, nonMembers, k)
  {
    var bloom := new BloomFilter(FilterSize);
    for j := 0 to |members|
      invariant table.Valid() && table.pending == old(table.pending)
      invariant bloom.filter[..]
             == InsertAll(Zeros(FilterSize as int), table.hashes, FilterSize, members[..j], k)
    {
      bloom.Add(table, members[j], k);
      assert members[..j + 1][..j] == members[..j];
    }
    assert members[..|members|] == members;
    falsePositive := CountFalsePositives(bloom, table, dataset, nonMembers, k);
  }

  /** The loop of `main` over `k = 0 .. 99`: `counts[k]` is the number of
      false positives of configuration `k`, the numerator of the ratio `main`
      prints over `|dataset|`. */
  method Experiment(table: HasherTable, members: seq<string>, dataset: seq<string>,
                    nonMembers: set<string>) returns (counts: seq<nat>)
    requires table.Valid()
    modifies table
    ensures table.Valid() && table.pending == old(table.pending)
    ensures |counts| == FamilySize
    ensures forall k :: 0 <= k < FamilySize ==>
      var filter := InsertAll(Zeros(FilterSize as int), table.hashes, FilterSize, members, k);
      counts[k] == FalsePositives(filter, table.hashes, FilterSize, dataset, nonMembers, k)
  {
    counts := [];
    var i := 0;
    while i < FamilySize
      invariant 0 <= i <= FamilySize && |counts| == i
      invariant table.Valid() && table.pending == old(table.pending)
      invariant forall k :: 0 <= k < i ==>
        var filter := InsertAll(Zeros(FilterSize as int), table.hashes, FilterSize, members, k);
        counts[k] == FalsePositives(filter, table.hashes, FilterSize, dataset, nonMembers, k)
    {
      var falsePositive := RunConfiguration(table, members, dataset, nonMembers, i);
      counts := counts + [falsePositive];
      i := i + 1;
    }
  }
}
