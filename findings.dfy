/** Inputs on which the filter as written reports a key it has just added as
    absent, or sets a bit that no query tests. Each lemma is stated for
    concrete hashers, the seeds and digest being the model's parameters. */
module Findings {
  import opened Hashing
  import opened Bloom
  import Corrected

  /** A digest that ignores its key and seed and always gives 1. */
  function ConstantOne(): Hashes
  {
    Hashes(seq(FamilySize, _ => 0 as bv32), (seed: bv32, key: string) => 1 as bv32)
  }

  /** A digest that returns its seed, with seeds putting hasher 0 at slot 0
      and hasher 1 at slot 16: both at bit 0 of a byte. */
  function SeedAsSlot(): Hashes
  {
    Hashes([0 as bv32, 16] + seq(FamilySize - 2, _ => 0 as bv32), (seed: bv32, key: string) => seed)
  }

  /** The test `== 1` fails for a set bit other than bit 0: in a filter of
      1000 slots, `Add("a", 1)` sets slot 1 (bit 1 of byte 0), and
      `Exists("a", 1)` then tests slot 1 and reports "a" absent. The intended
      filter reports it present. */
  lemma TestEqualsOneMissesSetBit()
    ensures var h := ConstantOne();
      && Slot(h, "a", 1000, 0) == Slot(h, "a", 1000, 1) == 1
      && !Present(Inserted(Zeros(1000), h, "a", 1000, 1), h, "a", 1000, 1)
      && Corrected.Present(Corrected.Inserted(Zeros(1000), h, "a", 1000, 1), h, "a", 1000, 1)
  {
    var h := ConstantOne();
    var s := Inserted(Zeros(1000), h, "a", 1000, 1);
    assert s[0] == 2;
    assert !Hit(s, Slot(h, "a", 1000, 0) as int);
    Corrected.NoFalseNegatives(Zeros(1000), h, "a", 1000, 1);
  }

  /** `Add(key, k)` hashes with hasher `k`, which `Exists(key, k)` never
      uses: in a filter of 1000 slots, `Add("a", 1)` sets slot 16 (hasher 1)
      while `Exists("a", 1)` tests slot 0 (hasher 0), which is unset, so
      "a" is reported absent although both slots sit at bit 0. */
  lemma AddUsesUntestedHasher()
    ensures var h := SeedAsSlot();
      && Slot(h, "a", 1000, 0) == 0 && Slot(h, "a", 1000, 1) == 16
      && !Present(Inserted(Zeros(1000), h, "a", 1000, 1), h, "a", 1000, 1)
      && Corrected.Present(Corrected.Inserted(Zeros(1000), h, "a", 1000, 1), h, "a", 1000, 1)
  {
    var h := SeedAsSlot();
    var s := Inserted(Zeros(1000), h, "a", 1000, 1);
    assert s[0] == 0;
    assert !Hit(s, Slot(h, "a", 1000, 0) as int);
    Corrected.NoFalseNegatives(Zeros(1000), h, "a", 1000, 1);
  }

  /** The inclusive bound makes `Add(key, 0)` set a bit on an empty filter,
      although `Exists(key, 0)` tests none; the intended `Add(key, 0)`
      leaves the filter alone. */
  lemma InclusiveBoundSetsUntestedBit(h: Hashes, key: string, size: int32)
    requires ValidHashes(h) && 0 < size
    ensures Inserted(Zeros(size as int), h, key, size, 0) != Zeros(size as int)
    ensures Corrected.Inserted(Zeros(size as int), h, key, size, 0) == Zeros(size as int)
  {
    var p := Slot(h, key, size, 0) as int;
    assert !BitSet(Zeros(size as int), p);
  }
}
