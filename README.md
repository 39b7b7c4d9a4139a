# Bloom filter of simple-bloom-filter, modelled in Dafny

This project models the Bloom filter in `main.go`, written in Go:

- the table of 100 seeded murmur3 hashers and `murmurhash`, which reduces a key to a slot in `[0, size)`;
- the byte-packed `BloomFilter` with `NewBloomFilter`, `Add` and `Exists`;
- the loop of `main` that, for each number of hashers `k` in `0 .. 99`, fills a fresh filter of 1000 slots with the members and counts the queried non-members reported present.

The model follows the code **as written**. In particular, `Add(key, k)` hashes with hasher `k` on each of its `k + 1` iterations, and `Exists` compares `byte & (1 << bit)` with `1`. So the filter as written does **not** have the "no false negatives" property of a Bloom filter, and nothing here proves that it does. A separate module, `Corrected`, defines the evidently intended filter and proves that property for it. That filter uses hasher `i` on iteration `i`, an exclusive bound, and the test `!= 0`.

Files:

- `hashing.dfy` (module `Hashing`): the hash family. Go's `int32`, the seeds and an abstract digest (`Hashes`), and the slot function `Slot`. A class `HasherTable` holds the state of the shared hashers. For each hasher that state is the bytes written to it since its last reset. `Murmurhash` writes the key, takes the sum and resets the hasher, which returns the table to the state it started in. This is why `Slot` is a pure function of `(key, size, idx)`.
- `bloom.dfy` (module `Bloom`): the filter as written. The class `BloomFilter` holds an `array<bv8>` and its size. `Add` and `Exists` are methods with loops, proved against the functions `Inserted` and `Present` on the byte sequence. Lemmas about those functions follow.
- `evaluator.dfy` (module `Evaluator`): the experiment of `main`. It has the counting loop (`CountFalsePositives`), one configuration (`RunConfiguration`) and the sweep over `k` (`Experiment`). Each is proved against the function `FalsePositives`, and that function is related to an independent set-based count.
- `corrected.dfy` (module `Corrected`): the intended filter and its no-false-negative lemmas. The intended `Add(key, k)` sets the sequence of slots of hashers `0 .. k - 1` in loop order (`Slots`, `SetAll`). The general lemmas are proved over any such sequence.
- `findings.dfy` (module `Findings`): concrete inputs on which the filter as written fails, with the intended filter shown correct on the same inputs.

Points about the code that the model keeps:

- `NewBloomFilter(0)` yields an empty filter. On such a filter, `Add` with `k >= 0` and `Exists` with `k > 0` divide by zero in `murmurhash`. The constructor therefore requires only `size >= 0`, because `make` panics on a negative length.
- `Add` and `Exists` do not walk the same hashers; see Findings.
- `size` bytes are allocated for `size` slots. Every byte index is therefore in bounds, and only the first `(size - 1) / 8 + 1` bytes are ever used.

Panics of the source are the preconditions of the model:

- division by zero in `murmurhash` when `size == 0`;
- an index outside the hasher table when `k >= 100` in `Add`;
- a negative length in `make`.

`Exists` with `k > 100` reaches hasher 100 only if all of hashers `0 .. 99` pass their tests. Otherwise it returns false first. The model requires `k <= 100` for `Exists`; see "## Left out".

A negative `k` makes the loops of `Add` and `Exists` run zero times, and it is modelled that way.

## Model

| member | source | states |
|---|---|---|
| `Hashing.Slot` | main.go:39-44 | the slot `murmurhash` returns for a positive `size` lies in `[0, size)`; taking the `uint32` remainder and converting it back to `int32` loses nothing |
| `Hashing.HasherTable.constructor` | main.go:28-31 | the table `init` builds has exactly 100 hashers, one per seed, each with nothing written to it |
| `Hashing.HasherTable.Murmurhash` | main.go:39-44 | needs `size > 0` and `0 <= idx < 100`; returns `Slot(key, size, idx)`, a function of its arguments alone, and leaves every hasher reset; so earlier and later calls cannot change what a call returns |
| `Bloom.BloomFilter.constructor` | main.go:46-51 | `NewBloomFilter(size)` for `size >= 0` gives a fresh array of exactly `size` bytes, all zero, with the recorded size equal to the argument |
| `Bloom.Inserted` | main.go:53-62 | what `Add` does to the bytes. For `k >= 0` the slot `p` of hasher `k` becomes set, no other bit of byte `p / 8` changes, and every other byte is unchanged. No set bit is ever cleared. The length is kept. For `k < 0` nothing changes |
| `Bloom.BloomFilter.Add` | main.go:53-62 | needs `k < 100` and a positive size when `k >= 0`; afterwards the bytes are `Inserted` of the old bytes, the array contents are the only filter state changed, and the hasher table is as before |
| `Bloom.SetBitIdempotent` | main.go:60 | OR-ing the same bit into a byte twice gives the same bytes as doing it once; this is why the `k + 1` iterations of `Add` have the effect of one |
| `Bloom.InsertedIdempotent` | main.go:53-62 | calling `Add(key, k)` twice leaves the same bytes as calling it once |
| `Bloom.InsertedCommute` | main.go:109-111 | two consecutive additions, in either order, give the same bytes |
| `Evaluator.InsertAllAppend` | main.go:109-111 | adding the keys of `c` and then those of `d` gives the same bytes as adding the keys of `c + d` |
| `Evaluator.InsertAllMoveToEnd` | main.go:109-111 | adding a key before all the keys of `d` or after them gives the same bytes |
| `Evaluator.InsertAllOrderIrrelevant` | main.go:109-111 | two member sequences that are permutations of each other (equal multisets) give the same bytes. So the unordered iteration over the member map does not affect the filter, whatever order the map yields |
| `Bloom.ByteIndexInBounds` | main.go:48-60 | every byte index `idx / 8` computed by `Add` (and by `Exists`, main.go:67-69) lies in `[0, (size - 1) / 8]`, inside the `size` bytes allocated |
| `Bloom.BloomFilter.Exists` | main.go:64-81 | needs `k <= 100` and a positive size when `k > 0`; returns exactly `Present`, that is, every slot of hashers `0 .. k - 1` passes the test `byte & (1 << bit) == 1`; the filter is unchanged and the hasher table is as before |
| `Bloom.HitOnlyAtBitZero` | main.go:73 | the test `filter[p / 8] & (1 << (p % 8)) == 1` holds if and only if `p % 8 == 0` and bit 0 of that byte is set |
| `Bloom.PresentIffBitZero` | main.go:64-81 | `Exists(key, k)` is true if and only if, for each `i < k`, the slot of hasher `i` is at bit 0 of its byte and that bit is set |
| `Bloom.PresentWithoutHashes` | main.go:66-80 | `Exists(key, k)` with `k <= 0` is true on every filter |
| `Bloom.EmptyFilterRejects` | main.go:64-81 | on a filter with no bit set, `Exists(key, k)` with `k >= 1` is false for every key |
| `Evaluator.InsertAll` | main.go:109-111 | adding every member in turn keeps the length of the filter and never clears a bit |
| `Evaluator.FalsePositives` | main.go:113-123 | the false-positive count of a query sequence is at most its length |
| `Evaluator.FalsePositivesCountsNonMembersReported` | main.go:113-123 | the count equals the number of positions of the queried sequence whose key is in the non-member set and is reported present by `Exists`; keys that are members, or that `Exists` rejects, are never counted |
| `Evaluator.FalsePositivesWithoutHashes` | main.go:106-123 | in the configuration `k = 0` every queried non-member is counted, because `Exists(key, 0)` is always true |
| `Evaluator.CountFalsePositives` | main.go:113-123 | the counting loop returns `FalsePositives` of the filter's bytes over the dataset; the hasher table is as before |
| `Evaluator.RunConfiguration` | main.go:107-123 | one configuration: a fresh 1000-slot filter receives `Add(key, k)` for every member, then the count is `FalsePositives` of `InsertAll` of the members over the dataset |
| `Evaluator.Experiment` | main.go:106-126 | the sweep gives 100 counts, the `k`-th being the false-positive count of configuration `k` over the dataset, the numerator of the printed ratio |
| `Corrected.Slots` | main.go:54-55 | the intended `Add(key, k)` and `Exists(key, k)` visit exactly `k` slots (none for `k <= 0`), those of hashers `0 .. k - 1`, each addressing a byte of the filter |
| `Corrected.SetAll` | main.go:54-61 | setting a sequence of slots in turn, as the intended `Add` loop does, keeps the length and never clears a bit |
| `Corrected.SetAllCovers` | main.go:54-61 | after the slots of a sequence are set in turn, every one of them is set, including those set early and passed over by later iterations |
| `Corrected.SetAllFrame` | main.go:54-61 | setting a sequence of slots changes no byte that holds none of them |
| `Corrected.InsertAll` | main.go:109-111 | adding every member with the intended `Add` keeps the length and never clears a bit |
| `Corrected.NoFalseNegatives` | main.go:53-81 | right after the intended `Add(key, k)`, the intended `Exists(key, k)` is true, whatever the filter held |
| `Corrected.NoFalseNegativesAfterAll` | main.go:106-116 | after the intended `Add(key, k)` of every key of a sequence, each of those keys is reported present by the intended `Exists(key, k)`, whatever was added before or after it |
| `Corrected.InsertedTouchesOnlyTestedBytes` | main.go:54-55 | the intended `Add(key, k)` changes no byte other than those holding a slot that the intended `Exists(key, k)` tests; with `k = 0` it changes nothing |
| `Corrected.EmptyFilterRejects` | main.go:64-81 | on a filter with no bit set, the intended `Exists(key, k)` with `k >= 1` is false for every key |
| `Findings.TestEqualsOneMissesSetBit` | main.go:73 | with a digest that always gives 1 and 1000 slots, `Add("a", 1)` and then `Exists("a", 1)` reports "a" absent as written, and present in the corrected filter |
| `Findings.AddUsesUntestedHasher` | main.go:55 | with hashers 0 and 1 at slots 0 and 16 (both bit 0 of a byte), `Add("a", 1)` and then `Exists("a", 1)` reports "a" absent as written, and present in the corrected filter |
| `Findings.InclusiveBoundSetsUntestedBit` | main.go:54 | as written, `Add(key, 0)` sets a bit of an empty filter for every key and size; the intended `Add(key, 0)` leaves it unchanged |

## Left out

- The internals of murmur3 (`New32WithSeed`, the mixing in `Write` and `Sum32`): a foreign library. The digest is the parameter `Digest`, an arbitrary total function of seed and key. The effect of `Write` and `Reset` on a hasher is kept as the accumulated bytes in `HasherTable`.
- The conversion of a Go string to its UTF-8 bytes is folded into the abstract digest, which takes the string.
- The seeds come from `rand.Uint32()` in `init`. They are nondeterministic, so the model takes them as an arbitrary sequence of 100 values.
- UUID generation and the filling of the `dataset`, `datasetExists` and `datasetNotExist` maps (main.go:88-104) are an external key source. The model takes the members as a sequence in the order the map happens to yield them, the dataset as a sequence, and the non-members as a set.
- `fmt.Println` and the `float64` ratio `falsePositive / len(dataset)` (main.go:125) are output and floating point. The model returns the integer counts, and the denominator is `|dataset|`.
- `Print` (main.go:83-85) is console output.
- False-positive-rate estimates and the monotonicity of the rate in the filter size or the member count are statistical claims, not properties of this code.
- Bloom.BloomFilter.Exists: requires `k <= 100`. For `k > 100` the source returns false at the first failed test among hashers `0 .. 99`, and reaches `hashFunctions[100]` (a panic) only when all 100 pass. The model does not cover that case. `main` calls `Exists` only with `k < 100`.
- Runtime panics are not modelled as behaviour. The conditions that would panic are preconditions instead.

## Findings

| source | as written | input that shows it | evidently intended | confidence | as-written member | corrected member |
|---|---|---|---|---|---|---|
| main.go:73 | `b.filter[byteIndex]&(1<<bitPosition) == 1` is true only for bit 0 of a byte | digest always 1, 1000 slots: `Add("a", 1)` sets bit 1 of byte 0; `Exists("a", 1)` then returns false | test the bit with `!= 0` | high (proved; not executed) | `Findings.TestEqualsOneMissesSetBit` | `Corrected.NoFalseNegatives` |
| main.go:55 | `murmurhash(key, b.size, numOfHashFunctions)` uses hasher `k` on every iteration, and `Exists(key, k)` never tests hasher `k` | hasher 0 at slot 0, hasher 1 at slot 16, 1000 slots: `Add("a", 1)` sets slot 16; `Exists("a", 1)` tests slot 0 and returns false | hash with hasher `i` on iteration `i` | high (proved; not executed) | `Findings.AddUsesUntestedHasher` | `Corrected.NoFalseNegativesAfterAll` |
| main.go:54 | `i <= numOfHashFunctions` runs `k + 1` iterations, one more than `Exists` tests | any key and size: `Add(key, 0)` on an empty filter sets a bit although `Exists(key, 0)` tests none | loop with `i < numOfHashFunctions` | medium (proved; not executed) | `Findings.InclusiveBoundSetsUntestedBit` | `Corrected.InsertedTouchesOnlyTestedBytes` |

The experiment in `main` runs the filter as written, so `Evaluator` is modelled on `Bloom` and not on `Corrected`.
