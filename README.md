# Hash tables with linear probing and with separate chaining

This project models the two single-threaded hash tables of the repository in
Dafny and proves what their code does.

- `ProbingHash` (`ProbingHash.hpp`) is open addressing with linear probing and
  lazy deletion. Each slot holds a tag (`EMPTY`, `VALID`, `DELETED`) and a value.
  - `emplace`/`insert` claim the first `EMPTY` or `DELETED` slot on the cyclic
    probe path `(hash(key) + I) % size`.
  - `at`/`operator[]` scan the whole table along that path for a `VALID` slot
    holding the key.
  - `erase` turns every `VALID` slot holding the key into a tombstone.
  - `rehash` rebuilds into `findNextPrime(2 * size)` slots and drops the
    tombstones.
- `ChainingHash` (`ChainingHash.hpp`) is separate chaining: a vector of lists.
  - `emplace` appends to bucket `hash(key) % size`.
  - Lookups and `erase` walk that one bucket.
  - `rehash` pushes every element into its home bucket of a
    `findNextPrime(2 * size)`-bucket vector.

Both tables use the identity hash on integer keys. They grow when the load
factor exceeds .75, to a size chosen by the same trial-division prime search.
The code stores only the value and compares lookups against it. Keys and
values are therefore both `nat`, and the lookup properties are stated for
tables filled with key == value, as the repository's benchmark does.

Modules, one file each:

| file | module | what it holds |
|---|---|---|
| `wrappers.dfy` | `Wrappers` | `Option` (the missing-key path of `at`) and `Result` (`out_of_range` of `bucket`) |
| `primes.dfy` | `Primes` | `isPrime` and `findNextPrime` as loops, proved against trial division and primality |
| `policy.dfy` | `HashPolicy` | `hash` (identity) and the load-factor test `load_factor() > .75`, written as `4 * count > 3 * capacity` |
| `slots.dfy` | `Slots` | the probing table as a value: a sequence of slots. Emplace, erase and rehash are functions on it, with their properties as lemmas |
| `probing.dfy` | `Probing` | class `ProbingHash` over an `array<Slot>` and a counter. Each method is proved against the `Slots` functions |
| `buckets.dfy` | `Buckets` | the bucket vector as a value: a sequence of sequences. Emplace, erase and rehash are functions on it, with their properties as lemmas |
| `chaining.dfy` | `Chaining` | class `ChainingHash` over an `array<seq<nat>>` and a counter. Each method is proved against the `Buckets` functions |

The class invariant `Consistent()` says two things: there is at least one slot
or bucket, and `numElements` equals the number of `VALID` slots or of chained
elements. `Contents()` is the multiset of stored values. `LoadOk()` says the
load factor is at most .75. Every method that changes the table, except
`clear()`, keeps `Consistent()`. Emplace keeps `LoadOk()`. Rehash keeps `Contents()` and the
counter.

Where the code and its informal description disagree, the model follows the
code:

- `erase` in `ProbingHash` tombstones every `VALID` slot holding the key, not
  just one.
- `count` in both classes and `bucket` in `ProbingHash` do not count or locate
  the key (see Findings).
- `clear()` empties the storage but leaves `numElements` unchanged.

## Model

| member | source | states |
|---|---|---|
| Primes.IsPrime | ProbingHash.hpp:193-204 | returns true exactly when no i with 2 <= i and i*i <= n divides n; for n >= 2 that is exactly "n is prime" (ChainingHash.hpp:164-175 is an identical copy) |
| Primes.TrialDivisionDecidesPrimality | ProbingHash.hpp:195-203 | for n >= 2, trial division by 2..sqrt(n) finds no divisor exactly when n has no divisor in 2..n-1 |
| Primes.FindNextPrime | ProbingHash.hpp:184-191 | returns the least m >= n that passes isPrime; for n >= 2 it is prime and no k in n..m-1 is prime; the loop ends because a prime lies above n (ChainingHash.hpp:155-162 is an identical copy) |
| Primes.NextPrime | ProbingHash.hpp:184-191 | the value findNextPrime(n) returns exists and is unique |
| Primes.PrimeAbove | ProbingHash.hpp:186-189 | for every n there is a prime p > n that passes trial division (Euclid, via n! + 1), so the increment loop terminates |
| Primes.ExistsPrimeAbove | ProbingHash.hpp:186-189 | some number above n passes trial division |
| HashPolicy.Hash | ProbingHash.hpp:206-208 | hash(key) is the key itself (ChainingHash.hpp:177-179 is an identical copy) |
| HashPolicy.OverLoaded | ProbingHash.hpp:90 | for a positive capacity, the integer test 4 * count > 3 * capacity holds exactly when the exact quotient count / capacity exceeds .75 (the same test is at ProbingHash.hpp:104 and ChainingHash.hpp:77 and 84) |
| HashPolicy.QuotientAbove | ProbingHash.hpp:90 | for a positive capacity, count / capacity > .75 over the reals exactly when 4 * count > 3 * capacity |
| Slots.Pos | ProbingHash.hpp:57-59 | the probe index (Index + I) % size is a slot of the table |
| Slots.PosOff | ProbingHash.hpp:57-59 | every slot k is reached at probe offset Off(h, k) |
| Slots.OffPos | ProbingHash.hpp:57-59 | distinct offsets below size reach distinct slots |
| Slots.ProbeCoversTable | ProbingHash.hpp:57 | size probe steps from any hash visit every slot exactly once |
| Slots.LiveCount | ProbingHash.hpp:85-86 | the VALID slots number at most size, and exactly size when no slot is EMPTY or DELETED |
| Slots.LiveHas | ProbingHash.hpp:58 | key is among the stored values exactly when some VALID slot holds it |
| Slots.NoValidSlot | ProbingHash.hpp:43-49 | nothing is stored exactly when no slot is VALID |
| Slots.LiveFill | ProbingHash.hpp:87-89 | writing VALID v into an EMPTY or DELETED slot adds one copy of v and one to the count |
| Slots.LiveTombstone | ProbingHash.hpp:115-116 | turning a VALID slot into DELETED removes one copy of its value and one from the count |
| Slots.FreeOffset | ProbingHash.hpp:85-86 | the first probe offset at or after i reaching an EMPTY or DELETED slot, or None when every slot from i on is VALID |
| Slots.FreeSlotFound | ProbingHash.hpp:85-86 | with fewer VALID slots than slots, every probe path reaches a free slot |
| Slots.NoFreeSlot | ProbingHash.hpp:85-95 | when the probe finds no free slot, every slot is VALID and the table is full |
| Slots.Claim | ProbingHash.hpp:86-89 | claiming adds exactly one copy of v, raises the VALID count by one and creates no tombstone |
| Slots.ClaimTakesFirstFree | ProbingHash.hpp:85-88 | claim writes VALID v into the first EMPTY or DELETED slot on the probe path, and no other slot changes |
| Slots.Place | ProbingHash.hpp:155-159 | rehash's placement of v by probing from hash(v) adds exactly one copy of v |
| Slots.Reinsert | ProbingHash.hpp:153-162 | placing values one after another adds exactly those values and creates no tombstone |
| Slots.Rehashed | ProbingHash.hpp:149-164 | the table rehash builds from the VALID values into m slots has m slots (its contents are stated by RehashedKeepsLiveValues) |
| Slots.Fresh | ProbingHash.hpp:151-152 | the resized vector has m slots and holds nothing |
| Slots.ReinsertStep | ProbingHash.hpp:153-160 | one step of rehash's outer loop: a VALID slot places its value, any other slot places nothing, and room stays available |
| Slots.RehashedKeepsLiveValues | ProbingHash.hpp:149-164 | the rebuilt table holds exactly the old VALID values (as a multiset, with the same count and the same membership) and has no DELETED slot |
| Slots.Erased | ProbingHash.hpp:115-116 | erase on one slot: a VALID copy of key becomes DELETED with its value kept, any other slot is unchanged, and the result never holds key |
| Slots.EraseAll | ProbingHash.hpp:111-119 | after erase no slot is VALID and holding key |
| Slots.ErasedUpToEnds | ProbingHash.hpp:113 | before erase's loop nothing is erased; after all size offsets every copy is |
| Slots.ErasedUpToStep | ProbingHash.hpp:113-117 | one step of erase's loop changes only slot (Index + I) % size |
| Slots.EraseAllRemovesKey | ProbingHash.hpp:111-119 | erase removes every copy of key and nothing else; the count drops by the number of copies |
| Slots.Emplaced | ProbingHash.hpp:83-95 | when emplace finds an EMPTY or DELETED slot, the table keeps its size, or has findNextPrime(2 * size) slots when the new load factor exceeds .75 (the full-table case and the contents are stated by EmplacedAddsValue) |
| Slots.EmplacedAddsValue | ProbingHash.hpp:83-95 | emplace on a full table changes nothing; otherwise it adds exactly one copy of value and leaves load factor <= .75; a table at load factor <= .75 stays so |
| Slots.TagMatches | ProbingHash.hpp:73-81 | the tag comparison in count and bucket never matches a key above 2 |
| Slots.TagCountMissesStoredKey | ProbingHash.hpp:77 | a table with VALID 5 stores 5, yet count's tag comparison counts no 5 |
| Probing.ProbingHash.constructor | ProbingHash.hpp:30-34 | n slots, all EMPTY with value 0, counter 0, nothing stored |
| Probing.ProbingHash.Empty | ProbingHash.hpp:43-49 | true exactly when no slot is VALID, that is when nothing is stored (and, under the invariant, when size() is 0) |
| Probing.ProbingHash.Size | ProbingHash.hpp:51-53 | returns the counter, which under the invariant is the number of VALID slots |
| Probing.ProbingHash.At | ProbingHash.hpp:55-71 | returns the first slot on key's probe path that is VALID and holds key; None exactly when key is not stored |
| Probing.ProbingHash.Count | ProbingHash.hpp:73-81 | as written: the number of slots whose tag code equals key, so 0 for every key above 2 |
| Probing.ProbingHash.CountKey | ProbingHash.hpp:73-81 | as intended: the number of stored copies of key |
| Probing.ProbingHash.Emplace | ProbingHash.hpp:83-95 | the new table is Emplaced(old, key, value). Full table: nothing changes. Otherwise the counter rises by one, one copy of value is added and the load factor ends <= .75 |
| Probing.ProbingHash.ClaimSlot | ProbingHash.hpp:85-88 | emplace's probe loop: it claims a slot exactly when some probe offset reaches an EMPTY or DELETED slot, and the array then becomes Claim(old, hash, value); otherwise the array is unchanged |
| Probing.ProbingHash.Insert | ProbingHash.hpp:97-109 | exactly emplace(pair.first, pair.second) |
| Probing.ProbingHash.Erase | ProbingHash.hpp:111-119 | every VALID slot holding key becomes DELETED and no other slot changes; the counter and the contents lose every copy of key |
| Probing.ProbingHash.TombstoneAll | ProbingHash.hpp:113-118 | erase's loop over all size probe offsets: the array becomes EraseAll(old, key) and the number of tombstoned slots is returned |
| Probing.ProbingHash.Clear | ProbingHash.hpp:121-123 | as written: no slots remain and nothing is stored, but numElements keeps its old value |
| Probing.ProbingHash.BucketCount | ProbingHash.hpp:125-127 | the number of slots |
| Probing.ProbingHash.BucketSize | ProbingHash.hpp:129-133 | 1 exactly when slot n is VALID, else 0 |
| Probing.ProbingHash.Bucket | ProbingHash.hpp:135-143 | as written: the first slot on the probe path from hash(key) whose tag code equals key, out_of_range exactly when no slot's tag code equals key; so always out_of_range for keys above 2 |
| Probing.ProbingHash.BucketOf | ProbingHash.hpp:135-143 | as intended: the slot of a VALID copy of key, out_of_range exactly when key is not stored |
| Probing.ProbingHash.FirstFree | ProbingHash.hpp:156-157 | rehash's unbounded probe stops at the first EMPTY or DELETED slot of the new table |
| Probing.ProbingHash.PlaceInto | ProbingHash.hpp:155-159 | one VALID value moved into the new table is placed as Place describes |
| Probing.ProbingHash.RebuildSlots | ProbingHash.hpp:151-162 | the rebuilt slot vector is Rehashed(old, nSize) |
| Probing.ProbingHash.Rebuild | ProbingHash.hpp:163 | the table becomes the rebuilt one: same counter, same contents, no tombstones |
| Probing.ProbingHash.Rehash | ProbingHash.hpp:149-164 | size becomes findNextPrime(2 * size), at least twice the count; contents and counter are kept; no DELETED slot remains |
| Probing.ProbingHash.RehashTo | ProbingHash.hpp:166-181 | size becomes findNextPrime(n); contents and counter are kept |
| Buckets.FlattenPush | ChainingHash.hpp:75 | push_back on one bucket adds exactly one element to the whole table |
| Buckets.FlattenEmpty | ChainingHash.hpp:35-41 | the table holds nothing exactly when every bucket is empty |
| Buckets.HomeHoldsAll | ChainingHash.hpp:48-52 | when every element sits in its home bucket, the home bucket of key holds every copy of key |
| Buckets.PushKeepsHome | ChainingHash.hpp:134 | pushing v onto bucket hash(v) % size keeps every element in its home bucket |
| Buckets.Spread | ChainingHash.hpp:132-136 | distributing elements by push_back yields size buckets, every element home, the same multiset and the same count |
| Buckets.Redistributed | ChainingHash.hpp:127-138 | the vector rehash builds into m buckets has m buckets (its contents are stated by RedistributedKeepsElements) |
| Buckets.RedistributedKeepsElements | ChainingHash.hpp:127-138 | rehash keeps every element with its multiplicity and puts each in its home bucket |
| Buckets.SpreadStep | ChainingHash.hpp:134 | one step of rehash's inner loop |
| Buckets.PushEach | ChainingHash.hpp:133-135 | pushing a list onto the home buckets of a vector keeps its number of buckets (SpreadThenPush relates it to Spread) |
| Buckets.SpreadThenPush | ChainingHash.hpp:132-136 | rehash's bucket-by-bucket pushes build the same vector as distributing the whole list |
| Buckets.Appended | ChainingHash.hpp:74-79 | the vector after emplace keeps its size, or has findNextPrime(2 * size) buckets when the new load factor exceeds .75 (its contents are stated by AppendedAddsValue) |
| Buckets.AppendedAddsValue | ChainingHash.hpp:74-79 | emplace adds exactly one copy of value and raises the count by one; a table at load factor <= .75 stays so; with key == value every element stays home |
| Buckets.RemoveFirst | ChainingHash.hpp:90-92 | erase's unlink of the first match: a list without key is unchanged, and a list holding key loses exactly one element |
| Buckets.RemoveFirstDropsOne | ChainingHash.hpp:90-95 | unlinking the first match removes one copy of key when there is one and leaves the list alone otherwise |
| Buckets.RemoveFirstAt | ChainingHash.hpp:90-92 | when position i is the first match, the list loses exactly position i |
| Buckets.RemoveKeepsHome | ChainingHash.hpp:88-97 | erase keeps every element in its home bucket |
| Buckets.FlattenRemove | ChainingHash.hpp:88-97 | erase removes one copy of key from the table when its home bucket holds one, and nothing otherwise |
| Buckets.BucketLengthOvercounts | ChainingHash.hpp:68-70 | a one-bucket table holding 2: count(1) reports 1 although 1 is not stored |
| Buckets.AsWrittenRehashToBucket | ChainingHash.hpp:147 | rehash(n) as written picks a bucket below findNextPrime(n), not below n |
| Buckets.AsWrittenRehashToOverruns | ChainingHash.hpp:141-147 | rehash(4) sizes the vector to 4 but sends 4 to bucket 4 % 5 = 4, past its end |
| Chaining.ChainingHash.constructor | ChainingHash.hpp:26-29 | n empty buckets, counter 0, nothing stored |
| Chaining.ChainingHash.Home | ChainingHash.hpp:48 | hash(key) % size is a bucket of the table |
| Chaining.ChainingHash.Empty | ChainingHash.hpp:35-41 | true exactly when every bucket is empty, that is when nothing is stored (and, under the invariant, when size() is 0) |
| Chaining.ChainingHash.Size | ChainingHash.hpp:43-45 | returns the counter, which under the invariant is the total length of all buckets |
| Chaining.ChainingHash.At | ChainingHash.hpp:47-63 | the position of the first element equal to key in its home bucket; None exactly when the home bucket lacks key, which (every element home) is exactly when key is not stored |
| Chaining.ChainingHash.Count | ChainingHash.hpp:65-72 | as written: the length of the home bucket, at least the number of copies of key |
| Chaining.ChainingHash.CountKey | ChainingHash.hpp:65-72 | as intended: the number of copies of key in its home bucket, which (every element home) is the number stored |
| Chaining.ChainingHash.Emplace | ChainingHash.hpp:74-79 | the new vector is Appended(old, key, value); the counter rises by one, one copy of value is added, load factor <= .75 is kept, and so is "every element home" when key == value |
| Chaining.ChainingHash.PushBack | ChainingHash.hpp:75 | push_back of v onto bucket b: bucket b gains v at its end and no other bucket changes (the same push is at ChainingHash.hpp:82 and 134) |
| Chaining.ChainingHash.Insert | ChainingHash.hpp:81-86 | exactly emplace(pair.first, pair.second) |
| Chaining.ChainingHash.Erase | ChainingHash.hpp:88-97 | only the home bucket changes, losing its first copy of key; counter and contents drop by one exactly when that bucket held key |
| Chaining.ChainingHash.Unlink | ChainingHash.hpp:89-96 | the list walk unlinks the first node equal to key and reports whether there was one |
| Chaining.ChainingHash.Clear | ChainingHash.hpp:99-104 | as written: no buckets remain and nothing is stored, but numElements keeps its old value |
| Chaining.ChainingHash.BucketCount | ChainingHash.hpp:106-108 | the number of buckets |
| Chaining.ChainingHash.BucketSize | ChainingHash.hpp:110-112 | the length of bucket n, never more than the number stored |
| Chaining.ChainingHash.Bucket | ChainingHash.hpp:114-121 | hash(key) % size when that bucket holds key, out_of_range otherwise; with every element home, Ok exactly when key is stored |
| Chaining.ChainingHash.PushHome | ChainingHash.hpp:134 | push_back of v onto bucket hash(v) % nSize of the new vector, nothing else changes |
| Chaining.ChainingHash.PushAll | ChainingHash.hpp:133-135 | the inner loop pushes one old bucket's elements, in order |
| Chaining.ChainingHash.RebuildBuckets | ChainingHash.hpp:129-136 | the rebuilt vector is Redistributed(old, nSize) |
| Chaining.ChainingHash.Rebuild | ChainingHash.hpp:137 | the table becomes the rebuilt one: same counter, same contents, every element home |
| Chaining.ChainingHash.Rehash | ChainingHash.hpp:127-138 | size becomes findNextPrime(2 * size); contents and counter are kept; every element is in its home bucket |
| Chaining.ChainingHash.RehashTo | ChainingHash.hpp:140-151 | as intended: size becomes findNextPrime(n); contents and counter are kept; every element home |

## Left out

- `main.cpp`, the benchmark driver, is not part of this model. It is wall-clock timing, file output and OpenMP loops.
- `ParallelProbingHash.hpp` and the OpenMP thread configuration are not part of this model. They are concurrency.
- `Hash.hpp`, the abstract base class, is not part of this model. Each class's operations are modelled directly.
- Destructors are not modelled. They only call `clear()`; Dafny memory is managed.
- `load_factor()` returns a float quotient, which is not modelled. Its one use, the test `> .75`, is the exact integer test `HashPolicy.OverLoaded`. It differs from the float test only when the capacity exceeds 2^23: near .75 a float quotient then rounds away an excess of 1 / (4 * capacity), so the source may skip a rehash that `OverLoaded` demands.
- The `sqrt` in `isPrime` is not modelled. The loop guard `i <= sqrt(n)` is `i * i <= n`, which is the same test for exact square roots.
- The C++ `int` width (overflow of the counter, the hash or `2 * size`) and negative keys are not modelled. Keys, values and sizes are `nat`, and the generic `K`/`V` are `nat` too.
- `at`/`operator[]` return a reference to the stored value. The model returns the slot index or list position instead, and writes through the reference are not modelled. The missing-key path, which falls off the end without a return (undefined behaviour), is `None`.
- Probing.ProbingHash.Emplace: requires `Consistent()`, so emplace on the zero-slot vector left by `clear()` (a no-op in the source) and with a stale counter is not covered. The same holds for Probing.ProbingHash.Insert.
- Probing.ProbingHash.Erase: requires `Consistent()`, so erase after `clear()` (a no-op in the source) is not covered.
- Probing.ProbingHash.Rehash: requires `Consistent()`. Rehash after `clear()` (a zero-slot table from `findNextPrime(0) = 0`) is not covered.
- Probing.ProbingHash.RehashTo: requires `1 <= n` and room for every live value in `findNextPrime(n)` slots. Without room, the source's unbounded probe loop (ProbingHash.hpp:174) never ends. For n = 0, `findNextPrime(0)` is 0: the source leaves a zero-slot table when no value is live, which breaks `Consistent()`, and takes a remainder modulo 0 when a value is live.
- Chaining.ChainingHash.Emplace, Chaining.ChainingHash.Insert, Chaining.ChainingHash.Erase, Chaining.ChainingHash.Rehash: require `Consistent()`. After `clear()` the source takes a remainder modulo 0 in all of them except `rehash()`.
- Probing.ProbingHash.BucketSize, Chaining.ChainingHash.BucketSize: require `n < size`. The source indexes `Table[n]` without a bounds check (ProbingHash.hpp:130, ChainingHash.hpp:111), so a larger n is undefined behaviour there.
- Chaining.ChainingHash.At, Chaining.ChainingHash.Count, Chaining.ChainingHash.CountKey, Chaining.ChainingHash.Bucket: require at least one bucket. After `clear()` the source takes a remainder modulo 0 in them (ChainingHash.hpp:48, 57, 67, 115), which is undefined behaviour.
- Chaining.ChainingHash.RehashTo: models the intended sizing (findNextPrime(n) buckets) and requires `1 <= n`. The as-written sizing is under Findings.

## Findings

| source | as written | input that shows it | evidently intended | confidence | as-written member | corrected member |
|---|---|---|---|---|---|---|
| ProbingHash.hpp:77 | `count` compares the slot's tag (0, 1 or 2) with the key | a one-slot table holding VALID 5: `count(5)` returns 0 | the number of VALID slots holding key | high; not executed | Slots.TagCountMissesStoredKey | Probing.ProbingHash.CountKey |
| ProbingHash.hpp:138 | `bucket` compares the slot's tag with the key | a one-slot table holding VALID 5: `bucket(5)` throws out_of_range | the index of a VALID slot holding key | high; not executed | Probing.ProbingHash.Bucket | Probing.ProbingHash.BucketOf |
| ChainingHash.hpp:68-70 | `count` returns the length of the home bucket | a one-bucket table holding 2: `count(1)` returns 1 | the number of elements equal to key | medium; not executed | Buckets.BucketLengthOvercounts | Chaining.ChainingHash.CountKey |
| ChainingHash.hpp:143-147 | `rehash(n)` sizes the new vector to n but indexes it modulo findNextPrime(n) | `rehash(4)` on a table holding 4: 4 % 5 = 4 indexes a 4-bucket vector | a vector of findNextPrime(n) buckets | high; not executed | Buckets.AsWrittenRehashToOverruns | Chaining.ChainingHash.RehashTo |
