/**
 * ChainingHash: separate chaining. A vector of lists, one per bucket, and a
 * counter; emplace pushes onto the home bucket, erase unlinks one node, and
 * rehash rebuilds the whole vector.
 */
module Chaining {
  import opened Wrappers
  import opened Primes
  import opened HashPolicy
  import opened Buckets

  class ChainingHash {
    var table: array<seq<nat>>
    var numElements: nat

    /** The class invariant: at least one bucket, and numElements counts every element of every bucket. */
    ghost predicate Consistent()
      reads this, table
    {
      0 < table.Length && numElements == |Flatten(table[..])|
    }

    /** The values the table holds, with their multiplicity. */
    ghost function Contents(): multiset<nat>
      reads this, table
    {
      multiset(Flatten(table[..]))
    }

    /** load_factor() <= .75. */
    ghost predicate LoadOk()
      reads this, table
    {
      !OverLoaded(numElements, table.Length)
    }

    /** The bucket hash(key) % bucket_count() that emplace, at, count, erase and bucket use. */
    function Home(key: nat): (b: nat)
      reads this
      requires 0 < table.Length
      ensures b < table.Length
    {
      Hash(key) % table.Length
    }

    /** ChainingHash(n = 11): n empty buckets and no elements. */
    constructor (n: nat := 11)
      requires 1 <= n
      ensures Consistent() && fresh(table)
      ensures table.Length == n && forall b :: 0 <= b < n ==> table[b] == []
      ensures numElements == 0 && Contents() == multiset{} && AllHome(table[..])
    {
      table := new seq<nat>[n](_ => []);
      numElements := 0;
      new;
      FlattenEmpty(table[..]);
    }

    /** empty(): true when every bucket is empty. */
    method Empty() returns (b: bool)
      ensures b <==> forall k :: 0 <= k < table.Length ==> table[k] == []
      ensures b <==> Contents() == multiset{}
      ensures Consistent() ==> (b <==> numElements == 0)
    {
      FlattenEmpty(table[..]);
      assert |Contents()| == |Flatten(table[..])|;
      for i := 0 to table.Length
        invariant forall k :: 0 <= k < i ==> table[k] == []
      {
        if table[i] != [] {
          return false;
        }
      }
      return true;
    }

    /** size(): the counter, which is the total number of elements. */
    method Size() returns (r: nat)
      ensures r == numElements
      ensures Consistent() ==> r == |Flatten(table[..])| && r == |Contents()|
    {
      r := numElements;
    }

    /**
     * at(key) and operator[](key): walk the home bucket and return (the
     * position of) the first element equal to key. The source falls off the
     * end without a return when there is none; here that is None.
     */
    method At(key: nat) returns (r: Option<nat>)
      requires 0 < table.Length
      ensures r.Some? ==> r.value < |table[Home(key)]| && table[Home(key)][r.value] == key
      ensures r.Some? ==> key !in table[Home(key)][..r.value]
      ensures r.None? <==> key !in table[Home(key)]
      ensures AllHome(table[..]) ==> (r.None? <==> key !in Contents())
    {
      if AllHome(table[..]) {
        HomeHoldsAll(table[..], key);
      }
      var index := Hash(key) % table.Length;
      var bucket := table[index];
      for j := 0 to |bucket|
        invariant key !in bucket[..j]
      {
        assert bucket[..j + 1] == bucket[..j] + [bucket[j]];
        if bucket[j] == key {
          return Some(j);
        }
      }
      assert bucket[..|bucket|] == bucket;
      return None;
    }

    /** count(key): the length of the home bucket, whatever it holds. */
    method Count(key: nat) returns (r: nat)
      requires 0 < table.Length
      ensures r == |table[Home(key)]|
      ensures AllHome(table[..]) ==> Contents()[key] <= r
    {
      if AllHome(table[..]) {
        HomeHoldsAll(table[..], key);
      }
      var index := Hash(key) % table.Length;
      var bucket := table[index];
      r := 0;
      for j := 0 to |bucket|
        invariant r == j
      {
        r := r + 1;
      }
      assert multiset(bucket)[key] <= |multiset(bucket)|;
    }

    /** count(key) as evidently intended: how many elements of the home bucket equal key. */
    method CountKey(key: nat) returns (r: nat)
      requires 0 < table.Length
      ensures r == multiset(table[Home(key)])[key]
      ensures AllHome(table[..]) ==> r == Contents()[key]
    {
      if AllHome(table[..]) {
        HomeHoldsAll(table[..], key);
      }
      var index := Hash(key) % table.Length;
      var bucket := table[index];
      r := 0;
      for j := 0 to |bucket|
        invariant r == multiset(bucket[..j])[key]
      {
        assert bucket[..j + 1] == bucket[..j] + [bucket[j]];
        if bucket[j] == key {
          r := r + 1;
        }
      }
      assert bucket[..|bucket|] == bucket;
    }

    /**
     * emplace(key, value): push value onto bucket hash(key) % bucket_count(),
     * with no duplicate check, then rehash if the load factor exceeds .75.
     */
    method Emplace(key: nat, value: nat)
      requires Consistent()
      modifies this, table
      ensures Consistent()
      ensures table == old(table) || fresh(table)
      ensures table[..] == Appended(old(table[..]), key, value)
      ensures numElements == old(numElements) + 1
      ensures Contents() == old(Contents()) + multiset{value}
      ensures old(LoadOk()) ==> LoadOk()
      ensures old(AllHome(table[..])) && key == value ==> AllHome(table[..])
    {
      ghost var s := table[..];
      AppendedAddsValue(s, key, value);
      PushBack(table, Hash(key) % table.Length, value);
      numElements := numElements + 1;
      if OverLoaded(numElements, table.Length) {
        Rehash();
        assert table.Length == NextPrime(2 * |s|);
      }
    }

    /** insert(pair): the same as emplace(pair.first, pair.second). */
    method Insert(pair: (nat, nat))
      requires Consistent()
      modifies this, table
      ensures Consistent()
      ensures table == old(table) || fresh(table)
      ensures table[..] == Appended(old(table[..]), pair.0, pair.1)
      ensures numElements == old(numElements) + 1
      ensures Contents() == old(Contents()) + multiset{pair.1}
      ensures old(LoadOk()) ==> LoadOk()
    {
      Emplace(pair.0, pair.1);
    }

    /** erase(key): unlink the first element equal to key from its home bucket, if any. */
    method Erase(key: nat)
      requires Consistent()
      modifies this, table
      ensures Consistent() && table == old(table)
      ensures table[..] == old(table[..])[Home(key) := RemoveFirst(old(table[Home(key)]), key)]
      ensures numElements == old(numElements) - (if key in old(table[Home(key)]) then 1 else 0)
      ensures Contents() == old(Contents()) - (if key in old(table[Home(key)]) then multiset{key} else multiset{})
      ensures old(AllHome(table[..])) ==> AllHome(table[..])
      ensures old(LoadOk()) ==> LoadOk()
    {
      ghost var s := table[..];
      var index := Hash(key) % table.Length;
      RemoveFirstDropsOne(s[index], key);
      FlattenRemove(s, index, key);
      if AllHome(s) {
        RemoveKeepsHome(s, index, key);
      }
      var removed := Unlink(table, index, key);
      if removed {
        numElements := numElements - 1;
      }
    }

    /** The list walk of erase: unlink the first node of bucket index holding key, if any. */
    static method Unlink(a: array<seq<nat>>, index: nat, key: nat) returns (removed: bool)
      requires index < a.Length
      modifies a
      ensures removed <==> key in old(a[index])
      ensures a[..] == old(a[..])[index := RemoveFirst(old(a[index]), key)]
    {
      var bucket := a[index];
      RemoveFirstDropsOne(bucket, key);
      for j := 0 to |bucket|
        invariant key !in bucket[..j]
      {
        assert bucket[..j + 1] == bucket[..j] + [bucket[j]];
        if bucket[j] == key {
          RemoveFirstAt(bucket, key, j);
          a[index] := bucket[..j] + bucket[j + 1..];
          return true;
        }
      }
      assert bucket[..|bucket|] == bucket;
      assert a[..] == a[..][index := bucket];
      return false;
    }

    /** clear() as written: every bucket and then the vector are emptied, but numElements keeps its value. */
    method Clear()
      modifies this
      ensures fresh(table) && table.Length == 0 && Contents() == multiset{}
      ensures numElements == old(numElements)
    {
      table := new seq<nat>[0];
    }

    /** bucket_count(): the number of buckets. */
    method BucketCount() returns (r: nat)
      ensures r == table.Length
      ensures Consistent() ==> r >= 1
    {
      r := table.Length;
    }

    /** bucket_size(n): the length of bucket n. */
    method BucketSize(n: nat) returns (r: nat)
      requires n < table.Length
      ensures r == |table[n]|
      ensures r <= |Contents()|
    {
      r := |table[n]|;
      FlattenUpdate(table[..], n, []);
    }

    /** bucket(key): the home bucket if key is in it, else out_of_range. */
    method Bucket(key: nat) returns (r: Result<nat>)
      requires 0 < table.Length
      ensures r.Ok? ==> r.value == Home(key)
      ensures r.Ok? <==> key in table[Home(key)]
      ensures AllHome(table[..]) ==> (r.Ok? <==> key in Contents())
    {
      var found := At(key);
      r := if found.Some? then Ok(Hash(key) % table.Length) else Err(OutOfRange);
    }

    /** push_back(v) on bucket b; no other bucket changes. */
    static method PushBack(a: array<seq<nat>>, b: nat, v: nat)
      requires b < a.Length
      modifies a
      ensures a[..] == old(a[..])[b := old(a[b]) + [v]]
    {
      a[b] := a[b] + [v];
    }

    /** One element moved into the new vector: push_back onto bucket hash(v) % nSize. */
    static method PushHome(a: array<seq<nat>>, v: nat)
      requires 0 < a.Length
      modifies a
      ensures a[..] == old(a[..])[Hash(v) % a.Length := old(a[Hash(v) % a.Length]) + [v]]
    {
      PushBack(a, Hash(v) % a.Length, v);
    }

    /** The inner loop of rehash: every element of one old bucket, in order, pushed onto its home bucket in a. */
    static method PushAll(a: array<seq<nat>>, xs: seq<nat>)
      requires 0 < a.Length
      modifies a
      ensures a[..] == PushEach(old(a[..]), xs)
    {
      assert xs[..0] == [];
      for j := 0 to |xs|
        invariant a[..] == PushEach(old(a[..]), xs[..j])
      {
        assert xs[..j + 1][..j] == xs[..j];
        PushHome(a, xs[j]);
      }
      assert xs[..|xs|] == xs;
    }

    /** The nested loops both rehash overloads share: every element of t, in order, pushed onto its home bucket of nSize fresh buckets. */
    static method RebuildBuckets(t: array<seq<nat>>, nSize: nat) returns (nTable: array<seq<nat>>)
      requires 0 < nSize
      ensures fresh(nTable) && nTable[..] == Redistributed(t[..], nSize)
    {
      nTable := new seq<nat>[nSize](_ => []);
      ghost var s := t[..];
      assert s[..0] == [];
      assert nTable[..] == Spread([], nSize);
      for i := 0 to t.Length
        invariant t[..] == s
        invariant fresh(nTable) && nTable.Length == nSize
        invariant nTable[..] == Spread(Flatten(s[..i]), nSize)
      {
        SpreadThenPush(Flatten(s[..i]), t[i], nSize);
        PushAll(nTable, t[i]);
        assert s[..i + 1] == s[..i] + [s[i]];
        assert Flatten(s[..i + 1]) == Flatten(s[..i]) + t[i];
      }
      assert s[..t.Length] == s;
    }

    /** Replace the vector by the rebuilt one (both rehash overloads end this way). */
    method Rebuild(nSize: nat)
      requires Consistent() && 0 < nSize
      modifies this
      ensures Consistent() && fresh(table) && table.Length == nSize
      ensures table[..] == Redistributed(old(table[..]), nSize)
      ensures numElements == old(numElements) && Contents() == old(Contents())
      ensures AllHome(table[..])
    {
      var nTable := RebuildBuckets(table, nSize);
      RedistributedKeepsElements(table[..], nSize);
      table := nTable;
    }

    /** rehash(): rebuild into findNextPrime(2 * bucket_count()) buckets. */
    method Rehash()
      requires Consistent()
      modifies this
      ensures Consistent() && fresh(table)
      ensures IsNextPrime(2 * old(table.Length), table.Length)
      ensures table[..] == Redistributed(old(table[..]), table.Length)
      ensures numElements == old(numElements) && Contents() == old(Contents())
      ensures AllHome(table[..])
    {
      var nSize := FindNextPrime(2 * table.Length);
      Rebuild(nSize);
    }

    /**
     * rehash(n) as evidently intended: rebuild into findNextPrime(n) buckets.
     * As written the source sizes the new vector to n while indexing it
     * modulo findNextPrime(n).
     */
    method RehashTo(n: nat)
      requires Consistent() && 1 <= n
      modifies this
      ensures Consistent() && fresh(table)
      ensures IsNextPrime(n, table.Length)
      ensures table[..] == Redistributed(old(table[..]), table.Length)
      ensures numElements == old(numElements) && Contents() == old(Contents())
      ensures AllHome(table[..])
    {
      var nSize := FindNextPrime(n);
      Rebuild(nSize);
    }
  }
}
