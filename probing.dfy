/**
 * ProbingHash: open addressing with linear probing and lazy deletion. The
 * slot array is replaced wholesale on rehash and written in place by
 * emplace and erase; numElements counts the VALID slots.
 */
module Probing {
  import opened Wrappers
  import opened Primes
  import opened HashPolicy
  import opened Slots

  class ProbingHash {
    var table: array<Slot>
    var numElements: nat

    /** The class invariant: at least one slot, and numElements counts the VALID slots. */
    ghost predicate Consistent()
      reads this, table
    {
      0 < table.Length && numElements == |Live(table[..])|
    }

    /** The values the table holds, one copy per VALID slot. */
    ghost function Contents(): multiset<nat>
      reads this, table
    {
      multiset(Live(table[..]))
    }

    /** load_factor() <= .75. */
    ghost predicate LoadOk()
      reads this, table
    {
      !OverLoaded(numElements, table.Length)
    }

    /** ProbingHash(n = 11): n EMPTY slots and no elements. */
    constructor (n: nat := 11)
      requires 1 <= n
      ensures Consistent() && fresh(table)
      ensures table.Length == n && forall k :: 0 <= k < n ==> table[k] == Vacant
      ensures numElements == 0 && Contents() == multiset{}
    {
      table := new Slot[n](_ => Vacant);
      numElements := 0;
      new;
      NoValidSlot(table[..]);
    }

    /** empty(): scans for a VALID slot. */
    method Empty() returns (b: bool)
      ensures b <==> forall k :: 0 <= k < table.Length ==> table[k].state != Valid
      ensures b <==> Contents() == multiset{}
      ensures Consistent() ==> (b <==> numElements == 0)
    {
      NoValidSlot(table[..]);
      for i := 0 to table.Length
        invariant forall k :: 0 <= k < i ==> table[k].state != Valid
      {
        if table[i].state == Valid {
          return false;
        }
      }
      return true;
    }

    /** size(): the counter, which is the number of VALID slots. */
    method Size() returns (r: nat)
      ensures r == numElements
      ensures Consistent() ==> r == |Live(table[..])| && r == |Contents()|
    {
      r := numElements;
    }

    /**
     * at(key) and operator[](key): probe all slots from hash(key) and return
     * (the index of) the first VALID slot holding key. The source falls off
     * the end without a return when there is none; here that is None.
     */
    method At(key: nat) returns (r: Option<nat>)
      ensures r.Some? ==> r.value < table.Length && Holds(table[r.value], key)
      ensures r.Some? ==> forall j :: 0 <= j < Off(Hash(key), r.value, table.Length) ==>
                            !Holds(table[Pos(Hash(key), j, table.Length)], key)
      ensures r.None? <==> key !in Contents()
    {
      var index := Hash(key);
      for i := 0 to table.Length
        invariant forall j :: 0 <= j < i ==> !Holds(table[Pos(index, j, table.Length)], key)
      {
        var p := Pos(index, i, table.Length);
        if Holds(table[p], key) {
          OffPos(index, i, table.Length);
          LiveHas(table[..], key);
          return Some(p);
        }
      }
      LiveHas(table[..], key);
      forall k | 0 <= k < table.Length ensures !Holds(table[k], key) {
        PosOff(index, k, table.Length);
      }
      return None;
    }

    /** count(key) as written: how many slots have a tag whose code equals key. */
    method Count(key: nat) returns (r: nat)
      ensures r == (if table.Length == 0 then 0 else TagMatches(table[..], Hash(key), key, table.Length))
      ensures key > 2 ==> r == 0
    {
      var index := Hash(key);
      r := 0;
      for i := 0 to table.Length
        invariant r == (if table.Length == 0 then 0 else TagMatches(table[..], index, key, i))
      {
        if Code(table[Pos(index, i, table.Length)].state) == key {
          r := r + 1;
        }
      }
    }

    /** count(key) as evidently intended: how many VALID slots hold key. */
    method CountKey(key: nat) returns (r: nat)
      ensures r == Contents()[key]
    {
      r := 0;
      for i := 0 to table.Length
        invariant r == multiset(Live(table[..i]))[key]
      {
        assert table[..i + 1][..i] == table[..i];
        if Holds(table[i], key) {
          r := r + 1;
        }
      }
      assert table[..table.Length] == table[..];
    }

    /**
     * emplace(key, value): claim the first EMPTY or DELETED slot on the probe
     * path from hash(key), then rehash if the load factor exceeds .75. When
     * every slot is VALID nothing changes.
     */
    method Emplace(key: nat, value: nat)
      requires Consistent()
      modifies this, table
      ensures Consistent()
      ensures table == old(table) || fresh(table)
      ensures table[..] == Emplaced(old(table[..]), key, value)
      ensures FreeOffset(old(table[..]), Hash(key), 0).None? ==>
                table == old(table) && numElements == old(numElements)
      ensures FreeOffset(old(table[..]), Hash(key), 0).Some? ==>
                numElements == old(numElements) + 1 && Contents() == old(Contents()) + multiset{value}
      ensures FreeOffset(old(table[..]), Hash(key), 0).Some? ==> LoadOk()
      ensures old(LoadOk()) ==> LoadOk() && numElements == old(numElements) + 1
    {
      ghost var s := table[..];
      EmplacedAddsValue(s, key, value);
      var claimed := ClaimSlot(table, Hash(key), value);
      if claimed {
        numElements := numElements + 1;
        if OverLoaded(numElements, table.Length) {
          Rehash();
          assert table.Length == NextPrime(2 * |s|);
        }
      }
    }

    /** emplace's probe loop: write VALID value into the first EMPTY or DELETED slot from index, if there is one. */
    static method ClaimSlot(a: array<Slot>, index: nat, value: nat) returns (claimed: bool)
      requires 0 < a.Length
      modifies a
      ensures claimed <==> FreeOffset(old(a[..]), index, 0).Some?
      ensures claimed ==> a[..] == Claim(old(a[..]), index, value)
      ensures !claimed ==> a[..] == old(a[..])
    {
      ghost var s := a[..];
      for i := 0 to a.Length
        invariant a[..] == s
        invariant FreeOffset(s, index, 0) == FreeOffset(s, index, i)
      {
        var p := Pos(index, i, a.Length);
        if IsFree(a[p]) {
          a[p] := Slot(Valid, value);
          return true;
        }
      }
      return false;
    }

    /** insert(pair): the same as emplace(pair.first, pair.second). */
    method Insert(pair: (nat, nat))
      requires Consistent()
      modifies this, table
      ensures Consistent()
      ensures table == old(table) || fresh(table)
      ensures table[..] == Emplaced(old(table[..]), pair.0, pair.1)
      ensures FreeOffset(old(table[..]), Hash(pair.0), 0).Some? ==>
                numElements == old(numElements) + 1 && Contents() == old(Contents()) + multiset{pair.1}
      ensures old(LoadOk()) ==> LoadOk() && numElements == old(numElements) + 1
    {
      Emplace(pair.0, pair.1);
    }

    /** erase(key): every VALID slot holding key becomes DELETED; numElements drops once for each. */
    method Erase(key: nat)
      requires Consistent()
      modifies this, table
      ensures Consistent() && table == old(table)
      ensures table[..] == EraseAll(old(table[..]), key)
      ensures numElements == old(numElements) - old(Contents())[key]
      ensures Contents() == old(Contents())[key := 0]
      ensures old(LoadOk()) ==> LoadOk()
    {
      EraseAllRemovesKey(table[..], key);
      var removed := TombstoneAll(table, key);
      numElements := numElements - removed;
    }

    /** erase's loop: one pass over the probe sequence of key, turning every VALID slot holding key into DELETED. */
    static method TombstoneAll(a: array<Slot>, key: nat) returns (removed: nat)
      requires 0 < a.Length
      modifies a
      ensures a[..] == EraseAll(old(a[..]), key)
      ensures |Live(a[..])| + removed == |Live(old(a[..]))|
    {
      ghost var s := a[..];
      var index := Hash(key);
      removed := 0;
      ErasedUpToEnds(s, key, index);
      for i := 0 to a.Length
        invariant a[..] == ErasedUpTo(s, key, index, i)
        invariant |Live(a[..])| + removed == |Live(s)|
      {
        var p := Pos(index, i, a.Length);
        ghost var before := a[..];
        ErasedUpToStep(s, key, index, i);
        if Holds(a[p], key) {
          LiveTombstone(before, p);
          a[p] := Slot(Deleted, a[p].value);
          assert a[..] == before[p := Slot(Deleted, key)];
          removed := removed + 1;
        } else {
          assert before[p := Erased(s[p], key)] == before;
        }
      }
    }

    /** clear() as written: the slot vector becomes empty but numElements keeps its value. */
    method Clear()
      modifies this
      ensures fresh(table) && table.Length == 0 && Contents() == multiset{}
      ensures numElements == old(numElements)
    {
      table := new Slot[0];
    }

    /** bucket_count(): the number of slots. */
    method BucketCount() returns (r: nat)
      ensures r == table.Length
      ensures Consistent() ==> r >= 1
    {
      r := table.Length;
    }

    /** bucket_size(n): 1 when slot n is VALID (tag code 1), else 0. */
    method BucketSize(n: nat) returns (r: nat)
      requires n < table.Length
      ensures r == 1 <==> table[n].state == Valid
      ensures r <= 1
    {
      r := if Code(table[n].state) == 1 then 1 else 0;
    }

    /** bucket(key) as written: the first probed slot whose tag code equals key, else out_of_range. */
    method Bucket(key: nat) returns (r: Result<nat>)
      ensures r.Ok? ==> r.value < table.Length && Code(table[r.value].state) == key
      ensures r.Ok? ==> forall j :: 0 <= j < Off(Hash(key), r.value, table.Length) ==>
                          Code(table[Pos(Hash(key), j, table.Length)].state) != key
      ensures r.Err? <==> forall k :: 0 <= k < table.Length ==> Code(table[k].state) != key
      ensures key > 2 ==> r.Err?
    {
      var index := Hash(key);
      for i := 0 to table.Length
        invariant forall j :: 0 <= j < i ==> Code(table[Pos(index, j, table.Length)].state) != key
      {
        var p := Pos(index, i, table.Length);
        if Code(table[p].state) == key {
          OffPos(index, i, table.Length);
          return Ok(p);
        }
      }
      forall k | 0 <= k < table.Length ensures Code(table[k].state) != key {
        PosOff(index, k, table.Length);
      }
      return Err(OutOfRange);
    }

    /** bucket(key) as evidently intended: the slot of the first VALID copy of key, else out_of_range. */
    method BucketOf(key: nat) returns (r: Result<nat>)
      ensures r.Ok? ==> r.value < table.Length && Holds(table[r.value], key)
      ensures r.Err? <==> key !in Contents()
    {
      var found := At(key);
      r := if found.Some? then Ok(found.value) else Err(OutOfRange);
    }

    /**
     * The loop both rehash overloads share: place every VALID value of t, in
     * slot order, into nSize fresh slots by probing from its hash.
     * Tombstones are not carried over.
     */
    static method RebuildSlots(t: array<Slot>, nSize: nat) returns (nTable: array<Slot>)
      requires 0 < nSize && |Live(t[..])| <= nSize
      ensures fresh(nTable) && nTable[..] == Rehashed(t[..], nSize)
    {
      nTable := new Slot[nSize](_ => Vacant);
      ghost var s := t[..];
      assert nTable[..] == Fresh(nSize);
      for i := 0 to t.Length
        invariant t[..] == s
        invariant fresh(nTable) && nTable.Length == nSize
        invariant |Live(s[..i])| <= |Live(s)|
        invariant nTable[..] == Reinsert(Fresh(nSize), Live(s[..i]))
      {
        ReinsertStep(s, i, nSize);
        if t[i].state == Valid {
          assert |Live(nTable[..])| == |multiset(Live(nTable[..]))| == |Live(s[..i])|;
          PlaceInto(nTable, t[i].value);
        }
      }
      assert s[..t.Length] == s;
    }

    /** One VALID value moved into the new table: probe from its hash to the first free slot and claim it. */
    static method PlaceInto(a: array<Slot>, v: nat)
      requires 0 < a.Length && |Live(a[..])| < a.Length
      modifies a
      ensures a[..] == Place(old(a[..]), v)
    {
      var p := FirstFree(a, Hash(v));
      a[p] := Slot(Valid, v);
    }

    /** Replace the table by the rebuilt one (both rehash overloads end this way). */
    method Rebuild(nSize: nat)
      requires Consistent() && 0 < nSize && numElements <= nSize
      modifies this
      ensures Consistent() && fresh(table) && table.Length == nSize
      ensures table[..] == Rehashed(old(table[..]), nSize)
      ensures numElements == old(numElements) && Contents() == old(Contents())
      ensures forall k :: 0 <= k < nSize ==> table[k].state != Deleted
    {
      ghost var s := table[..];
      RehashedKeepsLiveValues(s, nSize);
      var nTable := RebuildSlots(table, nSize);
      table := nTable;
      assert table[..] == Rehashed(s, nSize);
    }

    /** rehash's unbounded probe `for(L = 0; slot not EMPTY and not DELETED; L++)` on the new table. */
    static method FirstFree(a: array<Slot>, index: nat) returns (p: nat)
      requires 0 < a.Length && |Live(a[..])| < a.Length
      ensures FreeOffset(a[..], index, 0).Some?
      ensures p == Pos(index, FreeOffset(a[..], index, 0).value, a.Length)
    {
      FreeSlotFound(a[..], index);
      var l := 0;
      while !IsFree(a[Pos(index, l, a.Length)])
        invariant l <= FreeOffset(a[..], index, 0).value
        invariant FreeOffset(a[..], index, 0) == FreeOffset(a[..], index, l)
        decreases a.Length - l
      {
        l := l + 1;
      }
      p := Pos(index, l, a.Length);
    }

    /** rehash(): rebuild into findNextPrime(2 * bucket_count()) slots. */
    method Rehash()
      requires Consistent()
      modifies this
      ensures Consistent() && fresh(table)
      ensures IsNextPrime(2 * old(table.Length), table.Length) && table.Length >= 2 * numElements
      ensures numElements == old(numElements) && Contents() == old(Contents())
      ensures table[..] == Rehashed(old(table[..]), table.Length)
      ensures forall k :: 0 <= k < table.Length ==> table[k].state != Deleted
    {
      var nSize := FindNextPrime(2 * table.Length);
      LiveCount(table[..]);
      Rebuild(nSize);
    }

    /**
     * rehash(n): rebuild into findNextPrime(n) slots. The source's probe loop
     * has no bound, so n must leave room for every live value.
     */
    method RehashTo(n: nat)
      requires Consistent() && 1 <= n && numElements <= NextPrime(n)
      modifies this
      ensures Consistent() && fresh(table)
      ensures IsNextPrime(n, table.Length)
      ensures numElements == old(numElements) && Contents() == old(Contents())
      ensures table[..] == Rehashed(old(table[..]), table.Length)
    {
      var nSize := FindNextPrime(n);
      Rebuild(nSize);
    }
  }
}
