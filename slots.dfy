/**
 * The slot array of the open-addressing table, as a value: what each slot
 * holds, the cyclic probe order, and the effect of placing, erasing and
 * rebuilding. The class ProbingHash (module Probing) is proved against
 * these functions.
 */
module Slots {
  import opened Wrappers
  import opened Primes
  import opened HashPolicy

  /** The tag of a slot: EMPTY = 0, VALID = 1, DELETED = 2 (a tombstone). */
  datatype EntryState = Empty | Valid | Deleted

  /** One cell of the table: a tag and the stored value. */
  datatype Slot = Slot(state: EntryState, value: nat)

  /** The integer an EntryState converts to when the source compares it with a key. */
  function Code(e: EntryState): nat
  {
    match e
    case Empty => 0
    case Valid => 1
    case Deleted => 2
  }

  /** A value-initialised slot, as vector::resize creates it. */
  const Vacant := Slot(Empty, 0)

  /** emplace may claim an EMPTY or a DELETED slot. */
  predicate IsFree(e: Slot)
  {
    e.state == Empty || e.state == Deleted
  }

  /** at/erase match a VALID slot whose value equals the key. */
  predicate Holds(e: Slot, key: nat)
  {
    e.state == Valid && e.value == key
  }

  // ---------------------------------------------------------------------
  // Cyclic probe order (Index + I) % size

  /** The slot visited at probe offset i from hash h in a table of c slots. */
  function Pos(h: nat, i: nat, c: nat): (k: nat)
    requires c > 0
    ensures k < c
  {
    (h + i) % c
  }

  /** The probe offset at which the probe from h reaches slot k. */
  function Off(h: nat, k: nat, c: nat): (i: nat)
    requires c > 0
    ensures i < c
  {
    (k - h) % c
  }

  lemma PosOff(h: nat, k: nat, c: nat)
    requires 0 < c && k < c
    ensures Pos(h, Off(h, k, c), c) == k
  {
    var q, o := (k - h) / c, (k - h) % c;
    assert h + o == (-q) * c + k;
    ModUnique(h + o, -q, k, c);
  }

  lemma OffPos(h: nat, i: nat, c: nat)
    requires 0 < c && i < c
    ensures Off(h, Pos(h, i, c), c) == i
  {
    var q, p := (h + i) / c, (h + i) % c;
    assert p - h == (-q) * c + i;
    ModUnique(p - h, -q, i, c);
  }

  /** Every slot is visited exactly once by a probe of c steps. */
  lemma ProbeCoversTable(h: nat, c: nat)
    requires 0 < c
    ensures forall k: nat :: k < c ==> Off(h, k, c) < c && Pos(h, Off(h, k, c), c) == k
    ensures forall i: nat :: i < c ==> Off(h, Pos(h, i, c), c) == i
  {
    forall k: nat | k < c ensures Pos(h, Off(h, k, c), c) == k { PosOff(h, k, c); }
    forall i: nat | i < c ensures Off(h, Pos(h, i, c), c) == i { OffPos(h, i, c); }
  }

  // ---------------------------------------------------------------------
  // The live values: those in VALID slots, in slot order

  function Live(s: seq<Slot>): seq<nat>
  {
    if s == [] then []
    else Live(s[..|s| - 1]) + (if s[|s| - 1].state == Valid then [s[|s| - 1].value] else [])
  }

  lemma {:induction false} LiveAppend(a: seq<Slot>, b: seq<Slot>)
    ensures Live(a + b) == Live(a) + Live(b)
    decreases |b|
  {
    if b == [] {
      assert a + b == a;
    } else {
      var b' := b[..|b| - 1];
      assert (a + b)[..|a + b| - 1] == a + b';
      assert (a + b)[|a + b| - 1] == b[|b| - 1];
      LiveAppend(a, b');
    }
  }

  /** Overwriting slot j changes the live values by what the old and the new slot contribute. */
  lemma LiveUpdate(s: seq<Slot>, j: nat, e: Slot)
    requires j < |s|
    ensures multiset(Live(s[j := e])) == multiset(Live(s)) - multiset(Live([s[j]])) + multiset(Live([e]))
  {
    assert s == s[..j] + [s[j]] + s[j + 1..];
    assert s[j := e] == s[..j] + [e] + s[j + 1..];
    LiveAppend(s[..j] + [s[j]], s[j + 1..]);
    LiveAppend(s[..j], [s[j]]);
    LiveAppend(s[..j] + [e], s[j + 1..]);
    LiveAppend(s[..j], [e]);
  }

  lemma LiveSingle(e: Slot)
    ensures Live([e]) == if e.state == Valid then [e.value] else []
  {
    assert [e][..0] == [];
  }

  /** Filling a free slot with v adds one copy of v to the live values. */
  lemma LiveFill(s: seq<Slot>, j: nat, v: nat)
    requires j < |s| && IsFree(s[j])
    ensures multiset(Live(s[j := Slot(Valid, v)])) == multiset(Live(s)) + multiset{v}
    ensures |Live(s[j := Slot(Valid, v)])| == |Live(s)| + 1
  {
    var t := s[j := Slot(Valid, v)];
    LiveUpdate(s, j, Slot(Valid, v));
    LiveSingle(s[j]);
    LiveSingle(Slot(Valid, v));
    var before, after := multiset(Live(s)), multiset(Live(t));
    assert after == before + multiset{v};
    assert |after| == |before| + 1;
  }

  /** Turning one VALID slot into a tombstone removes one copy of its value from the live values. */
  lemma LiveTombstone(s: seq<Slot>, j: nat)
    requires j < |s| && s[j].state == Valid
    ensures multiset(Live(s[j := Slot(Deleted, s[j].value)])) == multiset(Live(s)) - multiset{s[j].value}
    ensures |Live(s[j := Slot(Deleted, s[j].value)])| + 1 == |Live(s)|
  {
    var v := s[j].value;
    var t := s[j := Slot(Deleted, v)];
    LiveUpdate(s, j, Slot(Deleted, v));
    LiveSingle(s[j]);
    LiveSingle(Slot(Deleted, v));
    var before, after := multiset(Live(s)), multiset(Live(t));
    assert after == before - multiset{v};
    LiveHas(s, v);
    assert v in before;
    assert |after| + 1 == |before|;
  }

  /** There are never more live values than slots, and as many only when no slot is free. */
  lemma {:induction false} LiveCount(s: seq<Slot>)
    ensures |Live(s)| <= |s|
    ensures |Live(s)| == |s| <==> forall k :: 0 <= k < |s| ==> !IsFree(s[k])
  {
    if s != [] {
      var s' := s[..|s| - 1];
      LiveCount(s');
      assert forall k :: 0 <= k < |s'| ==> s'[k] == s[k];
    }
  }

  /** key is live exactly when some VALID slot holds it. */
  lemma {:induction false} LiveHas(s: seq<Slot>, key: nat)
    ensures key in Live(s) <==> exists k :: 0 <= k < |s| && Holds(s[k], key)
  {
    if s != [] {
      var s' := s[..|s| - 1];
      LiveHas(s', key);
      assert forall k :: 0 <= k < |s'| ==> s'[k] == s[k];
    }
  }

  /** No slot of the table is VALID exactly when nothing is live. */
  lemma NoValidSlot(s: seq<Slot>)
    ensures Live(s) == [] <==> forall k :: 0 <= k < |s| ==> s[k].state != Valid
  {
    if Live(s) != [] {
      var key := Live(s)[0];
      LiveHas(s, key);
    }
    if exists k :: 0 <= k < |s| && s[k].state == Valid {
      var k :| 0 <= k < |s| && s[k].state == Valid;
      LiveHas(s, s[k].value);
    }
  }

  // ---------------------------------------------------------------------
  // Linear probing for a free slot

  /** The first probe offset, from i on, whose slot is EMPTY or DELETED. */
  function FreeOffset(s: seq<Slot>, h: nat, i: nat): (r: Option<nat>)
    requires 0 < |s| && i <= |s|
    ensures r.Some? ==> i <= r.value < |s| && IsFree(s[Pos(h, r.value, |s|)])
    ensures r.Some? ==> forall j :: i <= j < r.value ==> !IsFree(s[Pos(h, j, |s|)])
    ensures r.None? ==> forall j :: i <= j < |s| ==> !IsFree(s[Pos(h, j, |s|)])
    decreases |s| - i
  {
    if i == |s| then None
    else if IsFree(s[Pos(h, i, |s|)]) then Some(i)
    else FreeOffset(s, h, i + 1)
  }

  /** A table with fewer live values than slots always has a free slot on every probe path. */
  lemma FreeSlotFound(s: seq<Slot>, h: nat)
    requires 0 < |s| && |Live(s)| < |s|
    ensures FreeOffset(s, h, 0).Some?
  {
    LiveCount(s);
    var k :| 0 <= k < |s| && IsFree(s[k]);
    PosOff(h, k, |s|);
  }

  /** A probe finds no free slot only when every slot is VALID. */
  lemma NoFreeSlot(s: seq<Slot>, h: nat)
    requires 0 < |s| && FreeOffset(s, h, 0).None?
    ensures forall k :: 0 <= k < |s| ==> s[k].state == Valid
    ensures |Live(s)| == |s|
  {
    forall k | 0 <= k < |s| ensures s[k].state == Valid {
      PosOff(h, k, |s|);
    }
    LiveCount(s);
  }

  /** Claim the first free slot on the probe path from h: mark it VALID and store v in it. */
  function Claim(t: seq<Slot>, h: nat, v: nat): (r: seq<Slot>)
    requires 0 < |t| && FreeOffset(t, h, 0).Some?
    ensures |r| == |t|
    ensures multiset(Live(r)) == multiset(Live(t)) + multiset{v}
    ensures |Live(r)| == |Live(t)| + 1
    ensures (forall k :: 0 <= k < |t| ==> t[k].state != Deleted) ==> forall k :: 0 <= k < |r| ==> r[k].state != Deleted
  {
    var p := Pos(h, FreeOffset(t, h, 0).value, |t|);
    LiveFill(t, p, v);
    t[p := Slot(Valid, v)]
  }

  /** Claim writes VALID v into the first EMPTY or DELETED slot on the probe path from h and leaves every other slot alone. */
  lemma ClaimTakesFirstFree(t: seq<Slot>, h: nat, v: nat)
    requires 0 < |t| && FreeOffset(t, h, 0).Some?
    ensures var o := FreeOffset(t, h, 0).value;
            var p := Pos(h, o, |t|);
            IsFree(t[p]) && (forall j :: 0 <= j < o ==> !IsFree(t[Pos(h, j, |t|)])) &&
            Claim(t, h, v)[p] == Slot(Valid, v) &&
            forall k :: 0 <= k < |t| && k != p ==> Claim(t, h, v)[k] == t[k]
  {
  }

  /** rehash's inner loop: place v by probing from its own hash. */
  function Place(t: seq<Slot>, v: nat): (r: seq<Slot>)
    requires 0 < |t| && |Live(t)| < |t|
    ensures |r| == |t|
    ensures multiset(Live(r)) == multiset(Live(t)) + multiset{v}
    ensures |Live(r)| == |Live(t)| + 1
    ensures (forall k :: 0 <= k < |t| ==> t[k].state != Deleted) ==> forall k :: 0 <= k < |r| ==> r[k].state != Deleted
  {
    FreeSlotFound(t, Hash(v));
    Claim(t, Hash(v), v)
  }

  // ---------------------------------------------------------------------
  // Rebuilding: rehash places the live values one by one into a fresh table

  /** The table with vs placed one after another, in order. */
  function Reinsert(t: seq<Slot>, vs: seq<nat>): (r: seq<Slot>)
    requires 0 < |t| && |Live(t)| + |vs| <= |t|
    ensures |r| == |t|
    ensures multiset(Live(r)) == multiset(Live(t)) + multiset(vs)
    ensures |Live(r)| == |Live(t)| + |vs|
    ensures (forall k :: 0 <= k < |t| ==> t[k].state != Deleted) ==> forall k :: 0 <= k < |r| ==> r[k].state != Deleted
    decreases |vs|
  {
    if vs == [] then t
    else
      var front, v := vs[..|vs| - 1], vs[|vs| - 1];
      assert vs == front + [v];
      Place(Reinsert(t, front), v)
  }

  /** A table of m value-initialised (EMPTY) slots. */
  function Fresh(m: nat): (r: seq<Slot>)
    ensures |r| == m && Live(r) == []
  {
    var r := seq(m, _ => Vacant);
    NoValidSlot(r);
    r
  }

  /** The table rehash builds: the live values of s, in slot order, placed into m fresh slots. */
  function Rehashed(s: seq<Slot>, m: nat): (r: seq<Slot>)
    requires 0 < m && |Live(s)| <= m
    ensures |r| == m
  {
    Reinsert(Fresh(m), Live(s))
  }

  /** A prefix of the slots has no more live values than the whole table. */
  lemma LivePrefix(s: seq<Slot>, i: nat)
    requires i <= |s|
    ensures |Live(s[..i])| <= |Live(s)|
  {
    assert s == s[..i] + s[i..];
    LiveAppend(s[..i], s[i..]);
  }

  /** One step of rehash's outer loop: slot i contributes its value if it is VALID. */
  lemma ReinsertStep(s: seq<Slot>, i: nat, m: nat)
    requires i < |s| && 0 < m && |Live(s)| <= m
    ensures |Live(s[..i])| <= |Live(s[..i + 1])| <= |Live(s)| <= m
    ensures s[i].state == Valid ==> |Live(s[..i])| < |Live(s[..i + 1])|
    ensures Reinsert(Fresh(m), Live(s[..i + 1])) ==
      if s[i].state == Valid then Place(Reinsert(Fresh(m), Live(s[..i])), s[i].value)
      else Reinsert(Fresh(m), Live(s[..i]))
  {
    var pre, pre1 := s[..i], s[..i + 1];
    assert pre1 == pre + [s[i]];
    LiveAppend(pre, [s[i]]);
    LiveSingle(s[i]);
    LivePrefix(s, i + 1);
    var vs := Live(pre1);
    if s[i].state == Valid {
      assert vs == Live(pre) + [s[i].value];
      assert vs[..|vs| - 1] == Live(pre);
    } else {
      assert vs == Live(pre);
    }
  }

  /** Rehashing keeps exactly the live values, loses every tombstone, and keeps the count. */
  lemma RehashedKeepsLiveValues(s: seq<Slot>, m: nat)
    requires 0 < m && |Live(s)| <= m
    ensures multiset(Live(Rehashed(s, m))) == multiset(Live(s))
    ensures |Live(Rehashed(s, m))| == |Live(s)|
    ensures forall k :: 0 <= k < m ==> Rehashed(s, m)[k].state != Deleted
    ensures forall key: nat :: key in Live(Rehashed(s, m)) <==> key in Live(s)
  {
    var r := Rehashed(s, m);
    assert multiset(Live(r)) == multiset(Live(s));
    assert |multiset(Live(r))| == |multiset(Live(s))|;
    forall key: nat ensures key in Live(r) <==> key in Live(s) {
      assert key in Live(r) <==> key in multiset(Live(r));
      assert key in Live(s) <==> key in multiset(Live(s));
    }
  }

  // ---------------------------------------------------------------------
  // Erasing: every VALID slot holding the key becomes a tombstone

  /** One slot under erase: a VALID copy of key becomes DELETED, any other slot is kept. */
  function Erased(e: Slot, key: nat): (r: Slot)
    ensures !Holds(r, key) && r.value == e.value
    ensures Holds(e, key) ==> r.state == Deleted
    ensures !Holds(e, key) ==> r == e
  {
    if Holds(e, key) then Slot(Deleted, e.value) else e
  }

  function EraseAll(s: seq<Slot>, key: nat): (r: seq<Slot>)
    ensures |r| == |s|
    ensures forall k :: 0 <= k < |r| ==> !Holds(r[k], key)
  {
    seq(|s|, k requires 0 <= k < |s| => Erased(s[k], key))
  }

  /** s with key erased from the slots at the first i offsets of the probe sequence from h. */
  function ErasedUpTo(s: seq<Slot>, key: nat, h: nat, i: nat): (r: seq<Slot>)
    requires 0 < |s|
    ensures |r| == |s|
  {
    seq(|s|, k requires 0 <= k < |s| => if Off(h, k, |s|) < i then Erased(s[k], key) else s[k])
  }

  /** Nothing erased yet at offset 0; everything erased once every offset is passed. */
  lemma ErasedUpToEnds(s: seq<Slot>, key: nat, h: nat)
    requires 0 < |s|
    ensures ErasedUpTo(s, key, h, 0) == s
    ensures ErasedUpTo(s, key, h, |s|) == EraseAll(s, key)
  {
  }

  /** One more offset of the probe sequence: only slot Pos(h, i) changes, and it still held its old value before. */
  lemma ErasedUpToStep(s: seq<Slot>, key: nat, h: nat, i: nat)
    requires 0 < |s| && i < |s|
    ensures ErasedUpTo(s, key, h, i)[Pos(h, i, |s|)] == s[Pos(h, i, |s|)]
    ensures ErasedUpTo(s, key, h, i + 1) ==
            ErasedUpTo(s, key, h, i)[Pos(h, i, |s|) := Erased(s[Pos(h, i, |s|)], key)]
  {
    var p := Pos(h, i, |s|);
    OffPos(h, i, |s|);
    var a, b := ErasedUpTo(s, key, h, i + 1), ErasedUpTo(s, key, h, i)[p := Erased(s[p], key)];
    forall k | 0 <= k < |s| ensures a[k] == b[k] {
      if k != p {
        PosOff(h, k, |s|);
      }
    }
  }

  /** Erasing over s is erasing over all but its last slot, then over that slot. */
  lemma EraseAllLast(s: seq<Slot>, key: nat)
    requires s != []
    ensures Live(EraseAll(s, key)) == Live(EraseAll(s[..|s| - 1], key)) + Live([Erased(s[|s| - 1], key)])
  {
    var e := EraseAll(s, key);
    assert e[..|s| - 1] == EraseAll(s[..|s| - 1], key);
  }

  /** Dropping every copy of key distributes over concatenation. */
  lemma DropKeyAppend(a: seq<nat>, b: seq<nat>, u: seq<nat>, t: seq<nat>, key: nat)
    requires multiset(a) == multiset(b)[key := 0] && |a| == |b| - multiset(b)[key]
    requires multiset(u) == multiset(t)[key := 0] && |u| == |t| - multiset(t)[key]
    ensures multiset(a + u) == multiset(b + t)[key := 0]
    ensures |a + u| == |b + t| - multiset(b + t)[key]
  {
    var whole: multiset<nat> := multiset(b + t);
    var dropped := whole[key := 0];
    forall y: nat ensures multiset(a + u)[y] == dropped[y] {
      assert multiset(a + u)[y] == multiset(a)[y] + multiset(u)[y];
    }
  }

  /** erase drops every copy of key from the live values and nothing else. */
  lemma {:induction false} EraseAllRemovesKey(s: seq<Slot>, key: nat)
    ensures multiset(Live(EraseAll(s, key))) == multiset(Live(s))[key := 0]
    ensures |Live(EraseAll(s, key))| == |Live(s)| - multiset(Live(s))[key]
  {
    if s == [] {
      assert EraseAll(s, key) == [];
    } else {
      var s', last := s[..|s| - 1], s[|s| - 1];
      EraseAllRemovesKey(s', key);
      EraseAllLast(s, key);
      LiveSingle(last);
      LiveSingle(Erased(last, key));
      var t, u := Live([last]), Live([Erased(last, key)]);
      assert Live(s) == Live(s') + t;
      var mt: multiset<nat> := multiset(t);
      assert multiset(u) == mt[key := 0];
      DropKeyAppend(Live(EraseAll(s', key)), Live(s'), u, t, key);
    }
  }

  // ---------------------------------------------------------------------
  // emplace as a whole: claim a slot, then rehash if the load factor exceeds .75

  /** The slot array after emplace(key, value) on s (numElements being |Live(s)|). */
  ghost function Emplaced(s: seq<Slot>, key: nat, value: nat): (r: seq<Slot>)
    requires 0 < |s|
    ensures FreeOffset(s, Hash(key), 0).Some? ==>
              |r| == if OverLoaded(|Live(s)| + 1, |s|) then NextPrime(2 * |s|) else |s|
  {
    if FreeOffset(s, Hash(key), 0).None? then s
    else
      var mid := Claim(s, Hash(key), value);
      LiveCount(s);
      assert |Live(mid)| == |multiset(Live(mid))| == |Live(s)| + 1;
      if OverLoaded(|Live(s)| + 1, |s|) then Rehashed(mid, NextPrime(2 * |s|)) else mid
  }

  /** emplace adds exactly one copy of value unless every slot is VALID, and never pushes the load factor above .75. */
  lemma EmplacedAddsValue(s: seq<Slot>, key: nat, value: nat)
    requires 0 < |s|
    ensures FreeOffset(s, Hash(key), 0).None? <==> |Live(s)| == |s|
    ensures FreeOffset(s, Hash(key), 0).None? ==> Emplaced(s, key, value) == s
    ensures FreeOffset(s, Hash(key), 0).Some? ==>
      multiset(Live(Emplaced(s, key, value))) == multiset(Live(s)) + multiset{value} &&
      !OverLoaded(|Live(Emplaced(s, key, value))|, |Emplaced(s, key, value)|)
    ensures !OverLoaded(|Live(s)|, |s|) ==> !OverLoaded(|Live(Emplaced(s, key, value))|, |Emplaced(s, key, value)|)
  {
    LiveCount(s);
    if FreeOffset(s, Hash(key), 0).None? {
      NoFreeSlot(s, Hash(key));
    } else {
      var p := Pos(Hash(key), FreeOffset(s, Hash(key), 0).value, |s|);
      assert IsFree(s[p]);
      var mid := Claim(s, Hash(key), value);
      var r := Emplaced(s, key, value);
      assert |Live(mid)| == |multiset(Live(mid))| == |Live(s)| + 1;
      if OverLoaded(|Live(s)| + 1, |s|) {
        RehashedKeepsLiveValues(mid, NextPrime(2 * |s|));
      }
      assert |Live(r)| == |multiset(Live(r))|;
    }
  }

  // ---------------------------------------------------------------------
  // count and bucket as written compare a slot's tag, not its value, with the key

  /** How many of the first i probe offsets from h reach a slot whose tag code equals key. */
  function TagMatches(s: seq<Slot>, h: nat, key: nat, i: nat): (r: nat)
    requires 0 < |s| && i <= |s|
    ensures r <= i
    ensures key > 2 ==> r == 0
  {
    if i == 0 then 0
    else TagMatches(s, h, key, i - 1) + (if Code(s[Pos(h, i - 1, |s|)].state) == key then 1 else 0)
  }

  /** A table holding 5 in a VALID slot: the tag comparison counts no 5 in it. */
  lemma TagCountMissesStoredKey()
    ensures 5 in Live([Slot(Valid, 5)])
    ensures TagMatches([Slot(Valid, 5)], Hash(5), 5, 1) == 0
  {
    assert [Slot(Valid, 5)][..0] == [];
  }
}
