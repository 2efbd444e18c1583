/**
 * The bucket vector of the separate-chaining table, as a value: one
 * sequence per bucket, each in list order. The class ChainingHash (module
 * Chaining) is proved against these functions.
 */
module Buckets {
  import opened Primes
  import opened HashPolicy

  /** Every element, bucket after bucket, each bucket front to back. */
  function Flatten(bs: seq<seq<nat>>): seq<nat>
  {
    if bs == [] then [] else Flatten(bs[..|bs| - 1]) + bs[|bs| - 1]
  }

  lemma {:induction false} FlattenAppend(a: seq<seq<nat>>, b: seq<seq<nat>>)
    ensures Flatten(a + b) == Flatten(a) + Flatten(b)
    decreases |b|
  {
    if b == [] {
      assert a + b == a;
    } else {
      var b' := b[..|b| - 1];
      assert (a + b)[..|a + b| - 1] == a + b';
      assert (a + b)[|a + b| - 1] == b[|b| - 1];
      FlattenAppend(a, b');
    }
  }

  lemma FlattenSingle(x: seq<nat>)
    ensures Flatten([x]) == x
  {
    assert [x][..0] == [];
  }

  /** Replacing bucket j by x swaps its elements for those of x in the whole. */
  lemma FlattenUpdate(bs: seq<seq<nat>>, j: nat, x: seq<nat>)
    requires j < |bs|
    ensures multiset(Flatten(bs[j := x])) + multiset(bs[j]) == multiset(Flatten(bs)) + multiset(x)
    ensures |Flatten(bs[j := x])| + |bs[j]| == |Flatten(bs)| + |x|
  {
    assert bs == bs[..j] + [bs[j]] + bs[j + 1..];
    assert bs[j := x] == bs[..j] + [x] + bs[j + 1..];
    FlattenAppend(bs[..j] + [bs[j]], bs[j + 1..]);
    FlattenAppend(bs[..j], [bs[j]]);
    FlattenAppend(bs[..j] + [x], bs[j + 1..]);
    FlattenAppend(bs[..j], [x]);
    FlattenSingle(bs[j]);
    FlattenSingle(x);
  }

  /** push_back on bucket j adds one element to the whole. */
  lemma FlattenPush(bs: seq<seq<nat>>, j: nat, v: nat)
    requires j < |bs|
    ensures multiset(Flatten(bs[j := bs[j] + [v]])) == multiset(Flatten(bs)) + multiset{v}
    ensures |Flatten(bs[j := bs[j] + [v]])| == |Flatten(bs)| + 1
  {
    var x := bs[j] + [v];
    var after := multiset(Flatten(bs[j := x]));
    FlattenUpdate(bs, j, x);
    assert after + multiset(bs[j]) == multiset(Flatten(bs)) + multiset(x);
    assert multiset(bs[j] + [v]) == multiset(bs[j]) + multiset{v};
    forall y ensures after[y] == (multiset(Flatten(bs)) + multiset{v})[y] {
      assert (after + multiset(bs[j]))[y] == (multiset(Flatten(bs)) + multiset(x))[y];
    }
    assert after == multiset(Flatten(bs)) + multiset{v};
  }

  /** The table holds nothing exactly when every bucket is empty. */
  lemma {:induction false} FlattenEmpty(bs: seq<seq<nat>>)
    ensures Flatten(bs) == [] <==> forall b :: 0 <= b < |bs| ==> bs[b] == []
  {
    if bs != [] {
      var bs' := bs[..|bs| - 1];
      FlattenEmpty(bs');
      assert forall b :: 0 <= b < |bs'| ==> bs'[b] == bs[b];
    }
  }

  // ---------------------------------------------------------------------
  // Home buckets

  /** Every element sits in bucket hash(element) % |bs|. */
  ghost predicate AllHome(bs: seq<seq<nat>>)
  {
    forall b, i :: 0 <= b < |bs| && 0 <= i < |bs[b]| ==> Hash(bs[b][i]) % |bs| == b
  }

  /** Under AllHome, the first j buckets hold key only if its home bucket is among them, and then as often as it does. */
  lemma {:induction false} HomePrefixCount(bs: seq<seq<nat>>, key: nat, j: nat)
    requires 0 < |bs| && AllHome(bs) && j <= |bs|
    ensures multiset(Flatten(bs[..j]))[key] ==
      if Hash(key) % |bs| < j then multiset(bs[Hash(key) % |bs|])[key] else 0
  {
    if j > 0 {
      HomePrefixCount(bs, key, j - 1);
      assert bs[..j][..j - 1] == bs[..j - 1];
      assert Flatten(bs[..j]) == Flatten(bs[..j - 1]) + bs[j - 1];
      if Hash(key) % |bs| != j - 1 {
        assert key !in bs[j - 1];
      }
    }
  }

  /** Under AllHome, every copy of key is in its home bucket: looking there is enough. */
  lemma HomeHoldsAll(bs: seq<seq<nat>>, key: nat)
    requires 0 < |bs| && AllHome(bs)
    ensures multiset(Flatten(bs))[key] == multiset(bs[Hash(key) % |bs|])[key]
    ensures key in Flatten(bs) <==> key in bs[Hash(key) % |bs|]
  {
    HomePrefixCount(bs, key, |bs|);
    assert bs[..|bs|] == bs;
    assert key in Flatten(bs) <==> key in multiset(Flatten(bs));
    assert key in bs[Hash(key) % |bs|] <==> key in multiset(bs[Hash(key) % |bs|]);
  }

  // ---------------------------------------------------------------------
  // Rehash: push every element, in order, onto its home bucket of a fresh vector

  /** Pushing v onto its own home bucket keeps every element home. */
  lemma PushKeepsHome(bs: seq<seq<nat>>, v: nat)
    requires 0 < |bs| && AllHome(bs)
    ensures AllHome(bs[Hash(v) % |bs| := bs[Hash(v) % |bs|] + [v]])
  {
    var h := Hash(v) % |bs|;
    var r := bs[h := bs[h] + [v]];
    forall b, i | 0 <= b < |r| && 0 <= i < |r[b]| ensures Hash(r[b][i]) % |r| == b {
      if b == h && i == |bs[h]| {
        assert r[b][i] == v;
      } else {
        assert r[b][i] == bs[b][i];
      }
    }
  }

  /** xs distributed over m empty buckets by push_back, in order. */
  function Spread(xs: seq<nat>, m: nat): (r: seq<seq<nat>>)
    requires 0 < m
    ensures |r| == m
    ensures AllHome(r)
    ensures multiset(Flatten(r)) == multiset(xs)
    ensures |Flatten(r)| == |xs|
    decreases |xs|
  {
    if xs == [] then
      var r := seq(m, _ => []);
      FlattenEmpty(r);
      r
    else
      var t, v := Spread(xs[..|xs| - 1], m), xs[|xs| - 1];
      assert xs == xs[..|xs| - 1] + [v];
      FlattenPush(t, Hash(v) % m, v);
      PushKeepsHome(t, v);
      t[Hash(v) % m := t[Hash(v) % m] + [v]]
  }

  /** The bucket vector rehash builds into m buckets. */
  function Redistributed(bs: seq<seq<nat>>, m: nat): (r: seq<seq<nat>>)
    requires 0 < m
    ensures |r| == m
  {
    Spread(Flatten(bs), m)
  }

  /** Rehashing keeps every element (with its multiplicity) and puts each in its home bucket. */
  lemma RedistributedKeepsElements(bs: seq<seq<nat>>, m: nat)
    requires 0 < m
    ensures multiset(Flatten(Redistributed(bs, m))) == multiset(Flatten(bs))
    ensures |Flatten(Redistributed(bs, m))| == |Flatten(bs)|
    ensures AllHome(Redistributed(bs, m))
  {
  }

  /** One step of rehash's inner loop. */
  lemma SpreadStep(xs: seq<nat>, v: nat, m: nat)
    requires 0 < m
    ensures Spread(xs + [v], m) == Spread(xs, m)[Hash(v) % m := Spread(xs, m)[Hash(v) % m] + [v]]
  {
    assert (xs + [v])[..|xs|] == xs;
  }

  /** xs pushed, in order, onto the home buckets of an existing vector r. */
  function PushEach(r: seq<seq<nat>>, xs: seq<nat>): (q: seq<seq<nat>>)
    requires 0 < |r|
    ensures |q| == |r|
    decreases |xs|
  {
    if xs == [] then r
    else
      var p, v := PushEach(r, xs[..|xs| - 1]), xs[|xs| - 1];
      p[Hash(v) % |p| := p[Hash(v) % |p|] + [v]]
  }

  /** Spreading before and then pushing xs is spreading before + xs: rehash may work bucket by bucket. */
  lemma {:induction false} SpreadThenPush(before: seq<nat>, xs: seq<nat>, m: nat)
    requires 0 < m
    ensures Spread(before + xs, m) == PushEach(Spread(before, m), xs)
    decreases |xs|
  {
    if xs == [] {
      assert before + xs == before;
    } else {
      var xs', v := xs[..|xs| - 1], xs[|xs| - 1];
      assert before + xs == (before + xs') + [v];
      SpreadStep(before + xs', v, m);
      SpreadThenPush(before, xs', m);
    }
  }

  // ---------------------------------------------------------------------
  // emplace as a whole

  /** The bucket vector after emplace(key, value) on bs (numElements being |Flatten(bs)|). */
  ghost function Appended(bs: seq<seq<nat>>, key: nat, value: nat): (r: seq<seq<nat>>)
    requires 0 < |bs|
    ensures |r| == if OverLoaded(|Flatten(bs)| + 1, |bs|) then NextPrime(2 * |bs|) else |bs|
  {
    var h := Hash(key) % |bs|;
    var mid := bs[h := bs[h] + [value]];
    if OverLoaded(|Flatten(bs)| + 1, |bs|) then Redistributed(mid, NextPrime(2 * |bs|)) else mid
  }

  /** emplace adds exactly one copy of value, keeps a load factor of at most .75, and keeps elements home when key == value. */
  lemma AppendedAddsValue(bs: seq<seq<nat>>, key: nat, value: nat)
    requires 0 < |bs|
    ensures multiset(Flatten(Appended(bs, key, value))) == multiset(Flatten(bs)) + multiset{value}
    ensures |Flatten(Appended(bs, key, value))| == |Flatten(bs)| + 1
    ensures !OverLoaded(|Flatten(bs)|, |bs|) ==>
              !OverLoaded(|Flatten(Appended(bs, key, value))|, |Appended(bs, key, value)|)
    ensures AllHome(bs) && key == value ==> AllHome(Appended(bs, key, value))
  {
    var h := Hash(key) % |bs|;
    var mid := bs[h := bs[h] + [value]];
    FlattenPush(bs, h, value);
    if OverLoaded(|Flatten(bs)| + 1, |bs|) {
      RedistributedKeepsElements(mid, NextPrime(2 * |bs|));
    } else if AllHome(bs) && key == value {
      PushKeepsHome(bs, value);
    }
  }

  // ---------------------------------------------------------------------
  // erase: remove the first occurrence from a bucket

  /** The bucket after erase's unlink: xs without its first copy of key. */
  function RemoveFirst(xs: seq<nat>, key: nat): (r: seq<nat>)
    ensures key !in xs ==> r == xs
    ensures key in xs ==> |r| + 1 == |xs|
  {
    if xs == [] then []
    else if xs[0] == key then xs[1..]
    else [xs[0]] + RemoveFirst(xs[1..], key)
  }

  /** RemoveFirst drops one copy of key when there is one and leaves the list alone otherwise. */
  lemma {:induction false} RemoveFirstDropsOne(xs: seq<nat>, key: nat)
    ensures multiset(RemoveFirst(xs, key)) == multiset(xs) - multiset{key}
    ensures |RemoveFirst(xs, key)| == if key in xs then |xs| - 1 else |xs|
    ensures key !in xs ==> RemoveFirst(xs, key) == xs
  {
    if xs != [] {
      assert xs == [xs[0]] + xs[1..];
      if xs[0] != key {
        RemoveFirstDropsOne(xs[1..], key);
      }
    }
  }

  /** When i is the first position of key, RemoveFirst cuts out exactly position i. */
  lemma {:induction false} RemoveFirstAt(xs: seq<nat>, key: nat, i: nat)
    requires i < |xs| && xs[i] == key && key !in xs[..i]
    ensures RemoveFirst(xs, key) == xs[..i] + xs[i + 1..]
  {
    if i > 0 {
      assert xs[1..][..i - 1] == xs[..i][1..];
      RemoveFirstAt(xs[1..], key, i - 1);
      assert xs[1..][i - 1 + 1..] == xs[i + 1..];
      assert xs[..i] == [xs[0]] + xs[1..][..i - 1];
    }
  }

  /** Removing from one bucket keeps the others home. */
  lemma RemoveKeepsHome(bs: seq<seq<nat>>, j: nat, key: nat)
    requires j < |bs| && AllHome(bs)
    ensures AllHome(bs[j := RemoveFirst(bs[j], key)])
  {
    RemoveFirstDropsOne(bs[j], key);
    var r := bs[j := RemoveFirst(bs[j], key)];
    forall b, i | 0 <= b < |r| && 0 <= i < |r[b]| ensures Hash(r[b][i]) % |r| == b {
      if b == j {
        assert r[b][i] in multiset(RemoveFirst(bs[j], key));
        assert r[b][i] in bs[j];
        var k :| 0 <= k < |bs[j]| && bs[j][k] == r[b][i];
      }
    }
  }

  /** erase on bucket j takes one copy of key out of the whole when bucket j holds one, and nothing otherwise. */
  lemma FlattenRemove(bs: seq<seq<nat>>, j: nat, key: nat)
    requires j < |bs|
    ensures multiset(Flatten(bs[j := RemoveFirst(bs[j], key)])) ==
            multiset(Flatten(bs)) - (if key in bs[j] then multiset{key} else multiset{})
    ensures |Flatten(bs[j := RemoveFirst(bs[j], key)])| ==
            |Flatten(bs)| - (if key in bs[j] then 1 else 0)
  {
    var x := RemoveFirst(bs[j], key);
    var after := multiset(Flatten(bs[j := x]));
    var gone := if key in bs[j] then multiset{key} else multiset{};
    FlattenUpdate(bs, j, x);
    RemoveFirstDropsOne(bs[j], key);
    forall y ensures after[y] == (multiset(Flatten(bs)) - gone)[y] {
      assert (after + multiset(bs[j]))[y] == (multiset(Flatten(bs)) + multiset(x))[y];
    }
    assert after == multiset(Flatten(bs)) - gone;
  }

  // ---------------------------------------------------------------------
  // count as written

  /** One bucket holding 2: count(1) as written reports the bucket's length 1, though 1 is not stored. */
  lemma BucketLengthOvercounts()
    ensures AllHome([[2]])
    ensures |[[2]][Hash(1) % 1]| == 1
    ensures multiset(Flatten([[2]]))[1] == 0
  {
    assert [[2]][..0] == [];
    assert Flatten([[2]]) == [2];
  }

  // ---------------------------------------------------------------------
  // rehash(n) as written

  /** The bucket rehash(n) as written pushes v onto: hash(v) % findNextPrime(n), in a vector of only n buckets. */
  ghost function AsWrittenRehashToBucket(v: nat, n: nat): (b: nat)
    requires 1 <= n
    ensures b < NextPrime(n)
  {
    Hash(v) % NextPrime(n)
  }

  /** rehash(4) on a table holding 4: findNextPrime(4) is 5, so 4 goes to bucket 4 of a 4-bucket vector. */
  lemma AsWrittenRehashToOverruns()
    ensures NextPrime(4) == 5
    ensures AsWrittenRehashToBucket(4, 4) == 4
  {
    forall i: nat | 2 <= i && i * i <= 5 ensures !Divides(i, 5) {
      MulLeft(i, 3, i);
      MulLeft(3, 3, i);
    }
    assert Divides(2, 4);
    assert IsNextPrime(4, 5);
  }
}
