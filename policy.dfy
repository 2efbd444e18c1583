/** What both tables share besides the prime sizes: the hash and the resize trigger. */
module HashPolicy {

  /** hash(key): the identity, (int)key. */
  function Hash(key: nat): (h: nat)
    ensures h == key
  {
    key
  }

  /** load_factor() > .75, i.e. numElements / bucket_count() > 3/4, as an integer comparison. */
  predicate OverLoaded(count: nat, capacity: nat)
    ensures 0 < capacity ==> (OverLoaded(count, capacity) <==> (count as real) / (capacity as real) > 0.75)
  {
    if 0 < capacity then QuotientAbove(count, capacity); 4 * count > 3 * capacity
    else 4 * count > 3 * capacity
  }

  /** For a positive capacity, count / capacity > 3/4 exactly when 4 * count > 3 * capacity. */
  lemma QuotientAbove(count: nat, capacity: nat)
    requires 0 < capacity
    ensures (count as real) / (capacity as real) > 0.75 <==> 4 * count > 3 * capacity
  {
    var c, d := count as real, capacity as real;
    var q := c / d;
    assert q * d == c;
    if q > 0.75 {
      assert (q - 0.75) * d > 0.0;
    } else if q < 0.75 {
      assert (0.75 - q) * d > 0.0;
    }
    assert q > 0.75 <==> 4.0 * c > 3.0 * d;
  }
}
