/** The capacities the state buffer can take: 64, doubled any number of times
    (src/xirr.c:66, 76, 95). */
module XirrCapacity {
  import opened XirrTypes

  function Pow2(k: nat): (r: nat)
    ensures r >= 1
  {
    if k == 0 then 1 else 2 * Pow2(k - 1)
  }

  /** `n` is a capacity the buffer can have: the initial length, or the double of one. */
  predicate IsCapacity(n: int)
    decreases if n < 0 then 0 else n
  {
    n == InitLen || (n > InitLen && n % 2 == 0 && IsCapacity(n / 2))
  }

  lemma DoubleIsCapacity(n: int)
    requires IsCapacity(n)
    ensures IsCapacity(2 * n)
  {
    assert (2 * n) / 2 == n;
  }

  lemma {:induction false} CapacityAtLeastInit(n: int)
    requires IsCapacity(n)
    ensures n >= InitLen && n % 2 == 0
    decreases if n < 0 then 0 else n
  {
  }

  /** Every capacity is 64 * 2^k ... */
  lemma {:induction false} CapacityHasExponent(n: int) returns (k: nat)
    requires IsCapacity(n)
    ensures n == InitLen * Pow2(k)
    decreases if n < 0 then 0 else n
  {
    if n == InitLen {
      k := 0;
    } else {
      var h := CapacityHasExponent(n / 2);
      k := h + 1;
    }
  }

  /** ... and every 64 * 2^k is a capacity. */
  lemma {:induction false} ExponentGivesCapacity(k: nat)
    ensures IsCapacity(InitLen * Pow2(k))
  {
    if k > 0 {
      ExponentGivesCapacity(k - 1);
      DoubleIsCapacity(InitLen * Pow2(k - 1));
    }
  }

  lemma CapacityIsDoubledInitLen(n: int)
    ensures IsCapacity(n) <==> exists k: nat :: n == InitLen * Pow2(k)
  {
    if IsCapacity(n) {
      var k := CapacityHasExponent(n);
    }
    if exists k: nat :: n == InitLen * Pow2(k) {
      var k: nat :| n == InitLen * Pow2(k);
      ExponentGivesCapacity(k);
    }
  }

  /** Two distinct capacities are at least a factor of two apart. */
  lemma {:induction false} CapacitiesAreSpaced(c1: int, c2: int)
    requires IsCapacity(c1) && IsCapacity(c2) && c1 < c2
    ensures 2 * c1 <= c2
    decreases if c2 < 0 then 0 else c2
  {
    CapacityAtLeastInit(c1);
    var h := c2 / 2;
    assert c2 != InitLen;
    if c1 < h {
      CapacitiesAreSpaced(c1, h);
    } else if c1 > h {
      CapacitiesAreSpaced(h, c1);
      assert false;
    }
  }

  /** The least capacity that holds `n` records: what a buffer that starts at 64
      and doubles only when full has after `n` appends. */
  function CapacityFor(n: nat): (c: int)
    ensures IsCapacity(c) && n <= c
    decreases n
  {
    if n <= InitLen then InitLen else 2 * CapacityFor((n + 1) / 2)
  }

  lemma {:induction false} CapacityForIsLeast(n: nat, c: int)
    requires IsCapacity(c) && n <= c
    ensures CapacityFor(n) <= c
    decreases n
  {
    CapacityAtLeastInit(c);
    if n > InitLen {
      assert c != InitLen;
      CapacityForIsLeast((n + 1) / 2, c / 2);
    }
  }

  /** How the least capacity moves when one more record arrives: it stays put
      while there is room and doubles exactly when the buffer was full. */
  lemma CapacityForStep(n: nat)
    requires n >= 1
    ensures CapacityFor(n) == if n - 1 >= CapacityFor(n - 1) then 2 * CapacityFor(n - 1) else CapacityFor(n - 1)
  {
    var a, b := CapacityFor(n - 1), CapacityFor(n);
    CapacityAtLeastInit(a);
    if n - 1 < a {
      CapacityForIsLeast(n, a);
      CapacityForIsLeast(n - 1, b);
    } else {
      CapacitiesAreSpaced(a, b);
      DoubleIsCapacity(a);
      CapacityForIsLeast(n, 2 * a);
    }
  }

  /** Memory bound: up to 64 records the buffer keeps its initial size, and past
      that it is always less than twice the number of records. */
  lemma CapacityForBound(n: nat)
    ensures n <= InitLen ==> CapacityFor(n) == InitLen
    ensures n > InitLen ==> n <= CapacityFor(n) < 2 * n
  {
    var c := CapacityFor(n);
    if n > InitLen {
      CapacityAtLeastInit(c);
      assert c != InitLen;
      if c / 2 >= n {
        CapacityForIsLeast(n, c / 2);
        assert false;
      }
    }
  }
}
