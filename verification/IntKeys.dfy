/**
 * Integer keys compared by a difference that is cut to 32 bits: on which sets
 * of keys that is an order, and what a dictionary then takes for one key.
 */
module IntKeys {
  import opened Words

  const HALF: int := U32 / 2

  /** dict_int_cmp. */
  function IntCmp(a: int, b: int): int { Signed32(a - b) }

  // ----- two keys -----

  /** The comparison of two keys in both directions has the right sign. */
  predicate Compares(a: int, b: int) {
    && (IntCmp(a, b) < 0 <==> a < b) && (IntCmp(a, b) > 0 <==> a > b)
    && (IntCmp(b, a) < 0 <==> b < a) && (IntCmp(b, a) > 0 <==> b > a)
  }

  function Distance(a: int, b: int): nat { if a <= b then b - a else a - b }

  /** Exactly when the distance, cut to 32 bits, still is a small positive number (or the keys are equal). */
  lemma ComparesExactly(a: int, b: int)
    ensures Compares(a, b) <==> a == b || 0 < Distance(a, b) % U32 < HALF
  {
    var d := Distance(a, b);
    Opposite(d);
  }

  lemma Opposite(d: int)
    ensures (0 - d) % U32 == if d % U32 == 0 then 0 else U32 - d % U32
  {
    ModIs(0 - d, if d % U32 == 0 then 0 - d / U32 else 0 - d / U32 - 1, if d % U32 == 0 then 0 else U32 - d % U32);
  }

  lemma ModIs(d: int, q: int, m: int)
    requires d == U32 * q + m && 0 <= m < U32
    ensures d % U32 == m
  {
  }

  // ----- sets of keys -----

  /** The place of a key on the circle of 32-bit words, counted from `base`. */
  function Rank(base: int, k: int): (r: nat)
    ensures r < U32
  {
    (k - base) % U32
  }

  /** The key lies in the half circle that starts at `base`. */
  predicate Near(base: int, k: int) { Rank(base, k) < HALF }

  /** Two keys have the same rank from any base if and only if they differ by a multiple of 2^32. */
  predicate Congruent(a: int, b: int) { (a - b) % U32 == 0 }

  lemma RankDiff(base: int, a: int, b: int)
    ensures (a - b) % U32 == (Rank(base, a) - Rank(base, b)) % U32
  {
    var qa, qb := (a - base) / U32, (b - base) / U32;
    var d := Rank(base, a) - Rank(base, b);
    assert a - b == d + U32 * (qa - qb);
    ModIs(a - b, d / U32 + (qa - qb), d % U32);
  }

  lemma SameRank(base: int, a: int, b: int)
    ensures Rank(base, a) == Rank(base, b) <==> Congruent(a, b)
  {
    RankDiff(base, a, b);
    SmallDiff(Rank(base, a), Rank(base, b));
  }

  lemma SmallDiff(x: nat, y: nat)
    requires x < U32 && y < U32
    ensures (x - y) % U32 == 0 <==> x == y
  {
    if x < y { ModIs(x - y, -1, x - y + U32); }
  }

  /** Within a half circle the comparison is the difference of ranks. */
  lemma NearCmp(base: int, a: int, b: int)
    requires Near(base, a) && Near(base, b)
    ensures IntCmp(a, b) == Rank(base, a) - Rank(base, b)
  {
    RankDiff(base, a, b);
    var d := Rank(base, a) - Rank(base, b);
    if d < 0 { ModIs(d, -1, d + U32); }
  }

  /** The comparison is a total preorder on these keys, as a dictionary needs it. */
  ghost predicate Orders(keys: set<int>) {
    && (forall a, b | a in keys && b in keys :: IntCmp(a, b) < 0 <==> IntCmp(b, a) > 0)
    && (forall a, b, c | a in keys && b in keys && c in keys ::
          IntCmp(a, b) <= 0 && IntCmp(b, c) <= 0 ==> IntCmp(a, c) <= 0)
  }

  ghost predicate AllNear(base: int, keys: set<int>) { forall k | k in keys :: Near(base, k) }

  /** It is one exactly when the keys fit into a half circle of 32-bit words that starts at one of them. */
  lemma OrdersExactly(keys: set<int>)
    requires keys != {}
    ensures Orders(keys) <==> exists base :: base in keys && AllNear(base, keys)
  {
    if Orders(keys) {
      var base := Least(keys);
      forall k | k in keys
        ensures Near(base, k)
      {
        LeastIsNear(base, k);
      }
      assert AllNear(base, keys);
    }
    if base :| base in keys && AllNear(base, keys) {
      forall a, b | a in keys && b in keys
        ensures IntCmp(a, b) == Rank(base, a) - Rank(base, b)
      {
        NearCmp(base, a, b);
      }
    }
  }

  lemma LeastIsNear(base: int, k: int)
    requires IntCmp(base, k) <= 0 && (IntCmp(base, k) < 0 ==> IntCmp(k, base) > 0) && (IntCmp(base, k) == 0 ==> IntCmp(k, base) == 0)
    ensures Near(base, k)
  {
    Opposite(base - k);
    assert 0 - (base - k) == k - base;
  }

  lemma Inhabited(keys: set<int>)
    ensures keys == {} || exists k :: k in keys
  {
    if forall k :: k !in keys { assert keys == {}; }
  }

  /** A key that no other is below. */
  lemma {:induction false} Least(keys: set<int>) returns (least: int)
    requires keys != {} && Orders(keys)
    ensures least in keys && forall k | k in keys :: IntCmp(least, k) <= 0
    decreases |keys|
  {
    Inhabited(keys);
    var x :| x in keys;
    assert IntCmp(x, x) == 0;
    var rest := keys - {x};
    if rest == {} {
      assert keys == {x};
      least := x;
    } else {
      assert |rest| < |keys|;
      var y := Least(rest);
      least := if IntCmp(x, y) <= 0 then x else y;
      assert IntCmp(x, y) > 0 ==> IntCmp(y, x) < 0;
    }
  }

  /** In particular keys less than 2^31 above a common bound. */
  lemma CloseKeysNear(base: int, k: int)
    requires base <= k < base + HALF
    ensures Near(base, k)
  {
  }
}
