/** Sums of natural-number weights over finite sets, independent of the order in
    which the set is visited.  Every loop of the model that ranges over a Go map is
    proved against these sums, so its result holds for every iteration order. */
module Sums {

  ghost function Total<K(!new)>(keys: set<K>, weight: map<K, nat>): nat
    requires keys <= weight.Keys
  {
    if keys == {} then 0
    else
      var k :| k in keys;
      weight[k] + Total(keys - {k}, weight)
  }

  /** The sum may be started at any member. */
  lemma {:induction false} TotalPick<K(!new)>(keys: set<K>, weight: map<K, nat>, k: K)
    requires keys <= weight.Keys && k in keys
    ensures Total(keys, weight) == weight[k] + Total(keys - {k}, weight)
  {
    var first :| first in keys && Total(keys, weight) == weight[first] + Total(keys - {first}, weight);
    if first != k {
      TotalPick(keys - {first}, weight, k);
      TotalPick(keys - {k}, weight, first);
      assert keys - {first} - {k} == keys - {k} - {first};
    }
  }

  lemma {:induction false} TotalUnion<K(!new)>(a: set<K>, b: set<K>, weight: map<K, nat>)
    requires a + b <= weight.Keys && a !! b
    ensures Total(a + b, weight) == Total(a, weight) + Total(b, weight)
  {
    if a == {} {
      assert a + b == b;
    } else {
      var k :| k in a;
      TotalPick(a, weight, k);
      TotalPick(a + b, weight, k);
      assert a + b - {k} == (a - {k}) + b;
      TotalUnion(a - {k}, b, weight);
    }
  }

  lemma TotalMonotone<K(!new)>(a: set<K>, b: set<K>, weight: map<K, nat>)
    requires a <= b <= weight.Keys
    ensures Total(a, weight) <= Total(b, weight)
  {
    TotalUnion(a, b - a, weight);
    assert a + (b - a) == b;
  }

  /** Two sets inside `all` overlap at least by what their sums exceed the whole. */
  lemma TotalOverlap<K(!new)>(a: set<K>, b: set<K>, all: set<K>, weight: map<K, nat>)
    requires a + b <= all <= weight.Keys
    ensures Total(a, weight) + Total(b, weight) <= Total(all, weight) + Total(a * b, weight)
  {
    TotalUnion(a, b - a, weight);
    TotalUnion(b - a, a * b, weight);
    assert (b - a) + a * b == b;
    TotalMonotone(a + (b - a), all, weight);
  }

  lemma {:induction false} TotalAgree<K(!new)>(keys: set<K>, v: map<K, nat>, w: map<K, nat>)
    requires keys <= v.Keys && keys <= w.Keys
    requires forall k :: k in keys ==> v[k] == w[k]
    ensures Total(keys, v) == Total(keys, w)
  {
    if keys != {} {
      var k :| k in keys;
      TotalPick(keys, v, k);
      TotalPick(keys, w, k);
      TotalAgree(keys - {k}, v, w);
    }
  }

  /** Changing one weight moves the sum by exactly that change. */
  lemma TotalUpdate<K(!new)>(keys: set<K>, weight: map<K, nat>, k: K, x: nat)
    requires keys <= weight.Keys && k in keys
    ensures Total(keys, weight[k := x]) == Total(keys, weight) - weight[k] + x
  {
    TotalPick(keys, weight, k);
    TotalPick(keys, weight[k := x], k);
    TotalAgree(keys - {k}, weight, weight[k := x]);
  }

  ghost function Whole<K(!new)>(weight: map<K, nat>): nat {
    Total(weight.Keys, weight)
  }

  lemma WholeUpdate<K(!new)>(weight: map<K, nat>, k: K, x: nat)
    ensures Whole(weight[k := x]) == Whole(weight) - (if k in weight then weight[k] else 0) + x
  {
    var more := weight[k := x];
    TotalPick(more.Keys, more, k);
    assert more.Keys - {k} == weight.Keys - {k};
    TotalAgree(weight.Keys - {k}, weight, more);
    if k in weight {
      TotalPick(weight.Keys, weight, k);
    } else {
      assert weight.Keys - {k} == weight.Keys;
    }
  }
}
