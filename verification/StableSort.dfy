/**
 The ordering that Python's `sorted(..., reverse=True)` computes: larger keys first, and equal keys
 in the order they arrived.  An ordering is given as the sequence of indices in their new places.
 */
module StableSort {

  /** Index `a` goes before index `b`. */
  predicate Before(keys: seq<int>, a: nat, b: nat)
    requires a < |keys| && b < |keys|
  {
    keys[a] > keys[b] || (keys[a] == keys[b] && a < b)
  }

  ghost predicate Ascends(keys: seq<int>, order: seq<nat>) {
    && (forall i :: 0 <= i < |order| ==> order[i] < |keys|)
    && (forall i, j :: 0 <= i < j < |order| ==> Before(keys, order[i], order[j]))
  }

  /** `order` lists every index of `keys` once, best first. */
  ghost predicate IsOrder(keys: seq<int>, order: seq<nat>) {
    && |order| == |keys|
    && Ascends(keys, order)
    && (forall i: nat :: i < |keys| ==> i in order)
  }

  function Insert(keys: seq<int>, order: seq<nat>, x: nat): (r: seq<nat>)
    requires x < |keys| && Ascends(keys, order)
    requires forall e :: e in order ==> e < x
    ensures |r| == |order| + 1 && Ascends(keys, r)
    ensures forall e :: e in r <==> e == x || e in order
    ensures r[0] == x || (order != [] && r[0] == order[0])
  {
    if order == [] || keys[order[0]] < keys[x] then
      [x] + order
    else
      assert forall e :: e in order[1..] ==> e in order;
      var rest := Insert(keys, order[1..], x);
      assert order[0] in order;
      assert forall i :: 0 <= i < |rest| ==> rest[i] in rest && Before(keys, order[0], rest[i]);
      [order[0]] + rest
  }

  function OrderUpTo(keys: seq<int>, n: nat): (order: seq<nat>)
    requires n <= |keys|
    ensures |order| == n && Ascends(keys, order)
    ensures forall e: nat :: e in order <==> e < n
  {
    if n == 0 then [] else Insert(keys, OrderUpTo(keys, n - 1), n - 1)
  }

  function Order(keys: seq<int>): (order: seq<nat>)
    ensures IsOrder(keys, order)
  {
    OrderUpTo(keys, |keys|)
  }

  /** `best` are the `n` largest keys, largest first; among equal keys the earlier ones. */
  ghost predicate AreBest(keys: seq<int>, n: nat, best: seq<nat>) {
    && |best| == (if n <= |keys| then n else |keys|)
    && Ascends(keys, best)
    && forall i: nat, j :: i < |keys| && i !in best && 0 <= j < |best| ==> Before(keys, best[j], i)
  }

  function Best(keys: seq<int>, n: nat): seq<nat> {
    var order := Order(keys);
    if n <= |order| then order[..n] else order
  }

  lemma BestAreBest(keys: seq<int>, n: nat)
    ensures AreBest(keys, n, Best(keys, n))
  {
    var order, best := Order(keys), Best(keys, n);
    hide Order;
    assert forall k :: 0 <= k < |best| ==> best[k] == order[k] && best[k] in best;
    forall i: nat, j | i < |keys| && i !in best && 0 <= j < |best| ensures Before(keys, best[j], i) {
      assert i in order;
      var k :| 0 <= k < |order| && order[k] == i;
    }
  }

  /** An ordering has no repeated index. */
  lemma OrderDistinct(keys: seq<int>, order: seq<nat>, i: nat, j: nat)
    requires Ascends(keys, order) && i < j < |order|
    ensures order[i] != order[j]
  {
    assert Before(keys, order[i], order[j]);
  }

  /** There is only one stable ordering, so what `Order` returns is determined by its contract. */
  lemma {:induction false} OrderUnique(keys: seq<int>, a: seq<nat>, b: seq<nat>)
    requires |a| == |b| && Ascends(keys, a) && Ascends(keys, b)
    requires forall e: nat :: e in a <==> e in b
    ensures a == b
    decreases |a|
  {
    if a == [] {
    } else {
      assert a[0] in a && b[0] in b;
      HeadFirst(keys, a, b[0]);
      HeadFirst(keys, b, a[0]);
      forall e: nat ensures e in a[1..] <==> e in b[1..] {
        TailMembers(keys, a, e);
        TailMembers(keys, b, e);
      }
      OrderUnique(keys, a[1..], b[1..]);
      assert a == [a[0]] + a[1..] && b == [b[0]] + b[1..];
    }
  }

  lemma HeadFirst(keys: seq<int>, a: seq<nat>, e: nat)
    requires Ascends(keys, a) && e in a
    ensures e == a[0] || Before(keys, a[0], e)
  {
  }

  lemma TailMembers(keys: seq<int>, a: seq<nat>, e: nat)
    requires Ascends(keys, a) && a != []
    ensures e in a[1..] <==> e in a && e != a[0]
  {
    forall i | 1 <= i < |a| ensures a[i] != a[0] { OrderDistinct(keys, a, 0, i); }
    if e in a && e != a[0] {
      var i :| 0 <= i < |a| && a[i] == e;
      assert a[1..][i - 1] == e;
    }
  }
}
