/** Queries over a table: rows are kept in a map from row id to record, and
    every id in use lies below the table's next id. A filter is a predicate
    on records; counting and summing run over the ids below a bound. */
module Queries {

  /** Every row id of `m` lies below `n`. */
  ghost predicate KeysBelow<V>(m: map<nat, V>, n: nat)
  {
    forall k :: k in m ==> k < n
  }

  /** The number of rows with an id below `n` that pass the filter `p`
      (a `filter(...).count()`). */
  function CountWhere<V>(m: map<nat, V>, n: nat, p: V -> bool): (c: nat)
    ensures c <= n
  {
    if n == 0 then 0
    else CountWhere(m, n - 1, p) + (if n - 1 in m && p(m[n - 1]) then 1 else 0)
  }

  /** The sum of `f` over the rows with an id below `n` that pass `p`. */
  function SumWhere<V>(m: map<nat, V>, n: nat, p: V -> bool, f: V -> int): int
  {
    if n == 0 then 0
    else SumWhere(m, n - 1, p, f) + (if n - 1 in m && p(m[n - 1]) then f(m[n - 1]) else 0)
  }

  /** Below `n`, the two tables select the same row ids. */
  ghost predicate SameSelection<V>(m1: map<nat, V>, m2: map<nat, V>, n: nat, p: V -> bool)
  {
    forall k: nat :: k < n ==> ((k in m1 && p(m1[k])) <==> (k in m2 && p(m2[k])))
  }

  /** The rows of `m` that pass `keep`, unchanged: what a cascading delete leaves. */
  function RowsWhere<V>(m: map<nat, V>, keep: V -> bool): (kept: map<nat, V>)
    ensures forall k :: k in kept <==> k in m && keep(m[k])
    ensures forall k :: k in kept ==> kept[k] == m[k]
  {
    map k | k in m && keep(m[k]) :: m[k]
  }

  /** Tables that select the same ids have the same count. */
  lemma {:induction false} CountSameSelection<V>(m1: map<nat, V>, m2: map<nat, V>, n: nat, p: V -> bool)
    requires SameSelection(m1, m2, n, p)
    ensures CountWhere(m1, n, p) == CountWhere(m2, n, p)
  {
    if n > 0 {
      CountSameSelection(m1, m2, n - 1, p);
    }
  }

  /** Creating a row at the next id adds one to every filter it passes. */
  lemma CountAfterInsert<V>(m: map<nat, V>, n: nat, p: V -> bool, x: V)
    ensures CountWhere(m[n := x], n + 1, p) == CountWhere(m, n, p) + (if p(x) then 1 else 0)
  {
    CountSameSelection(m[n := x], m, n, p);
  }

  /** Replacing the row at id `k` moves it between filters and leaves the
      rest of the count alone. */
  lemma {:induction false} CountAfterUpdate<V>(m: map<nat, V>, n: nat, p: V -> bool, k: nat, x: V)
    requires k in m && k < n
    ensures CountWhere(m[k := x], n, p) + (if p(m[k]) then 1 else 0)
         == CountWhere(m, n, p) + (if p(x) then 1 else 0)
  {
    if k == n - 1 {
      CountSameSelection(m[k := x], m, n - 1, p);
    } else {
      CountAfterUpdate(m, n - 1, p, k, x);
    }
  }

  /** A filter no row below `n` passes counts 0. */
  lemma {:induction false} CountNone<V>(m: map<nat, V>, n: nat, p: V -> bool)
    requires forall k: nat :: k < n && k in m ==> !p(m[k])
    ensures CountWhere(m, n, p) == 0
  {
    if n > 0 {
      CountNone(m, n - 1, p);
    }
  }

  /** A filter some row below `n` passes counts at least 1. */
  lemma {:induction false} CountSome<V>(m: map<nat, V>, n: nat, p: V -> bool, k: nat)
    requires k < n && k in m && p(m[k])
    ensures CountWhere(m, n, p) >= 1
  {
    if k < n - 1 {
      CountSome(m, n - 1, p, k);
    }
  }

  /** A narrower filter counts no more rows. */
  lemma {:induction false} CountMonotone<V>(m: map<nat, V>, n: nat, p: V -> bool, q: V -> bool)
    requires forall v :: p(v) ==> q(v)
    ensures CountWhere(m, n, p) <= CountWhere(m, n, q)
  {
    if n > 0 {
      CountMonotone(m, n - 1, p, q);
    }
  }

  /** Two disjoint filters inside a third count together no more than it. */
  lemma {:induction false} CountDisjoint<V>(m: map<nat, V>, n: nat, p: V -> bool, q: V -> bool, r: V -> bool)
    requires forall v :: !(p(v) && q(v))
    requires forall v :: p(v) ==> r(v)
    requires forall v :: q(v) ==> r(v)
    ensures CountWhere(m, n, p) + CountWhere(m, n, q) <= CountWhere(m, n, r)
  {
    if n > 0 {
      CountDisjoint(m, n - 1, p, q, r);
    }
  }

  /** Widening a filter by rows on which `f` is 0 does not change the sum. */
  lemma {:induction false} SumIgnoresZeros<V>(m: map<nat, V>, n: nat, p: V -> bool, q: V -> bool, f: V -> int)
    requires forall v :: p(v) ==> q(v)
    requires forall v :: q(v) && !p(v) ==> f(v) == 0
    ensures SumWhere(m, n, p, f) == SumWhere(m, n, q, f)
  {
    if n > 0 {
      SumIgnoresZeros(m, n - 1, p, q, f);
    }
  }

  /** When every selected row contributes at least `c`, the sum is at least
      `c` times the count. */
  lemma {:induction false} SumAtLeast<V>(m: map<nat, V>, n: nat, p: V -> bool, f: V -> int, c: int)
    requires forall v :: p(v) ==> f(v) >= c
    ensures SumWhere(m, n, p, f) >= c * CountWhere(m, n, p)
  {
    if n > 0 {
      SumAtLeast(m, n - 1, p, f, c);
      var here := if n - 1 in m && p(m[n - 1]) then 1 else 0;
      assert c * (CountWhere(m, n - 1, p) + here) == c * CountWhere(m, n - 1, p) + c * here;
    }
  }
}
