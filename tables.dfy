/**
 * Generic queries over a table, i.e. a map from record id to record. Every
 * query walks the ids below a bound n; the store keeps every id below its
 * table's counter, so with n the counter a query sees the whole table.
 */
module Tables {
  import opened Wrappers

  /** The sum of f over the records whose id is below n (SQL SUM over a filtered table). */
  function SumBelow<T>(m: map<nat, T>, n: nat, f: T -> int): int
  {
    if n == 0 then 0 else SumBelow(m, n - 1, f) + (if n - 1 in m then f(m[n - 1]) else 0)
  }

  /** The sum only depends on the records below the bound. */
  lemma {:induction false} SumBelowFrame<T>(m: map<nat, T>, m': map<nat, T>, n: nat, f: T -> int)
    requires forall k :: k < n ==> (k in m <==> k in m')
    requires forall k :: k < n && k in m && k in m' ==> f(m[k]) == f(m'[k])
    ensures SumBelow(m, n, f) == SumBelow(m', n, f)
  {
    if n > 0 {
      SumBelowFrame(m, m', n - 1, f);
    }
  }

  /** A sum of terms that are never negative is not negative, and a sum of zero terms is zero. */
  lemma {:induction false} SumBelowSign<T>(m: map<nat, T>, n: nat, f: T -> int)
    ensures (forall k :: k < n && k in m ==> f(m[k]) >= 0) ==> SumBelow(m, n, f) >= 0
    ensures (forall k :: k < n && k in m ==> f(m[k]) == 0) ==> SumBelow(m, n, f) == 0
  {
    if n > 0 {
      SumBelowSign(m, n - 1, f);
    }
  }

  /** Storing t under id k below the bound replaces k's old term of the sum by f(t). */
  lemma {:induction false} SumBelowUpdate<T>(m: map<nat, T>, n: nat, f: T -> int, k: nat, t: T)
    requires k < n
    ensures SumBelow(m[k := t], n, f) == SumBelow(m, n, f) - (if k in m then f(m[k]) else 0) + f(t)
  {
    if n - 1 == k {
      SumBelowFrame(m[k := t], m, k, f);
    } else {
      SumBelowUpdate(m, n - 1, f, k, t);
    }
  }

  /** The id of a record below n that satisfies p, if there is one (query.filter_by(...).one()). */
  function FindBelow<T>(m: map<nat, T>, n: nat, p: T -> bool): (r: Option<nat>)
    ensures r.Some? ==> r.value < n && r.value in m && p(m[r.value])
    ensures r.None? ==> forall k :: k < n && k in m ==> !p(m[k])
  {
    if n == 0 then None
    else if n - 1 in m && p(m[n - 1]) then Some(n - 1)
    else FindBelow(m, n - 1, p)
  }

  /** The ids below n whose records satisfy p, in increasing order (query.filter(...).all()). */
  function SelectBelow<T>(m: map<nat, T>, n: nat, p: T -> bool): (r: seq<nat>)
    ensures forall k :: k in r <==> k < n && k in m && p(m[k])
    ensures forall i, j :: 0 <= i < j < |r| ==> r[i] < r[j]
  {
    if n == 0 then []
    else
      var rest := SelectBelow(m, n - 1, p);
      assert forall i :: 0 <= i < |rest| ==> rest[i] < n - 1 by {
        forall i | 0 <= i < |rest| ensures rest[i] < n - 1 {
          assert rest[i] in rest;
        }
      }
      rest + (if n - 1 in m && p(m[n - 1]) then [n - 1] else [])
  }
}
