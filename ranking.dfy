/**
 * ORDER BY score DESC LIMIT n over a list of record ids. The order among
 * ids with equal scores is left open by SQL; this model keeps one of the
 * admissible orders and its contract states only what every such order has.
 */
module Ranking {
  import opened Wrappers

  /** The ids appear by non-increasing score. */
  predicate NonIncreasing(s: seq<nat>, score: nat -> int)
  {
    forall i, j :: 0 <= i < j < |s| ==> score(s[i]) >= score(s[j])
  }

  /** No id occurs twice. */
  predicate Distinct(s: seq<nat>)
  {
    forall i, j :: 0 <= i < j < |s| ==> s[i] != s[j]
  }

  /** A list has no repeated id exactly when no id occurs in it more than once as a multiset. */
  lemma {:induction false} DistinctMultiplicity(s: seq<nat>)
    ensures Distinct(s) <==> forall x :: multiset(s)[x] <= 1
  {
    if s != [] {
      var h, t := s[0], s[1..];
      assert s == [h] + t;
      DistinctMultiplicity(t);
      if Distinct(s) {
        assert h !in t;
        assert Distinct(t) by {
          forall i, j | 0 <= i < j < |t| ensures t[i] != t[j] {
            assert s[i + 1] != s[j + 1];
          }
        }
      }
      if forall x :: multiset(s)[x] <= 1 {
        assert multiset(s)[h] == multiset(t)[h] + 1;
        assert h !in t;
        assert forall x :: multiset(t)[x] <= multiset(s)[x];
        forall i, j | 0 <= i < j < |s| ensures s[i] != s[j] {
          if i == 0 {
            assert s[j] == t[j - 1] && t[j - 1] in t;
          } else {
            assert s[i] == t[i - 1] && s[j] == t[j - 1];
          }
        }
      }
    }
  }

  /** A sub-multiset of a list without repeats has no repeats either. */
  lemma SubMultisetDistinct(r: seq<nat>, s: seq<nat>)
    requires Distinct(s)
    requires multiset(r) <= multiset(s)
    ensures Distinct(r)
  {
    DistinctMultiplicity(s);
    DistinctMultiplicity(r);
    assert forall x :: multiset(r)[x] <= multiset(s)[x];
  }

  /** Places x into a list already ordered by non-increasing score. */
  function InsertByScore(x: nat, s: seq<nat>, score: nat -> int): (r: seq<nat>)
    requires NonIncreasing(s, score)
    ensures NonIncreasing(r, score)
    ensures multiset(r) == multiset(s) + multiset{x}
    ensures forall y :: y in r <==> y == x || y in s
  {
    if s == [] || score(x) >= score(s[0]) then [x] + s
    else
      var rest := InsertByScore(x, s[1..], score);
      assert s == [s[0]] + s[1..];
      ConsNonIncreasing(s[0], rest, score);
      [s[0]] + rest
  }

  /** Prefixing a list by an id that scores at least as high as all of it keeps the order. */
  lemma ConsNonIncreasing(h: nat, s: seq<nat>, score: nat -> int)
    requires NonIncreasing(s, score)
    requires forall y :: y in s ==> score(h) >= score(y)
    ensures NonIncreasing([h] + s, score)
  {
  }

  /** Orders ids by non-increasing score, keeping every id. */
  function SortByScore(s: seq<nat>, score: nat -> int): (r: seq<nat>)
    ensures NonIncreasing(r, score)
    ensures multiset(r) == multiset(s)
  {
    if s == [] then []
    else
      assert s == [s[0]] + s[1..];
      InsertByScore(s[0], SortByScore(s[1..], score), score)
  }

  /** Every id of a non-increasing list beyond its first k scores at most as high as each of the first k. */
  lemma PrefixDominates(sorted: seq<nat>, k: nat, score: nat -> int)
    requires NonIncreasing(sorted, score)
    requires k <= |sorted|
    ensures forall x :: x in sorted && x !in sorted[..k] ==> forall y :: y in sorted[..k] ==> score(y) >= score(x)
  {
  }

  /** The first k ids of a permutation of s sorted by score have the properties of a top-k query. */
  lemma TakeTop(s: seq<nat>, sorted: seq<nat>, k: nat, score: nat -> int)
    requires NonIncreasing(sorted, score)
    requires multiset(sorted) == multiset(s)
    requires k <= |s|
    ensures |sorted| == |s|
    ensures NonIncreasing(sorted[..k], score)
    ensures multiset(sorted[..k]) <= multiset(s)
    ensures forall x :: x in s && x !in sorted[..k] ==> forall y :: y in sorted[..k] ==> score(y) >= score(x)
    ensures Distinct(s) ==> Distinct(sorted[..k])
    ensures k == |s| ==> multiset(sorted[..k]) == multiset(s)
  {
    assert |sorted| == |multiset(sorted)| == |s|;
    assert sorted == sorted[..k] + sorted[k..];
    assert forall x :: x in s ==> x in multiset(sorted);
    PrefixDominates(sorted, k, score);
    if Distinct(s) {
      SubMultisetDistinct(sorted[..k], s);
    }
  }

  /**
   * The first `limit` ids by score (all of them when limit is None). Ties
   * at the cut may be broken either way, but nothing left out scores
   * higher than anything kept.
   */
  function TopByScore(s: seq<nat>, score: nat -> int, limit: Option<nat>): (r: seq<nat>)
    ensures |r| == if limit.Some? && limit.value < |s| then limit.value else |s|
    ensures NonIncreasing(r, score)
    ensures multiset(r) <= multiset(s)
    ensures forall x :: x in s && x !in r ==> forall y :: y in r ==> score(y) >= score(x)
    ensures Distinct(s) ==> Distinct(r)
    ensures limit.None? || limit.value >= |s| ==> multiset(r) == multiset(s)
  {
    var sorted := SortByScore(s, score);
    var k := if limit.Some? && limit.value < |s| then limit.value else |s|;
    TakeTop(s, sorted, k, score);
    sorted[..k]
  }
}
