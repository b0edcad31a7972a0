/** Sums over the two kinds of tables the model keeps: a 128-slot frequency
    row (a sequence of counts) and a map from k-gram to count. */
module Sums {

  /** Sum of a row of counts, added up from the front. */
  function Sum(s: seq<int>): int
    decreases |s|
  {
    if s == [] then 0 else Sum(s[..|s| - 1]) + s[|s| - 1]
  }

  /** A row of n zero counts: the array `new int[ASCII]` starts out like this. */
  function Zeros(n: nat): (z: seq<int>)
    ensures |z| == n && forall i | 0 <= i < n :: z[i] == 0
  {
    seq(n, _ => 0)
  }

  predicate NonNegative(s: seq<int>) {
    forall i | 0 <= i < |s| :: s[i] >= 0
  }

  lemma {:induction false} SumZeros(n: nat)
    ensures Sum(Zeros(n)) == 0
  {
    if n > 0 {
      assert Zeros(n)[..n - 1] == Zeros(n - 1);
      SumZeros(n - 1);
    }
  }

  /** Extending a prefix by one element adds that element to the sum. */
  lemma PrefixStep(s: seq<int>, i: nat)
    requires i < |s|
    ensures Sum(s[..i + 1]) == Sum(s[..i]) + s[i]
  {
    assert s[..i + 1][..i] == s[..i];
  }

  /** Incrementing one slot of a row raises its sum by exactly one. */
  lemma {:induction false} SumIncrement(s: seq<int>, c: nat)
    requires c < |s|
    ensures Sum(s[c := s[c] + 1]) == Sum(s) + 1
  {
    var t := s[c := s[c] + 1];
    var n := |s| - 1;
    if c == n {
      assert t[..n] == s[..n];
    } else {
      assert t[..n] == s[..n][c := s[c] + 1];
      SumIncrement(s[..n], c);
    }
  }

  /** Prefix sums of a non-negative row never decrease. */
  lemma {:induction false} PrefixMonotone(s: seq<int>, i: nat, j: nat)
    requires NonNegative(s) && i <= j <= |s|
    ensures Sum(s[..i]) <= Sum(s[..j])
    decreases j - i
  {
    if i < j {
      PrefixStep(s, j - 1);
      PrefixMonotone(s, i, j - 1);
    }
  }

  /** In a non-negative row no slot exceeds the total. */
  lemma ElementBelowSum(s: seq<int>, c: nat)
    requires NonNegative(s) && c < |s|
    ensures 0 <= s[c] <= Sum(s)
  {
    assert s[..|s|] == s;
    PrefixStep(s, c);
    PrefixMonotone(s, 0, c);
    PrefixMonotone(s, c + 1, |s|);
  }

  /** Some key of a non-empty map; which one does not matter (SumValuesRemove). */
  ghost function AnyKey<K>(m: map<K, int>): (key: K)
    requires |m.Keys| > 0
    ensures key in m
  {
    var key :| key in m; key
  }

  /** Sum of the values of a map; the order of summation does not matter
      (SumValuesRemove). */
  ghost function SumValues<K>(m: map<K, int>): int
    decreases |m.Keys|
  {
    if |m.Keys| == 0 then 0
    else
      var key := AnyKey(m);
      assert (m - {key}).Keys == m.Keys - {key};
      m[key] + SumValues(m - {key})
  }

  lemma {:induction false} SumValuesRemove<K>(m: map<K, int>, key: K)
    requires key in m
    ensures SumValues(m) == m[key] + SumValues(m - {key})
    decreases |m.Keys|
  {
    var chosen := AnyKey(m);
    if chosen != key {
      var withoutChosen, withoutKey := m - {chosen}, m - {key};
      assert withoutChosen.Keys == m.Keys - {chosen};
      assert withoutKey.Keys == m.Keys - {key};
      assert key in withoutChosen && chosen in withoutKey;
      var both := withoutKey - {chosen};
      assert both == withoutChosen - {key};
      SumValuesRemove(withoutChosen, key);
      assert withoutChosen[key] == m[key];
      SumValuesRemove(withoutKey, chosen);
      assert withoutKey[chosen] == m[chosen];
    }
  }

  /** Counting one more occurrence of `key` (inserting it with count 1 when
      absent) raises the total by exactly one. */
  lemma SumValuesIncrement<K>(m: map<K, int>, key: K)
    ensures SumValues(m[key := (if key in m then m[key] else 0) + 1]) == SumValues(m) + 1
  {
    var m' := m[key := (if key in m then m[key] else 0) + 1];
    SumValuesRemove(m', key);
    if key in m {
      SumValuesRemove(m, key);
      assert m' - {key} == m - {key};
    } else {
      assert m' - {key} == m;
    }
  }
}
