/** The order `Arrays.sort` puts the k-grams in: String.compareTo, which
    compares character by character and ranks a proper prefix first. */
module LexOrder {

  /** The length of the longest common prefix of a and b. */
  function Agree(a: string, b: string): (n: nat)
    ensures n <= |a| && n <= |b|
    ensures a[..n] == b[..n]
    ensures n < |a| && n < |b| ==> a[n] != b[n]
    decreases |a|
  {
    if |a| > 0 && |b| > 0 && a[0] == b[0] then
      var rest := Agree(a[1..], b[1..]);
      assert a[..rest + 1] == [a[0]] + a[1..][..rest];
      assert b[..rest + 1] == [b[0]] + b[1..][..rest];
      rest + 1
    else 0
  }

  /** String.compareTo: the difference of the first pair of characters
      that differ, or else of the lengths. */
  function CompareTo(a: string, b: string): int {
    var n := Agree(a, b);
    if n < |a| && n < |b| then a[n] as int - b[n] as int else |a| - |b|
  }

  /** a comes strictly before b. */
  predicate Less(a: string, b: string)
    decreases |a|
  {
    |b| > 0 && (|a| == 0 || a[0] < b[0] || (a[0] == b[0] && Less(a[1..], b[1..])))
  }

  /** a comes strictly before b exactly when a.compareTo(b) is negative. */
  lemma {:induction false} LessIsCompareTo(a: string, b: string)
    ensures Less(a, b) <==> CompareTo(a, b) < 0
    decreases |a|
  {
    if |a| > 0 && |b| > 0 && a[0] == b[0] {
      LessIsCompareTo(a[1..], b[1..]);
    }
  }

  lemma {:induction false} LessIrreflexive(a: string)
    ensures !Less(a, a)
    decreases |a|
  {
    if |a| > 0 {
      LessIrreflexive(a[1..]);
    }
  }

  lemma {:induction false} LessTransitive(a: string, b: string, c: string)
    requires Less(a, b) && Less(b, c)
    ensures Less(a, c)
    decreases |a|
  {
    if |a| > 0 && a[0] == b[0] == c[0] {
      LessTransitive(a[1..], b[1..], c[1..]);
    }
  }

  /** Two different strings are always ordered one way or the other. */
  lemma {:induction false} LessTotal(a: string, b: string)
    requires a != b
    ensures Less(a, b) || Less(b, a)
    decreases |a|
  {
    if |a| > 0 && |b| > 0 && a[0] == b[0] {
      assert a == [a[0]] + a[1..] && b == [b[0]] + b[1..];
      LessTotal(a[1..], b[1..]);
    }
  }

  /** Strictly ascending, hence also free of repeats. */
  predicate Sorted(s: seq<string>) {
    forall i, j | 0 <= i < j < |s| :: Less(s[i], s[j])
  }

  predicate Distinct(s: seq<string>) {
    forall i, j | 0 <= i < j < |s| :: s[i] != s[j]
  }

  /** The first element of an ascending sequence comes before every other. */
  lemma FirstLeast(a: seq<string>, x: string)
    requires Sorted(a) && |a| > 0 && x in a && x != a[0]
    ensures Less(a[0], x)
  {
  }

  /** Two ascending sequences with the same elements are the same sequence,
      so the order in which the elements were gathered does not matter. */
  lemma {:induction false} SortedUnique(a: seq<string>, b: seq<string>)
    requires Sorted(a) && Sorted(b)
    requires forall x :: x in a <==> x in b
    ensures a == b
    decreases |a|
  {
    assert |a| > 0 ==> a[0] in b;
    assert |b| > 0 ==> b[0] in a;
    if |a| > 0 {
      assert a[0] == b[0] by {
        if a[0] != b[0] {
          FirstLeast(a, b[0]);
          FirstLeast(b, a[0]);
          LessTransitive(a[0], b[0], a[0]);
          LessIrreflexive(a[0]);
        }
      }
      forall x
        ensures x in a[1..] <==> x in b[1..]
      {
        if x in a[1..] {
          LessIrreflexive(a[0]);
        }
        if x in b[1..] {
          LessIrreflexive(b[0]);
        }
        assert x in a <==> x == a[0] || x in a[1..];
        assert x in b <==> x == b[0] || x in b[1..];
      }
      SortedUnique(a[1..], b[1..]);
      assert a == [a[0]] + a[1..] && b == [b[0]] + b[1..];
    }
  }

  method Swap(a: array<string>, i: int, j: int)
    requires 0 <= i < j < a.Length && Distinct(a[..])
    modifies a
    ensures a[i] == old(a[j]) && a[j] == old(a[i])
    ensures forall m | 0 <= m < a.Length && m != i && m != j :: a[m] == old(a[m])
    ensures multiset(a[..]) == old(multiset(a[..]))
    ensures Distinct(a[..])
  {
    a[i], a[j] := a[j], a[i];
    assert forall m | 0 <= m < a.Length && m != i && m != j :: a[..][m] == old(a[..][m]);
  }

  /** s[lo..hi] is strictly ascending. */
  predicate AscendingIn(s: seq<string>, lo: nat, hi: nat)
    requires lo <= hi <= |s|
  {
    forall x, y | lo <= x < y < hi :: Less(s[x], s[y])
  }

  /** Sorts an array of distinct strings in place (insertion sort); the result
      is strictly ascending and a permutation of the input. */
  method Sort(a: array<string>)
    requires Distinct(a[..])
    modifies a
    ensures Sorted(a[..])
    ensures multiset(a[..]) == old(multiset(a[..]))
  {
    var i := 0;
    while i < a.Length
      invariant 0 <= i <= a.Length
      invariant Distinct(a[..])
      invariant AscendingIn(a[..], 0, i)
      invariant multiset(a[..]) == old(multiset(a[..]))
    {
      Insert(a, i);
      i := i + 1;
    }
  }

  /** The state of Insert's loop: the element at j is on its way down;
      everything is ascending except possibly s[j - 1] against s[j]. */
  predicate Sinking(s: seq<string>, i: nat, j: nat)
    requires j <= i < |s|
  {
    AscendingIn(s, 0, j) && AscendingIn(s, j + 1, i + 1) &&
    (forall x, y | 0 <= x < j < y <= i :: Less(s[x], s[y])) &&
    (forall y | j < y <= i :: Less(s[j], s[y]))
  }

  /** Swapping a sinking element with a larger predecessor moves it one
      place down. */
  lemma SwapDown(s: seq<string>, t: seq<string>, i: nat, j: nat)
    requires 0 < j <= i < |s| == |t| && Sinking(s, i, j) && Less(s[j], s[j - 1])
    requires t[j - 1] == s[j] && t[j] == s[j - 1]
    requires forall m | 0 <= m < |s| && m != j - 1 && m != j :: t[m] == s[m]
    ensures Sinking(t, i, j - 1)
  {
  }

  /** Where the loop of Insert stops, the element at j is in place: it
      comes after everything before it and before everything after it. */
  lemma InsertedInPlace(s: seq<string>, i: nat, j: nat)
    requires j <= i < |s| && Distinct(s) && Sinking(s, i, j)
    requires j > 0 ==> !Less(s[j], s[j - 1])
    ensures AscendingIn(s, 0, i + 1)
  {
    if j > 0 {
      LessTotal(s[j], s[j - 1]);
      forall x | 0 <= x < j - 1
        ensures Less(s[x], s[j])
      {
        LessTransitive(s[x], s[j - 1], s[j]);
      }
    }
  }

  /** Moves a[i] down into the ascending prefix a[..i], so that a[..i+1] is
      ascending. */
  method Insert(a: array<string>, i: nat)
    requires i < a.Length && Distinct(a[..]) && AscendingIn(a[..], 0, i)
    modifies a
    ensures Distinct(a[..]) && AscendingIn(a[..], 0, i + 1)
    ensures multiset(a[..]) == old(multiset(a[..]))
  {
    var j := i;
    while j > 0 && Less(a[j], a[j - 1])
      invariant 0 <= j <= i < a.Length
      invariant Distinct(a[..]) && Sinking(a[..], i, j)
      invariant multiset(a[..]) == old(multiset(a[..]))
    {
      ghost var before := a[..];
      Swap(a, j - 1, j);
      SwapDown(before, a[..], i, j);
      j := j - 1;
    }
    InsertedInPlace(a[..], i, j);
  }
}
