/** The weighted draw behind `predictNext`: StdRandom.discrete receives the
    probabilities freq[c] / total, draws u uniformly from [0, 1) and returns
    the first c whose cumulative probability exceeds u. In exact arithmetic
    that is the first c whose cumulative COUNT exceeds floor(u * total), so
    the model walks integer prefix sums of the frequency row. */
module Discrete {
  import opened Sums

  /** u * n, as n-fold addition; ScaledIsProduct relates it to the product. */
  function Scaled(u: real, n: nat): real
    decreases n
  {
    if n == 0 then 0.0 else Scaled(u, n - 1) + u
  }

  lemma {:induction false} ScaledIsProduct(u: real, n: nat)
    ensures Scaled(u, n) == u * n as real
  {
    if n > 0 {
      ScaledIsProduct(u, n - 1);
    }
  }

  lemma {:induction false} ScaledBounds(u: real, n: nat)
    requires 0.0 <= u < 1.0
    ensures 0.0 <= Scaled(u, n) && (n > 0 ==> Scaled(u, n) < n as real)
  {
    if n > 0 {
      ScaledBounds(u, n - 1);
    }
  }

  /** The integer part of x, searched upwards from r. */
  function Below(x: real, total: nat, r: nat): (f: nat)
    requires r as real <= x < total as real
    ensures r <= f < total && f as real <= x < (f + 1) as real
    decreases total - r
  {
    if x < (r + 1) as real then r else Below(x, total, r + 1)
  }

  /** The integer threshold that stands for the uniform value u: the integer
      part of u * total. */
  function Threshold(u: real, total: int): (r: int)
    requires 0.0 <= u < 1.0 && total > 0
    ensures 0 <= r < total
  {
    ScaledBounds(u, total);
    Below(Scaled(u, total), total, 0)
  }

  /** The threshold is the floor of u * total. */
  lemma ThresholdIsFloor(u: real, total: int)
    requires 0.0 <= u < 1.0 && total > 0
    ensures Threshold(u, total) as real <= u * total as real < (Threshold(u, total) + 1) as real
  {
    ScaledBounds(u, total);
    ScaledIsProduct(u, total);
  }

  /** Comparing a cumulative probability with u, as the library does, agrees
      with comparing the cumulative count with the integer threshold. */
  lemma ThresholdAgrees(u: real, total: int, cumulative: int)
    requires 0.0 <= u < 1.0 && total > 0
    ensures (cumulative as real) / (total as real) > u <==> cumulative > Threshold(u, total)
  {
    ThresholdIsFloor(u, total);
    var t := total as real;
    var x := u * t;
    var p := (cumulative as real) / t;
    assert p * t == cumulative as real;
    if p > u {
      assert p * t > u * t;
    } else {
      assert p * t <= u * t;
    }
  }

  /** Continue the cumulative walk at slot i: the result is the slot whose
      cumulative interval [Sum(v[..c]), Sum(v[..c+1])) holds r. */
  function PickFrom(v: seq<int>, r: int, i: nat): (c: nat)
    requires NonNegative(v) && i < |v| && Sum(v[..i]) <= r < Sum(v)
    ensures i <= c < |v| && Sum(v[..c]) <= r < Sum(v[..c + 1])
    decreases |v| - i
  {
    if r < Sum(v[..i + 1]) then i
    else
      assert v[..|v|] == v;
      PickFrom(v, r, i + 1)
  }

  /** The slot a draw r in [0, Sum(v)) selects; it always has a positive count. */
  function Pick(v: seq<int>, r: int): (c: nat)
    requires NonNegative(v) && 0 <= r < Sum(v)
    ensures c < |v| && v[c] > 0
    ensures Sum(v[..c]) <= r < Sum(v[..c]) + v[c]
  {
    assert v[..0] == [];
    var c := PickFrom(v, r, 0);
    PrefixStep(v, c);
    c
  }

  /** A draw selects slot c exactly when it falls in c's cumulative interval. */
  lemma PickExactly(v: seq<int>, r: int, c: nat)
    requires NonNegative(v) && 0 <= r < Sum(v) && c < |v|
    ensures Pick(v, r) == c <==> Sum(v[..c]) <= r < Sum(v[..c]) + v[c]
  {
    var p := Pick(v, r);
    if p != c && Sum(v[..c]) <= r < Sum(v[..c]) + v[c] {
      PrefixStep(v, c);
      PrefixStep(v, p);
      if p < c {
        PrefixMonotone(v, p + 1, c);
      } else {
        PrefixMonotone(v, c + 1, p);
      }
    }
  }

  /** The integers lo, lo + 1, ..., hi - 1. */
  function Interval(lo: int, hi: int): (s: set<int>)
    ensures forall r :: r in s <==> lo <= r < hi
    ensures lo <= hi ==> |s| == hi - lo
    decreases hi - lo
  {
    if hi <= lo then {} else Interval(lo, hi - 1) + {hi - 1}
  }

  /** The draw is proportional: of the Sum(v) equally likely draws, exactly
      v[c] select slot c. */
  lemma PickProportional(v: seq<int>, c: nat)
    requires NonNegative(v) && c < |v|
    ensures |set r | 0 <= r < Sum(v) && Pick(v, r) == c| == v[c]
  {
    var lo := Sum(v[..c]);
    ElementBelowSum(v, c);
    PrefixStep(v, c);
    PrefixMonotone(v, 0, c);
    PrefixMonotone(v, c + 1, |v|);
    assert v[..0] == [] && v[..|v|] == v;
    forall r | 0 <= r < Sum(v)
      ensures Pick(v, r) == c <==> lo <= r < lo + v[c]
    {
      PickExactly(v, r, c);
    }
    assert (set r | 0 <= r < Sum(v) && Pick(v, r) == c) == Interval(lo, lo + v[c]);
  }
}
