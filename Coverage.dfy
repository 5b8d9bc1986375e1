/**
 * The coverage monitor: one counter per variant index, counting the accepted reads whose
 * index span [begin, end) contains that index.
 */
module Coverage {

  /** The largest counter in the half-open range [b, e). */
  function RangeMax(s: seq<nat>, b: nat, e: nat): (m: nat)
    requires b < e <= |s|
    ensures forall i :: b <= i < e ==> s[i] <= m
    ensures exists i :: b <= i < e && s[i] == m
    decreases e - b
  {
    if e == b + 1 then s[b]
    else
      var m' := RangeMax(s, b, e - 1);
      if s[e - 1] > m' then s[e - 1] else m'
  }

  /** The counters after one more read spanning [b, e). */
  function AddSpan(s: seq<nat>, b: nat, e: nat): (t: seq<nat>)
    ensures |t| == |s|
    ensures forall i :: 0 <= i < |s| ==> t[i] == if b <= i < e then s[i] + 1 else s[i]
  {
    seq(|s|, i requires 0 <= i < |s| => if b <= i < e then s[i] + 1 else s[i])
  }

  /** No counter exceeds the maximum coverage. */
  ghost predicate Capped(s: seq<nat>, maxCov: int) {
    forall i :: 0 <= i < |s| ==> s[i] <= maxCov
  }

  ghost predicate AtMost(s: seq<nat>, t: seq<nat>) {
    |s| == |t| && forall i :: 0 <= i < |s| ==> s[i] <= t[i]
  }

  /** Adding a read whose span is below the cap everywhere keeps every counter within the cap. */
  lemma AddSpanKeepsCap(s: seq<nat>, b: nat, e: nat, maxCov: int)
    requires b < e <= |s|
    requires Capped(s, maxCov) && RangeMax(s, b, e) < maxCov
    ensures Capped(AddSpan(s, b, e), maxCov)
  {
  }

  /** The range maximum only grows when the counters grow. */
  lemma RangeMaxMonotone(s: seq<nat>, t: seq<nat>, b: nat, e: nat)
    requires b < e <= |s| && AtMost(s, t)
    ensures RangeMax(s, b, e) <= RangeMax(t, b, e)
  {
    var i :| b <= i < e && s[i] == RangeMax(s, b, e);
    assert t[i] <= RangeMax(t, b, e);
  }

  class CovMonitor {
    const coverage: array<nat>

    ghost function Counts(): seq<nat>
      reads coverage
    {
      coverage[..]
    }

    constructor (n: nat)
      ensures fresh(coverage) && coverage.Length == n
      ensures forall i :: 0 <= i < n ==> coverage[i] == 0
    {
      coverage := new nat[n](i => 0);
    }

    method MaxCoverageInRange(b: nat, e: nat) returns (m: nat)
      requires b < e <= coverage.Length
      ensures m == RangeMax(coverage[..], b, e)
    {
      m := coverage[b];
      var i := b + 1;
      while i < e
        invariant b < i <= e
        invariant m == RangeMax(coverage[..], b, i)
      {
        if coverage[i] > m {
          m := coverage[i];
        }
        i := i + 1;
      }
    }

    method AddRead(b: nat, e: nat)
      requires b < e <= coverage.Length
      modifies coverage
      ensures coverage[..] == AddSpan(old(coverage[..]), b, e)
    {
      var i := b;
      while i < e
        invariant b <= i <= e
        invariant forall k :: 0 <= k < coverage.Length ==>
          coverage[k] == if b <= k < i then old(coverage[k]) + 1 else old(coverage[k])
      {
        coverage[i] := coverage[i] + 1;
        i := i + 1;
      }
    }
  }
}
