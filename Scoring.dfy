/**
 * The score of a read: `_compute_score_for_read` builds the tuple (good - bad, good - bad,
 * minimal quality) and `_update_score_for_reads` lowers its first component.
 */
module Scoring {
  import opened Reads
  import opened Indexing
  import opened PriorityQueues

  /** The quality a read is credited with before any of its variants is looked at. */
  const QualityCeiling := 1000

  /** `covered_SNPS`: the indices of the read's variants that the index map knows, in read order. */
  function CoveredIndices(read: Read, vcf: map<int, nat>): (c: seq<nat>)
    ensures |c| <= |read|
    ensures (forall k :: 0 <= k < |read| ==> read[k].position in vcf) ==>
      |c| == |read| && forall k :: 0 <= k < |read| ==> c[k] == vcf[read[k].position]
  {
    if read == [] then []
    else
      var init := read[..|read| - 1];
      var last := read[|read| - 1];
      assert forall k :: 0 <= k < |init| ==> init[k] == read[k];
      CoveredIndices(init, vcf) + (if last.position in vcf then [vcf[last.position]] else [])
  }

  /** `min_quality`: the smallest variant quality of the read, never above the ceiling. */
  function MinQuality(read: Read): (q: int)
    ensures q <= QualityCeiling
    ensures forall k :: 0 <= k < |read| ==> q <= read[k].quality
    ensures q == QualityCeiling || exists k :: 0 <= k < |read| && read[k].quality == q
  {
    if read == [] then QualityCeiling
    else
      var init := read[..|read| - 1];
      var last := read[|read| - 1];
      var q' := MinQuality(init);
      assert forall k :: 0 <= k < |init| ==> init[k] == read[k];
      if last.quality < q' then last.quality else q'
  }

  /** `bad_score`: the length of the index span [c[0], c[|c| - 1]] minus the number of indices. */
  function Gap(c: seq<int>): int
    requires c != []
  {
    var span := c[|c| - 1] - c[0] + 1;
    if |c| != span then span - |c| else 0
  }

  /** `_compute_score_for_read`; the source fails on a read none of whose positions is indexed. */
  function ComputeScore(read: Read, vcf: map<int, nat>): (r: Score)
    requires CoveredIndices(read, vcf) != []
    ensures r.first == r.second
    ensures r.quality <= QualityCeiling
    ensures forall k :: 0 <= k < |read| ==> r.quality <= read[k].quality
    ensures r.quality == QualityCeiling || exists k :: 0 <= k < |read| && read[k].quality == r.quality
  {
    var c := CoveredIndices(read, vcf);
    var good := |c|;
    var bad := Gap(c);
    Score(good - bad, good - bad, MinQuality(read))
  }

  /** The integers in [a, b). */
  function Interval(a: int, b: int): (r: set<int>)
    ensures forall x :: x in r <==> a <= x < b
    decreases b - a
  {
    if b <= a then {} else Interval(a, b - 1) + {b - 1}
  }

  /** The indices inside the span of `c` that `c` skips. */
  function Missing(c: seq<int>): set<int>
    requires c != []
  {
    Interval(c[0], c[|c| - 1] + 1) - Elems(c)
  }

  ghost predicate Contiguous(c: seq<int>) {
    forall k :: 0 <= k < |c| ==> c[k] == c[0] + k
  }

  lemma {:induction false} IntervalCard(a: int, b: int)
    requires a <= b
    ensures |Interval(a, b)| == b - a
    decreases b - a
  {
    if a < b {
      IntervalCard(a, b - 1);
      assert b - 1 !in Interval(a, b - 1);
    }
  }

  lemma {:induction false} DistinctCard(c: seq<int>)
    requires StrictlyIncreasing(c)
    ensures |Elems(c)| == |c|
    decreases |c|
  {
    if c != [] {
      var init := c[..|c| - 1];
      DistinctCard(init);
      assert c == init + [c[|c| - 1]];
      assert Elems(c) == Elems(init) + {c[|c| - 1]};
      forall k | 0 <= k < |init| ensures init[k] != c[|c| - 1] {
        assert init[k] == c[k] < c[|c| - 1];
      }
    }
  }

  /** In a strictly increasing sequence of integers, entries are at least as far apart as their places. */
  lemma {:induction false} IncreasingDistance(c: seq<int>, i: nat, j: nat)
    requires StrictlyIncreasing(c) && i <= j < |c|
    ensures c[j] - c[i] >= j - i
    decreases j - i
  {
    if i < j {
      IncreasingDistance(c, i, j - 1);
    }
  }

  /** The gap counts exactly the skipped indices of the span, and so is never negative. */
  lemma GapIsMissing(c: seq<int>)
    requires c != [] && StrictlyIncreasing(c)
    ensures Gap(c) == |Missing(c)|
    ensures Gap(c) >= 0
  {
    var last := c[|c| - 1];
    IncreasingDistance(c, 0, |c| - 1);
    IntervalCard(c[0], last + 1);
    DistinctCard(c);
    forall x | x in Elems(c) ensures x in Interval(c[0], last + 1) {
      var k :| 0 <= k < |c| && c[k] == x;
      assert k == 0 || c[0] < c[k];
      assert k == |c| - 1 || c[k] < last;
    }
    var I := Interval(c[0], last + 1);
    assert I == Missing(c) + Elems(c);
    assert Missing(c) * Elems(c) == {};
  }

  /** The gap is zero exactly when the read's indices are consecutive. */
  lemma GapZeroIffContiguous(c: seq<int>)
    requires c != [] && StrictlyIncreasing(c)
    ensures Gap(c) == 0 <==> Contiguous(c)
  {
    var n := |c|;
    if Gap(c) == 0 {
      forall k | 0 <= k < n ensures c[k] == c[0] + k {
        IncreasingDistance(c, 0, k);
        IncreasingDistance(c, k, n - 1);
      }
    }
  }

  /**
   * For a read of the read set, all of whose positions are indexed: the covered indices are
   * the read's own indices in increasing order, the score is the number of variants minus the
   * number of indices the read skips inside its span, and it never exceeds the read's length.
   */
  lemma ScoreOfIndexedRead(read: Read, positions: seq<int>, vcf: map<int, nat>)
    requires Indexes(positions, vcf)
    requires read != [] && StrictlyIncreasing(Positions(read))
    requires PositionSet(read) <= vcf.Keys
    ensures var c := CoveredIndices(read, vcf);
      |c| == |read| && StrictlyIncreasing(c) &&
      ComputeScore(read, vcf).first == |read| - |Missing(c)| &&
      ComputeScore(read, vcf).first <= |read| &&
      (ComputeScore(read, vcf).first == |read| <==> Contiguous(c))
  {
    forall k | 0 <= k < |read| ensures read[k].position in vcf {
      assert read[k] in read;
    }
    var c := CoveredIndices(read, vcf);
    forall i, j | 0 <= i < j < |c| ensures c[i] < c[j] {
      assert Positions(read)[i] < Positions(read)[j];
      IndexMonotone(positions, vcf, read[i].position, read[j].position);
    }
    GapIsMissing(c);
    GapZeroIffContiguous(c);
  }

  /** The number of the read's variants whose position is not in `s`. */
  function CountOutside(read: Read, s: set<int>): nat {
    if read == [] then 0
    else CountOutside(read[..|read| - 1], s) + (if read[|read| - 1].position in s then 0 else 1)
  }

  lemma {:induction false} CountOutsideCard(read: Read, s: set<int>)
    requires StrictlyIncreasing(Positions(read))
    ensures CountOutside(read, s) == |PositionSet(read) - s|
    decreases |read|
  {
    if read != [] {
      var j := |read| - 1;
      var init := read[..j];
      assert Positions(init) == Positions(read)[..j];
      CountOutsideCard(init, s);
      PositionSetSnoc(read, j);
      PositionNotEarlier(read, j);
      assert read[..j + 1] == read;
      SnocOutside(PositionSet(init), PositionSet(read), read[j].position, s);
    }
  }

  lemma SnocOutside(before: set<int>, after: set<int>, p: int, s: set<int>)
    requires after == before + {p} && p !in before
    ensures |after - s| == |before - s| + (if p in s then 0 else 1)
  {
    if p in s {
      assert after - s == before - s;
    } else {
      assert after - s == (before - s) + {p};
    }
  }

  /**
   * `_update_score_for_reads`, as written: the first component drops by one for every variant
   * of the read whose position is NOT in `covered`; the other two components are kept.
   */
  function UpdateScore(former: Score, read: Read, covered: set<int>): (r: Score)
    ensures r.second == former.second && r.quality == former.quality
    ensures r.first <= former.first
    ensures StrictlyIncreasing(Positions(read)) ==> r.first == former.first - |PositionSet(read) - covered|
  {
    assert StrictlyIncreasing(Positions(read)) ==> CountOutside(read, covered) == |PositionSet(read) - covered| by {
      if StrictlyIncreasing(Positions(read)) {
        CountOutsideCard(read, covered);
      }
    }
    Score(former.first - CountOutside(read, covered), former.second, former.quality)
  }

  /** The number of the read's variants whose position is in `s`. */
  function CountInside(read: Read, s: set<int>): nat {
    if read == [] then 0
    else CountInside(read[..|read| - 1], s) + (if read[|read| - 1].position in s then 1 else 0)
  }

  /** Every variant is counted either inside `s` or outside it. */
  lemma {:induction false} CountSplit(read: Read, s: set<int>)
    ensures CountInside(read, s) + CountOutside(read, s) == |read|
    decreases |read|
  {
    if read != [] {
      CountSplit(read[..|read| - 1], s);
    }
  }

  lemma {:induction false} CountInsideCard(read: Read, s: set<int>)
    requires StrictlyIncreasing(Positions(read))
    ensures CountInside(read, s) == |PositionSet(read) * s|
    decreases |read|
  {
    if read != [] {
      var j := |read| - 1;
      var init := read[..j];
      assert Positions(init) == Positions(read)[..j];
      CountInsideCard(init, s);
      PositionSetSnoc(read, j);
      PositionNotEarlier(read, j);
      assert read[..j + 1] == read;
      SnocInside(PositionSet(init), PositionSet(read), read[j].position, s);
    }
  }

  lemma SnocInside(before: set<int>, after: set<int>, p: int, s: set<int>)
    requires after == before + {p} && p !in before
    ensures |after * s| == |before * s| + (if p in s then 1 else 0)
  {
    if p in s {
      assert after * s == (before * s) + {p};
    } else {
      assert after * s == before * s;
    }
  }

  /**
   * `_update_score_for_reads` as its own comments describe it: the first component drops by one
   * for every variant of the read that is now covered; the other two components are kept.
   */
  function UpdateScoreCorrected(former: Score, read: Read, covered: set<int>): (r: Score)
    ensures r.second == former.second && r.quality == former.quality
    ensures r.first <= former.first
    ensures StrictlyIncreasing(Positions(read)) ==> r.first == former.first - |PositionSet(read) * covered|
  {
    assert StrictlyIncreasing(Positions(read)) ==> CountInside(read, covered) == |PositionSet(read) * covered| by {
      if StrictlyIncreasing(Positions(read)) {
        CountInsideCard(read, covered);
      }
    }
    Score(former.first - CountInside(read, covered), former.second, former.quality)
  }

  /**
   * The update as written lowers the score by the complement of what the corrected update
   * subtracts: together the two decrements add up to the read's number of variants.
   */
  lemma UpdateDecrementsComplement(former: Score, read: Read, covered: set<int>)
    ensures (former.first - UpdateScore(former, read, covered).first) +
            (former.first - UpdateScoreCorrected(former, read, covered).first) == |read|
  {
    CountSplit(read, covered);
  }

  /**
   * A read at positions 1, 2 and 3 of which only position 1 was just covered: the update as
   * written lowers its score by two, the corrected one by one.
   */
  lemma UpdateScoreInverted()
    ensures UpdateScore(Score(3, 3, 30), [Variant(1, 30), Variant(2, 30), Variant(3, 30)], {1}).first == 1
    ensures UpdateScoreCorrected(Score(3, 3, 30), [Variant(1, 30), Variant(2, 30), Variant(3, 30)], {1}).first == 2
  {
    var read := [Variant(1, 30), Variant(2, 30), Variant(3, 30)];
    assert read[..2] == [Variant(1, 30), Variant(2, 30)];
    assert read[..2][..1] == [Variant(1, 30)];
    assert read[..2][..1][..0] == [];
    assert CountOutside(read[..2][..1], {1}) == 0;
    assert CountOutside(read[..2], {1}) == 1;
    assert CountOutside(read, {1}) == 2;
    CountSplit(read, {1});
  }

  /**
   * A read both of whose positions were just covered keeps its score under the update as
   * written, and loses all of it once corrected.
   */
  lemma UpdateScoreIgnoresCovered()
    ensures UpdateScore(Score(2, 2, 30), [Variant(1, 30), Variant(2, 30)], {1, 2}).first == 2
    ensures UpdateScoreCorrected(Score(2, 2, 30), [Variant(1, 30), Variant(2, 30)], {1, 2}).first == 0
  {
    var read := [Variant(1, 30), Variant(2, 30)];
    assert read[..1] == [Variant(1, 30)];
    assert read[..1][..0] == [];
    assert CountOutside(read[..1], {1, 2}) == 0;
    assert CountOutside(read, {1, 2}) == 0;
    CountSplit(read, {1, 2});
  }

  /** The score update used by the selector: as written, or as its comments describe it. */
  function Rescored(former: Score, read: Read, covered: set<int>, corrected: bool): Score {
    if corrected then UpdateScoreCorrected(former, read, covered) else UpdateScore(former, read, covered)
  }
}
