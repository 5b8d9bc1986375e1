/**
 * `_construct_indexes`: dense indices for the variant positions, and the adjacency map from
 * a variant index to the reads that have a variant there.
 */
module Indexing {
  import opened Reads

  /** `vcf` maps every position of the sorted list `positions` to its index there, and nothing else. */
  ghost predicate Indexes(positions: seq<int>, vcf: map<int, nat>) {
    StrictlyIncreasing(positions) &&
    vcf.Keys == Elems(positions) &&
    (forall k :: 0 <= k < |positions| ==> vcf[positions[k]] == k) &&
    (forall p :: p in vcf ==> vcf[p] < |positions| && positions[vcf[p]] == p)
  }

  /** `vcf_indices`: every position mapped to its index in the sorted position list. */
  function IndexMap(positions: seq<int>): (m: map<int, nat>)
    requires StrictlyIncreasing(positions)
    ensures Indexes(positions, m)
  {
    map k | 0 <= k < |positions| :: positions[k] := k
  }

  /** Indices follow the order of positions. */
  lemma IndexMonotone(positions: seq<int>, vcf: map<int, nat>, p: int, q: int)
    requires Indexes(positions, vcf)
    requires p in vcf && q in vcf && p <= q
    ensures vcf[p] <= vcf[q]
    ensures p < q ==> vcf[p] < vcf[q]
  {
    assert positions[vcf[p]] == p && positions[vcf[q]] == q;
  }

  /** The reads of `rs` that have a variant at position `p`, in read order. */
  function ReadsAt(rs: seq<Read>, p: int): seq<nat> {
    if rs == [] then []
    else ReadsAt(rs[..|rs| - 1], p) + (if p in PositionSet(rs[|rs| - 1]) then [|rs| - 1] else [])
  }

  lemma {:induction false} ReadsAtMembers(rs: seq<Read>, p: int, i: nat)
    ensures i in ReadsAt(rs, p) <==> i < |rs| && p in PositionSet(rs[i])
    decreases |rs|
  {
    if rs != [] {
      var init := rs[..|rs| - 1];
      ReadsAtMembers(init, p, i);
      if i < |rs| - 1 {
        assert init[i] == rs[i];
      }
    }
  }

  /** A `defaultdict(list)` lookup: a missing key reads as the empty list. */
  function Lookup(m: map<nat, seq<nat>>, k: nat): seq<nat> {
    if k in m then m[k] else []
  }

  method ConstructIndexes(rs: seq<Read>) returns (positions: seq<int>, vcf: map<int, nat>, readMap: map<nat, seq<nat>>)
    requires WellFormed(rs)
    ensures StrictlyIncreasing(positions) && Elems(positions) == AllPositions(rs)
    ensures Indexes(positions, vcf)
    ensures forall k :: 0 <= k < |positions| ==> positions[k] in vcf && vcf[positions[k]] == k
    ensures forall s :: s in readMap ==> s < |positions|
    ensures forall s :: 0 <= s < |positions| ==> Lookup(readMap, s) == ReadsAt(rs, positions[s])
    ensures forall i, p :: 0 <= i < |rs| && p in PositionSet(rs[i]) ==>
      p in vcf && i in Lookup(readMap, vcf[p])
  {
    positions := GetPositions(rs);
    vcf := IndexMap(positions);
    readMap := FillReadMap(rs, positions, vcf);
    ReadMapComplete(rs, positions, vcf, readMap);
  }

  /** The outer loop of `_construct_indexes`: every read is entered under each of its variants. */
  method FillReadMap(rs: seq<Read>, positions: seq<int>, vcf: map<int, nat>) returns (readMap: map<nat, seq<nat>>)
    requires WellFormed(rs)
    requires Indexes(positions, vcf) && Elems(positions) == AllPositions(rs)
    ensures forall s :: s in readMap ==> s < |positions|
    ensures forall s :: 0 <= s < |positions| ==> Lookup(readMap, s) == ReadsAt(rs, positions[s])
  {
    readMap := map[];
    var i: nat := 0;
    assert rs[..i] == [];
    while i < |rs|
      invariant 0 <= i <= |rs|
      invariant forall s :: s in readMap ==> s < |positions|
      invariant forall s :: 0 <= s < |positions| ==> Lookup(readMap, s) == ReadsAt(rs[..i], positions[s])
    {
      FillStep(rs, positions, i);
      readMap := AppendRead(readMap, rs, i, positions, vcf);
      i := i + 1;
    }
    assert rs[..i] == rs;
  }

  /** What the outer loop of `_construct_indexes` needs to know about read `i`. */
  lemma FillStep(rs: seq<Read>, positions: seq<int>, i: nat)
    requires WellFormed(rs) && Elems(positions) == AllPositions(rs) && i < |rs|
    ensures StrictlyIncreasing(Positions(rs[i])) && PositionSet(rs[i]) <= Elems(positions)
  {
    AllPositionsContains(rs, i);
  }

  lemma ReadMapComplete(rs: seq<Read>, positions: seq<int>, vcf: map<int, nat>, readMap: map<nat, seq<nat>>)
    requires Indexes(positions, vcf) && Elems(positions) == AllPositions(rs)
    requires forall s :: 0 <= s < |positions| ==> Lookup(readMap, s) == ReadsAt(rs, positions[s])
    ensures forall i, p :: 0 <= i < |rs| && p in PositionSet(rs[i]) ==>
      p in vcf && i in Lookup(readMap, vcf[p])
  {
    forall i, p | 0 <= i < |rs| && p in PositionSet(rs[i])
      ensures p in vcf && i in Lookup(readMap, vcf[p])
    {
      ReadMapCompleteAt(rs, positions, vcf, readMap, i, p);
    }
  }

  lemma ReadMapCompleteAt(rs: seq<Read>, positions: seq<int>, vcf: map<int, nat>, readMap: map<nat, seq<nat>>, i: nat, p: int)
    requires Indexes(positions, vcf) && Elems(positions) == AllPositions(rs)
    requires forall s :: 0 <= s < |positions| ==> Lookup(readMap, s) == ReadsAt(rs, positions[s])
    requires i < |rs| && p in PositionSet(rs[i])
    ensures p in vcf && i in Lookup(readMap, vcf[p])
  {
    AllPositionsContains(rs, i);
    assert p in vcf;
    var s := vcf[p];
    assert positions[s] == p;
    ReadsAtMembers(rs, p, i);
  }

  /** The inner loop of `_construct_indexes`: read `i` is appended to the list of each of its variants. */
  method AppendRead(readMap: map<nat, seq<nat>>, rs: seq<Read>, i: nat, positions: seq<int>, vcf: map<int, nat>)
    returns (readMap': map<nat, seq<nat>>)
    requires i < |rs| && Indexes(positions, vcf) && StrictlyIncreasing(Positions(rs[i]))
    requires PositionSet(rs[i]) <= Elems(positions)
    requires forall s :: s in readMap ==> s < |positions|
    requires forall s :: 0 <= s < |positions| ==> Lookup(readMap, s) == ReadsAt(rs[..i], positions[s])
    ensures forall s :: s in readMap' ==> s < |positions|
    ensures forall s :: 0 <= s < |positions| ==> Lookup(readMap', s) == ReadsAt(rs[..i + 1], positions[s])
  {
    var read := rs[i];
    ghost var prefix := rs[..i];
    ghost var extended := rs[..i + 1];
    readMap' := readMap;
    var j := 0;
    while j < |read|
      invariant 0 <= j <= |read|
      invariant forall s :: s in readMap' ==> s < |positions|
      invariant forall s :: 0 <= s < |positions| ==>
        (Lookup(readMap', s) ==
         ReadsAt(prefix, positions[s]) + (if positions[s] in PositionSet(read[..j]) then [i] else []))
    {
      assert read[j] in read;
      var snp := vcf[read[j].position];
      ghost var before := readMap';
      readMap' := readMap'[snp := Lookup(readMap', snp) + [i]];
      AppendStep(before, readMap', positions, prefix, read, i, j, snp);
      j := j + 1;
    }
    assert read[..j] == read;
    assert extended[..|extended| - 1] == prefix && extended[|extended| - 1] == read;
  }

  lemma AppendStep(before: map<nat, seq<nat>>, after: map<nat, seq<nat>>, positions: seq<int>,
                   prefix: seq<Read>, read: Read, i: nat, j: nat, snp: nat)
    requires StrictlyIncreasing(positions) && StrictlyIncreasing(Positions(read)) && j < |read|
    requires snp < |positions| && positions[snp] == read[j].position
    requires after == before[snp := Lookup(before, snp) + [i]]
    requires forall s :: 0 <= s < |positions| ==>
      (Lookup(before, s) ==
       ReadsAt(prefix, positions[s]) + (if positions[s] in PositionSet(read[..j]) then [i] else []))
    ensures forall s :: 0 <= s < |positions| ==>
      (Lookup(after, s) ==
       ReadsAt(prefix, positions[s]) + (if positions[s] in PositionSet(read[..j + 1]) then [i] else []))
  {
    PositionSetSnoc(read, j);
    PositionNotEarlier(read, j);
    forall s | 0 <= s < |positions|
      ensures Lookup(after, s) ==
        ReadsAt(prefix, positions[s]) + (if positions[s] in PositionSet(read[..j + 1]) then [i] else [])
    {
      AppendStepAt(before, after, positions, prefix, read, i, j, snp, s);
    }
  }

  lemma AppendStepAt(before: map<nat, seq<nat>>, after: map<nat, seq<nat>>, positions: seq<int>,
                     prefix: seq<Read>, read: Read, i: nat, j: nat, snp: nat, s: nat)
    requires StrictlyIncreasing(positions) && j < |read|
    requires snp < |positions| && positions[snp] == read[j].position && s < |positions|
    requires read[j].position !in PositionSet(read[..j])
    requires PositionSet(read[..j + 1]) == PositionSet(read[..j]) + {read[j].position}
    requires after == before[snp := Lookup(before, snp) + [i]]
    requires Lookup(before, s) ==
      ReadsAt(prefix, positions[s]) + (if positions[s] in PositionSet(read[..j]) then [i] else [])
    ensures Lookup(after, s) ==
      ReadsAt(prefix, positions[s]) + (if positions[s] in PositionSet(read[..j + 1]) then [i] else [])
  {
    if s != snp {
      assert positions[s] != positions[snp] by {
        if s < snp { assert positions[s] < positions[snp]; } else { assert positions[snp] < positions[s]; }
      }
      assert Lookup(after, s) == Lookup(before, s);
    }
  }
}
