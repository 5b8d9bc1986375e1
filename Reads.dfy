/**
 * The read set handed to the selector: reads are sequences of variants (position and
 * quality; alleles and mapping qualities play no part in the selection and are left out).
 * Also the read set's `get_positions`: the sorted, distinct positions of all reads.
 */
module Reads {

  datatype Variant = Variant(position: int, quality: int)

  type Read = seq<Variant>

  function Positions(read: Read): (ps: seq<int>)
    ensures |ps| == |read|
    ensures forall k :: 0 <= k < |read| ==> ps[k] == read[k].position
  {
    seq(|read|, k requires 0 <= k < |read| => read[k].position)
  }

  function PositionSet(read: Read): set<int> {
    set v | v in read :: v.position
  }

  ghost predicate StrictlyIncreasing(s: seq<int>) {
    forall i, j :: 0 <= i < j < |s| ==> s[i] < s[j]
  }

  /** The caller's contract on a read set: positions within each read strictly increase. */
  ghost predicate WellFormed(rs: seq<Read>) {
    forall i :: 0 <= i < |rs| ==> StrictlyIncreasing(Positions(rs[i]))
  }

  function Elems(s: seq<int>): set<int> {
    set x | x in s
  }

  /** Every position touched by some read of `rs`. */
  function AllPositions(rs: seq<Read>): set<int> {
    if rs == [] then {} else AllPositions(rs[..|rs| - 1]) + PositionSet(rs[|rs| - 1])
  }

  lemma {:induction false} AllPositionsContains(rs: seq<Read>, i: nat)
    requires i < |rs|
    ensures PositionSet(rs[i]) <= AllPositions(rs)
    decreases |rs|
  {
    if i < |rs| - 1 {
      AllPositionsContains(rs[..|rs| - 1], i);
    }
  }

  lemma {:induction false} AllPositionsWitness(rs: seq<Read>, p: int) returns (i: nat)
    requires p in AllPositions(rs)
    ensures i < |rs| && p in PositionSet(rs[i])
    decreases |rs|
  {
    if p in PositionSet(rs[|rs| - 1]) {
      i := |rs| - 1;
    } else {
      i := AllPositionsWitness(rs[..|rs| - 1], p);
    }
  }

  /** Inserts `x` into a strictly increasing sequence, keeping it strictly increasing. */
  function InsertSorted(s: seq<int>, x: int): (r: seq<int>)
    requires StrictlyIncreasing(s)
    ensures StrictlyIncreasing(r)
    ensures Elems(r) == Elems(s) + {x}
  {
    if s == [] then [x]
    else
      HeadSmallest(s);
      if x < s[0] then
        PrependSmaller(x, s);
        [x] + s
      else if x == s[0] then s
      else
        var tail := InsertSorted(s[1..], x);
        PrependSmaller(s[0], tail);
        [s[0]] + tail
  }

  /** The head of a strictly increasing sequence is below every later element. */
  lemma HeadSmallest(s: seq<int>)
    requires StrictlyIncreasing(s) && s != []
    ensures Elems(s) == {s[0]} + Elems(s[1..])
    ensures forall y :: y in Elems(s[1..]) ==> s[0] < y
    ensures StrictlyIncreasing(s[1..])
  {
    assert s == [s[0]] + s[1..];
    forall y | y in Elems(s[1..]) ensures s[0] < y {
      var k :| 0 <= k < |s| - 1 && s[1..][k] == y;
      assert s[k + 1] == y;
    }
  }

  lemma PrependSmaller(x: int, s: seq<int>)
    requires StrictlyIncreasing(s)
    requires forall y :: y in Elems(s) ==> x < y
    ensures StrictlyIncreasing([x] + s)
    ensures Elems([x] + s) == Elems(s) + {x}
  {
    var r := [x] + s;
    forall i, j | 0 <= i < j < |r| ensures r[i] < r[j] {
      if i == 0 {
        assert r[j] == s[j - 1];
        assert r[j] in Elems(s);
      } else {
        assert r[i] == s[i - 1] && r[j] == s[j - 1];
      }
    }
  }

  function InsertAll(s: seq<int>, xs: seq<int>): (r: seq<int>)
    requires StrictlyIncreasing(s)
    ensures StrictlyIncreasing(r)
    ensures Elems(r) == Elems(s) + Elems(xs)
    decreases |xs|
  {
    if xs == [] then s
    else
      assert Elems(xs) == {xs[0]} + Elems(xs[1..]);
      InsertAll(InsertSorted(s, xs[0]), xs[1..])
  }

  lemma PositionsElems(read: Read)
    ensures Elems(Positions(read)) == PositionSet(read)
  {
    forall p | p in PositionSet(read) ensures p in Elems(Positions(read)) {
      var v :| v in read && v.position == p;
      var k :| 0 <= k < |read| && read[k] == v;
      assert Positions(read)[k] == p;
    }
  }

  lemma PositionSetSnoc(read: Read, j: nat)
    requires j < |read|
    ensures PositionSet(read[..j + 1]) == PositionSet(read[..j]) + {read[j].position}
  {
    assert read[..j + 1] == read[..j] + [read[j]];
  }

  /** In a read with strictly increasing positions, variant `j`'s position is not among the earlier ones. */
  lemma PositionNotEarlier(read: Read, j: nat)
    requires j < |read| && StrictlyIncreasing(Positions(read))
    ensures read[j].position !in PositionSet(read[..j])
  {
    forall k | 0 <= k < j
      ensures read[k].position != read[j].position
    {
      assert Positions(read)[k] < Positions(read)[j];
    }
  }

  /** The read set's `get_positions`: all positions of all reads, sorted and distinct. */
  method GetPositions(rs: seq<Read>) returns (positions: seq<int>)
    ensures StrictlyIncreasing(positions)
    ensures Elems(positions) == AllPositions(rs)
  {
    positions := [];
    for i := 0 to |rs|
      invariant StrictlyIncreasing(positions)
      invariant Elems(positions) == AllPositions(rs[..i])
    {
      PositionsElems(rs[i]);
      assert rs[..i + 1][..i] == rs[..i];
      positions := InsertAll(positions, Positions(rs[i]));
    }
    assert rs[..|rs|] == rs;
  }
}
