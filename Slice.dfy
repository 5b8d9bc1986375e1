/**
 * `slice_read_selection` and its helpers: one greedy pass over a priority queue of reads,
 * accepting reads that cover a not yet covered position without breaking the coverage cap.
 */
module Slice {
  import opened Wrappers
  import opened Reads
  import opened Indexing
  import opened Scoring
  import opened PriorityQueues
  import opened Coverage

  /**
   * A read the selector can place on the index axis: it has variants, its positions strictly
   * increase and are all indexed, and its index span lies within the `n` indices.
   */
  ghost predicate Placed(read: Read, vcf: map<int, nat>, n: nat) {
    read != [] && StrictlyIncreasing(Positions(read)) &&
    (forall k :: 0 <= k < |read| ==> read[k].position in vcf) &&
    vcf[read[0].position] <= vcf[read[|read| - 1].position] < n
  }

  /** Every read named in `items` is a read of `rs` that can be placed. */
  ghost predicate AllPlaced(rs: seq<Read>, vcf: map<int, nat>, n: nat, items: set<nat>) {
    forall i :: i in items ==> i < |rs| && Placed(rs[i], vcf, n)
  }

  /** `begin`: the index of the read's first variant. */
  function Begin(read: Read, vcf: map<int, nat>): nat
    requires read != [] && read[0].position in vcf
  {
    vcf[read[0].position]
  }

  /** `end`: one past the index of the read's last variant. */
  function End(read: Read, vcf: map<int, nat>): nat
    requires read != [] && read[|read| - 1].position in vcf
  {
    vcf[read[|read| - 1].position] + 1
  }

  /** Every read of a well-formed read set that has variants is placed by its own index. */
  lemma ReadsArePlaced(rs: seq<Read>, positions: seq<int>, vcf: map<int, nat>, i: nat)
    requires WellFormed(rs) && Indexes(positions, vcf) && Elems(positions) == AllPositions(rs)
    requires i < |rs| && rs[i] != []
    ensures Placed(rs[i], vcf, |positions|)
    ensures PositionSet(rs[i]) <= vcf.Keys
    ensures Begin(rs[i], vcf) < End(rs[i], vcf) <= |positions|
  {
    var read := rs[i];
    AllPositionsContains(rs, i);
    forall k | 0 <= k < |read| ensures read[k].position in vcf {
      assert read[k] in read;
    }
    var first, last := read[0].position, read[|read| - 1].position;
    assert first <= last by {
      assert |read| == 1 || Positions(read)[0] < Positions(read)[|read| - 1];
    }
    IndexMonotone(positions, vcf, first, last);
  }

  /** Some element of a non-empty set: the next element of a loop over the set. */
  method Pick<T>(s: set<T>) returns (x: T)
    requires s != {}
    ensures x in s
  {
    x :| x in s;
  }

  function SetOf(order: seq<nat>): set<nat> {
    set k | 0 <= k < |order| :: order[k]
  }

  ghost predicate Distinct(order: seq<nat>) {
    forall k, l :: 0 <= k < l < |order| ==> order[k] != order[l]
  }

  /** The positions covered by the reads `order` of `rs`. */
  function CoveredBy(rs: seq<Read>, order: seq<nat>): set<int>
    requires forall k :: 0 <= k < |order| ==> order[k] < |rs|
  {
    if order == [] then {}
    else CoveredBy(rs, order[..|order| - 1]) + PositionSet(rs[order[|order| - 1]])
  }

  /** The coverage counters `s` after the reads `order` of `rs` have been added one by one. */
  function AddSpans(s: seq<nat>, rs: seq<Read>, vcf: map<int, nat>, order: seq<nat>): (t: seq<nat>)
    requires forall k :: 0 <= k < |order| ==> order[k] < |rs| && Placed(rs[order[k]], vcf, |s|)
    ensures |t| == |s|
  {
    if order == [] then s
    else
      var read := rs[order[|order| - 1]];
      assert Placed(read, vcf, |s|) && read[0].position in vcf && read[|read| - 1].position in vcf;
      AddSpan(AddSpans(s, rs, vcf, order[..|order| - 1]), Begin(read, vcf), End(read, vcf))
  }

  lemma CoveredBySnoc(rs: seq<Read>, order: seq<nat>, item: nat)
    requires forall k :: 0 <= k < |order| ==> order[k] < |rs|
    requires item < |rs|
    ensures CoveredBy(rs, order + [item]) == CoveredBy(rs, order) + PositionSet(rs[item])
  {
    assert (order + [item])[..|order|] == order;
  }

  lemma AddSpansSnoc(s: seq<nat>, rs: seq<Read>, vcf: map<int, nat>, order: seq<nat>, item: nat)
    requires forall k :: 0 <= k < |order| ==> order[k] < |rs| && Placed(rs[order[k]], vcf, |s|)
    requires item < |rs| && Placed(rs[item], vcf, |s|)
    ensures AddSpans(s, rs, vcf, order + [item]) ==
      AddSpan(AddSpans(s, rs, vcf, order), Begin(rs[item], vcf), End(rs[item], vcf))
  {
    assert (order + [item])[..|order|] == order;
  }

  /** The queue `__pq_construction_out_of_given_reads` builds: every read of `items` under its score. */
  function Queue(rs: seq<Read>, vcf: map<int, nat>, items: set<nat>): (q: map<nat, Score>)
    requires forall i :: i in items ==> i < |rs| && CoveredIndices(rs[i], vcf) != []
    ensures q.Keys == items
  {
    map i | i in items :: ComputeScore(rs[i], vcf)
  }

  /** `__pq_construction_out_of_given_reads`: one entry per read, scored by `_compute_score_for_read`. */
  method PqConstruction(rs: seq<Read>, indices: set<nat>, vcf: map<int, nat>) returns (pq: PriorityQueue)
    requires forall i :: i in indices ==> i < |rs| && CoveredIndices(rs[i], vcf) != []
    ensures fresh(pq)
    ensures pq.entries.Keys == indices
    ensures forall i :: i in indices ==> pq.entries[i] == ComputeScore(rs[i], vcf)
    ensures pq.entries == Queue(rs, vcf, indices)
  {
    pq := new PriorityQueue();
    var todo := indices;
    while todo != {}
      invariant todo <= indices
      invariant pq.entries.Keys == indices - todo
      invariant forall i :: i in pq.entries ==> pq.entries[i] == ComputeScore(rs[i], vcf)
      decreases todo
    {
      var index :| index in todo;
      var score := ComputeScore(rs[index], vcf);
      pq.Push(score, index);
      todo := todo - {index};
    }
  }

  /** The loop over the popped read: the positions it has that are not yet covered. */
  method NewPositions(read: Read, covered: set<int>) returns (newly: set<int>, coversNew: bool)
    ensures newly == PositionSet(read) - covered
    ensures coversNew <==> newly != {}
    ensures !coversNew <==> PositionSet(read) <= covered
  {
    newly := {};
    coversNew := false;
    for j := 0 to |read|
      invariant newly == PositionSet(read[..j]) - covered
      invariant coversNew <==> newly != {}
    {
      PositionSetSnoc(read, j);
      if read[j].position !in covered {
        coversNew := true;
        newly := newly + {read[j].position};
      }
    }
    assert read[..|read|] == read;
    if !coversNew {
      forall p | p in PositionSet(read) ensures p in covered {
        assert p !in newly;
      }
    }
  }

  /** The reads listed in the adjacency map under the index of some position of `ps`. */
  function Neighbours(readMap: map<nat, seq<nat>>, vcf: map<int, nat>, ps: set<int>): set<nat> {
    set p, x | p in ps && p in vcf && x in Lookup(readMap, vcf[p]) :: x
  }

  lemma NeighboursAdd(readMap: map<nat, seq<nat>>, vcf: map<int, nat>, ps: set<int>, p: int)
    requires p in vcf
    ensures Neighbours(readMap, vcf, ps + {p}) == Neighbours(readMap, vcf, ps) + SetOf(Lookup(readMap, vcf[p]))
  {
    var l := Lookup(readMap, vcf[p]);
    forall x | x in SetOf(l) ensures x in Neighbours(readMap, vcf, ps + {p}) {
      var k :| 0 <= k < |l| && l[k] == x;
      assert x in l;
    }
  }

  /**
   * Marks the newly covered positions as covered and collects the reads listed under them in
   * the adjacency map: the reads whose score has to be updated.
   */
  method CoverPositions(newly: set<int>, covered: set<int>, vcf: map<int, nat>, readMap: map<nat, seq<nat>>)
    returns (covered': set<int>, affected: set<nat>)
    requires newly <= vcf.Keys
    ensures covered' == covered + newly
    ensures affected == Neighbours(readMap, vcf, newly)
  {
    covered' := covered;
    affected := {};
    var todo := newly;
    while todo != {}
      invariant todo <= newly
      invariant covered' == covered + (newly - todo)
      invariant affected == Neighbours(readMap, vcf, newly - todo)
      decreases todo
    {
      var pos := Pick(todo);
      NeighboursAdd(readMap, vcf, newly - todo, pos);
      assert (newly - todo) + {pos} == newly - (todo - {pos});
      covered' := covered' + {pos};
      var needToDecrease := Lookup(readMap, vcf[pos]);
      affected := affected + SetOf(needToDecrease);
      todo := todo - {pos};
    }
  }

  /** With a complete adjacency map, the affected reads are exactly those that share a newly covered position. */
  lemma AffectedShareNewPosition(rs: seq<Read>, vcf: map<int, nat>, readMap: map<nat, seq<nat>>,
                                 newly: set<int>, x: nat)
    requires newly <= vcf.Keys
    requires forall p :: p in vcf ==> Lookup(readMap, vcf[p]) == ReadsAt(rs, p)
    ensures x in Neighbours(readMap, vcf, newly) <==> x < |rs| && PositionSet(rs[x]) * newly != {}
  {
    if x in Neighbours(readMap, vcf, newly) {
      var p :| p in newly && p in vcf && x in Lookup(readMap, vcf[p]);
      ReadsAtMembers(rs, p, x);
      assert p in PositionSet(rs[x]) * newly;
    }
    if x < |rs| && PositionSet(rs[x]) * newly != {} {
      var p :| p in PositionSet(rs[x]) * newly;
      ReadsAtMembers(rs, p, x);
    }
  }

  /**
   * The queue after the rescoring loop: every queued read of `dset` gets the updated score
   * (`corrected` selects the update), every other entry is kept.
   */
  function Rescore(queue: map<nat, Score>, rs: seq<Read>, dset: set<nat>, newly: set<int>, corrected: bool)
    : (q: map<nat, Score>)
    requires forall i :: i in queue ==> i < |rs|
    ensures q.Keys == queue.Keys
  {
    map i | i in queue :: if i in dset then Rescored(queue[i], rs[i], newly, corrected) else queue[i]
  }

  /**
   * The rescoring loop: every read of `dset` that is still in the queue gets the updated score;
   * reads no longer in the queue are skipped.
   */
  method RescoreReads(pq: PriorityQueue, rs: seq<Read>, dset: set<nat>, newly: set<int>, corrected: bool)
    requires forall i :: i in pq.entries ==> i < |rs|
    modifies pq
    ensures pq.entries == Rescore(old(pq.entries), rs, dset, newly, corrected)
  {
    var todo := dset;
    while todo != {}
      invariant todo <= dset
      invariant pq.entries.Keys == old(pq.entries.Keys)
      invariant forall i :: i in pq.entries ==>
        pq.entries[i] == if i in dset - todo then Rescored(old(pq.entries[i]), rs[i], newly, corrected)
                         else old(pq.entries[i])
      decreases todo
    {
      var element :| element in todo;
      var oldScore := pq.GetScoreByItem(element);
      if oldScore.Some? {
        var newScore := if corrected then UpdateScoreCorrected(oldScore.value, rs[element], newly)
                        else UpdateScore(oldScore.value, rs[element], newly);
        pq.ChangeScore(element, newScore);
      }
      todo := todo - {element};
    }
  }

  /** Every accepted read had a position that the reads accepted before it did not cover. */
  ghost predicate EachAddsPosition(rs: seq<Read>, order: seq<nat>)
    requires forall k :: 0 <= k < |order| ==> order[k] < |rs|
  {
    forall k :: 0 <= k < |order| ==> !(PositionSet(rs[order[k]]) <= CoveredBy(rs, order[..k]))
  }

  /** The bookkeeping of popped reads: accepted and violating reads are disjoint and were popped. */
  ghost predicate SliceSets(keys0: set<nat>, remaining: set<nat>, inSlice: set<nat>, violating: set<nat>,
                            order: seq<nat>)
  {
    remaining <= keys0 &&
    inSlice !! violating && inSlice + violating <= keys0 - remaining &&
    (inSlice + violating == {} ==> remaining == keys0) &&
    SetOf(order) == inSlice && Distinct(order)
  }

  /** Every queued read and every accepted read can be placed on the `n` counters. */
  ghost predicate SlicePlaced(rs: seq<Read>, vcf: map<int, nat>, n: nat, keys0: set<nat>, order: seq<nat>) {
    AllPlaced(rs, vcf, n, keys0) &&
    (forall k :: 0 <= k < |order| ==> order[k] < |rs| && Placed(rs[order[k]], vcf, n))
  }

  /**
   * The counters are the start counters plus the spans of the accepted reads, within the cap
   * when the start counters were, and every violating read's span reaches the cap.
   */
  ghost predicate SliceCounts(rs: seq<Read>, vcf: map<int, nat>, maxCov: int, counts0: seq<nat>,
                              counts: seq<nat>, violating: set<nat>, order: seq<nat>)
    requires forall k :: 0 <= k < |order| ==> order[k] < |rs| && Placed(rs[order[k]], vcf, |counts0|)
    requires AllPlaced(rs, vcf, |counts0|, violating)
  {
    counts == AddSpans(counts0, rs, vcf, order) &&
    (Capped(counts0, maxCov) ==> Capped(counts, maxCov)) &&
    (forall i :: i in violating ==> RangeMax(counts, Begin(rs[i], vcf), End(rs[i], vcf)) >= maxCov)
  }

  /**
   * `already_covered_SNPs` is what the accepted reads cover, each accepted read added a
   * position, and every dropped read is covered.
   */
  ghost predicate SliceCovering(rs: seq<Read>, keys0: set<nat>, remaining: set<nat>, inSlice: set<nat>,
                                violating: set<nat>, order: seq<nat>, covered: set<int>)
    requires forall k :: 0 <= k < |order| ==> order[k] < |rs|
    requires forall i :: i in keys0 ==> i < |rs|
  {
    covered == CoveredBy(rs, order) &&
    EachAddsPosition(rs, order) &&
    (forall i :: i in keys0 - remaining - inSlice - violating ==> PositionSet(rs[i]) <= covered)
  }

  /**
   * The state of a slice after some pops. `keys0` were queued at the start and `remaining` still
   * are; `counts0` and `counts` are the coverage counters at the start and now; `covered` is
   * `already_covered_SNPs`.
   */
  ghost predicate SliceInv(rs: seq<Read>, vcf: map<int, nat>, maxCov: int, keys0: set<nat>, remaining: set<nat>,
                           counts0: seq<nat>, counts: seq<nat>, inSlice: set<nat>, violating: set<nat>,
                           order: seq<nat>, covered: set<int>)
  {
    SliceSets(keys0, remaining, inSlice, violating, order) &&
    SlicePlaced(rs, vcf, |counts0|, keys0, order) &&
    SliceCounts(rs, vcf, maxCov, counts0, counts, violating, order) &&
    SliceCovering(rs, keys0, remaining, inSlice, violating, order, covered)
  }

  lemma SliceStart(rs: seq<Read>, vcf: map<int, nat>, maxCov: int, keys0: set<nat>, counts0: seq<nat>)
    requires AllPlaced(rs, vcf, |counts0|, keys0)
    ensures SliceInv(rs, vcf, maxCov, keys0, keys0, counts0, counts0, {}, {}, [], {})
  {
  }

  /** A popped read whose span reaches the cap joins the violating reads. */
  lemma SliceViolate(rs: seq<Read>, vcf: map<int, nat>, maxCov: int, keys0: set<nat>, remaining: set<nat>,
                     counts0: seq<nat>, counts: seq<nat>, inSlice: set<nat>, violating: set<nat>,
                     order: seq<nat>, covered: set<int>, item: nat)
    requires SliceInv(rs, vcf, maxCov, keys0, remaining, counts0, counts, inSlice, violating, order, covered)
    requires item in remaining
    requires RangeMax(counts, Begin(rs[item], vcf), End(rs[item], vcf)) >= maxCov
    ensures SliceInv(rs, vcf, maxCov, keys0, remaining - {item}, counts0, counts, inSlice, violating + {item},
                     order, covered)
  {
  }

  /** A popped read under the cap with no new position is dropped: all its positions are covered. */
  lemma SliceDrop(rs: seq<Read>, vcf: map<int, nat>, maxCov: int, keys0: set<nat>, remaining: set<nat>,
                  counts0: seq<nat>, counts: seq<nat>, inSlice: set<nat>, violating: set<nat>,
                  order: seq<nat>, covered: set<int>, item: nat)
    requires SliceInv(rs, vcf, maxCov, keys0, remaining, counts0, counts, inSlice, violating, order, covered)
    requires item in remaining
    requires PositionSet(rs[item]) <= covered
    ensures SliceInv(rs, vcf, maxCov, keys0, remaining - {item}, counts0, counts, inSlice, violating,
                     order, covered)
  {
    var read := rs[item];
    assert read[0] in read;
    assert read[0].position in covered;
    assert order != [];
    assert order[0] in SetOf(order);
  }

  /** A popped read under the cap with a new position is accepted. */
  lemma SliceAccept(rs: seq<Read>, vcf: map<int, nat>, maxCov: int, keys0: set<nat>, remaining: set<nat>,
                    counts0: seq<nat>, counts: seq<nat>, inSlice: set<nat>, violating: set<nat>,
                    order: seq<nat>, covered: set<int>, item: nat, newly: set<int>)
    requires SliceInv(rs, vcf, maxCov, keys0, remaining, counts0, counts, inSlice, violating, order, covered)
    requires item in remaining
    requires RangeMax(counts, Begin(rs[item], vcf), End(rs[item], vcf)) < maxCov
    requires newly == PositionSet(rs[item]) - covered && newly != {}
    ensures SliceInv(rs, vcf, maxCov, keys0, remaining - {item}, counts0,
                     AddSpan(counts, Begin(rs[item], vcf), End(rs[item], vcf)), inSlice + {item}, violating,
                     order + [item], covered + newly)
  {
    var after := AddSpan(counts, Begin(rs[item], vcf), End(rs[item], vcf));
    var o := order + [item];
    assert item !in SetOf(order);
    SliceAcceptOrder(rs, order, item, covered, newly);
    SliceAcceptSets(keys0, remaining, inSlice, violating, order, item);
    assert SlicePlaced(rs, vcf, |counts0|, keys0, o);
    SliceAcceptCounts(rs, vcf, maxCov, keys0, counts0, counts, violating, order, item);
    SliceAcceptCovering(rs, keys0, remaining, inSlice, violating, order, covered, newly, item);
  }

  lemma SliceAcceptSets(keys0: set<nat>, remaining: set<nat>, inSlice: set<nat>, violating: set<nat>,
                        order: seq<nat>, item: nat)
    requires SliceSets(keys0, remaining, inSlice, violating, order) && item in remaining
    requires SetOf(order + [item]) == SetOf(order) + {item} && Distinct(order + [item])
    ensures SliceSets(keys0, remaining - {item}, inSlice + {item}, violating, order + [item])
  {
  }

  lemma SliceAcceptCounts(rs: seq<Read>, vcf: map<int, nat>, maxCov: int, keys0: set<nat>, counts0: seq<nat>,
                          counts: seq<nat>, violating: set<nat>, order: seq<nat>, item: nat)
    requires SlicePlaced(rs, vcf, |counts0|, keys0, order) && violating <= keys0 && item in keys0
    requires SliceCounts(rs, vcf, maxCov, counts0, counts, violating, order)
    requires RangeMax(counts, Begin(rs[item], vcf), End(rs[item], vcf)) < maxCov
    ensures SlicePlaced(rs, vcf, |counts0|, keys0, order + [item])
    ensures SliceCounts(rs, vcf, maxCov, counts0, AddSpan(counts, Begin(rs[item], vcf), End(rs[item], vcf)),
                        violating, order + [item])
  {
    var o := order + [item];
    assert forall k :: 0 <= k < |o| ==> o[k] < |rs| && Placed(rs[o[k]], vcf, |counts0|);
    SliceAcceptCoverage(counts, AddSpan(counts, Begin(rs[item], vcf), End(rs[item], vcf)), counts0, maxCov,
                        rs, vcf, order, item, violating);
  }

  lemma SliceAcceptCovering(rs: seq<Read>, keys0: set<nat>, remaining: set<nat>, inSlice: set<nat>,
                            violating: set<nat>, order: seq<nat>, covered: set<int>, newly: set<int>, item: nat)
    requires forall k :: 0 <= k < |order| ==> order[k] < |rs|
    requires forall i :: i in keys0 ==> i < |rs|
    requires item in keys0
    requires SliceCovering(rs, keys0, remaining, inSlice, violating, order, covered)
    requires covered + newly == CoveredBy(rs, order + [item]) && EachAddsPosition(rs, order + [item])
    ensures SliceCovering(rs, keys0, remaining - {item}, inSlice + {item}, violating, order + [item], covered + newly)
  {
    assert keys0 - (remaining - {item}) - (inSlice + {item}) - violating <= keys0 - remaining - inSlice - violating;
  }

  /**
   * The state of `slice_read_selection` between two pops: the queue, the coverage counters,
   * `already_covered_SNPs`, `reads_in_slice`, `reads_violating_coverage`, and the accepted
   * reads in acceptance order.
   */
  datatype SliceState = SliceState(queue: map<nat, Score>, counts: seq<nat>, covered: set<int>,
                                   inSlice: set<nat>, violating: set<nat>, order: seq<nat>)

  /** Every queued read can be placed on the counters. */
  ghost predicate SliceReady(rs: seq<Read>, vcf: map<int, nat>, s: SliceState) {
    AllPlaced(rs, vcf, |s.counts|, s.queue.Keys)
  }

  /**
   * One pop of `slice_read_selection`, for the popped read `item`. A read whose span already
   * reaches `maxCov` on some counter is violating; otherwise a read with a position not yet
   * covered is accepted: its span is counted, its new positions become covered, and the queued
   * reads listed under those positions, except the accepted ones, are rescored. Any other read
   * is dropped.
   */
  ghost function PopSlice(rs: seq<Read>, vcf: map<int, nat>, readMap: map<nat, seq<nat>>, maxCov: int,
                          corrected: bool, s: SliceState, item: nat): (r: SliceState)
    requires SliceReady(rs, vcf, s) && item in s.queue
    ensures r.queue.Keys == s.queue.Keys - {item} && |r.counts| == |s.counts|
    ensures SliceReady(rs, vcf, r)
  {
    var read := rs[item];
    assert Placed(read, vcf, |s.counts|) && read[0].position in vcf && read[|read| - 1].position in vcf;
    var rest := s.queue - {item};
    if RangeMax(s.counts, Begin(read, vcf), End(read, vcf)) >= maxCov then
      s.(queue := rest, violating := s.violating + {item})
    else if PositionSet(read) <= s.covered then
      s.(queue := rest)
    else
      var newly := PositionSet(read) - s.covered;
      var inSlice := s.inSlice + {item};
      SliceState(Rescore(rest, rs, Neighbours(readMap, vcf, newly) - inSlice, newly, corrected),
                 AddSpan(s.counts, Begin(read, vcf), End(read, vcf)), s.covered + newly,
                 inSlice, s.violating, s.order + [item])
  }

  /** `slice_read_selection` from state `s`: pop the top entry until the queue is empty. */
  ghost function SliceRun(rs: seq<Read>, vcf: map<int, nat>, readMap: map<nat, seq<nat>>, maxCov: int,
                          corrected: bool, s: SliceState): (r: SliceState)
    requires SliceReady(rs, vcf, s)
    ensures r.queue == map[]
    decreases s.queue.Keys
  {
    if s.queue == map[] then s
    else SliceRun(rs, vcf, readMap, maxCov, corrected, PopSlice(rs, vcf, readMap, maxCov, corrected, s, TopOf(s.queue)))
  }

  /** Popping the top entry is the first step of the run. */
  lemma SliceRunStep(rs: seq<Read>, vcf: map<int, nat>, readMap: map<nat, seq<nat>>, maxCov: int,
                     corrected: bool, s: SliceState, item: nat)
    requires SliceReady(rs, vcf, s) && IsTop(s.queue, item)
    ensures SliceRun(rs, vcf, readMap, maxCov, corrected, s) ==
            SliceRun(rs, vcf, readMap, maxCov, corrected, PopSlice(rs, vcf, readMap, maxCov, corrected, s, item))
  {
    TopUnique(s.queue, item);
  }

  /** `SliceInv` on a state, with the queued reads as the remaining ones. */
  ghost predicate SliceInvAt(rs: seq<Read>, vcf: map<int, nat>, maxCov: int, keys0: set<nat>, counts0: seq<nat>,
                             s: SliceState)
  {
    SliceInv(rs, vcf, maxCov, keys0, s.queue.Keys, counts0, s.counts, s.inSlice, s.violating, s.order, s.covered)
  }

  /** Every pop keeps the slice invariant. */
  lemma PopSliceKeeps(rs: seq<Read>, vcf: map<int, nat>, readMap: map<nat, seq<nat>>, maxCov: int,
                      corrected: bool, keys0: set<nat>, counts0: seq<nat>, s: SliceState, item: nat)
    requires SliceReady(rs, vcf, s) && item in s.queue
    requires SliceInvAt(rs, vcf, maxCov, keys0, counts0, s)
    ensures SliceInvAt(rs, vcf, maxCov, keys0, counts0, PopSlice(rs, vcf, readMap, maxCov, corrected, s, item))
  {
    var read := rs[item];
    assert Placed(read, vcf, |s.counts|) && read[0].position in vcf && read[|read| - 1].position in vcf;
    var r := PopSlice(rs, vcf, readMap, maxCov, corrected, s, item);
    var rest := s.queue - {item};
    if RangeMax(s.counts, Begin(read, vcf), End(read, vcf)) >= maxCov {
      assert r == s.(queue := rest, violating := s.violating + {item});
      SliceViolate(rs, vcf, maxCov, keys0, s.queue.Keys, counts0, s.counts, s.inSlice, s.violating, s.order,
                   s.covered, item);
    } else if PositionSet(read) <= s.covered {
      assert r == s.(queue := rest);
      SliceDrop(rs, vcf, maxCov, keys0, s.queue.Keys, counts0, s.counts, s.inSlice, s.violating, s.order,
                s.covered, item);
    } else {
      var newly := PositionSet(read) - s.covered;
      assert r.queue.Keys == rest.Keys && r.counts == AddSpan(s.counts, Begin(read, vcf), End(read, vcf));
      assert r.covered == s.covered + newly && r.inSlice == s.inSlice + {item};
      assert r.violating == s.violating && r.order == s.order + [item];
      SliceAccept(rs, vcf, maxCov, keys0, s.queue.Keys, counts0, s.counts, s.inSlice, s.violating, s.order,
                  s.covered, item, newly);
    }
  }

  /** A run keeps the slice invariant through every pop. */
  lemma {:induction false} SliceRunKeeps(rs: seq<Read>, vcf: map<int, nat>, readMap: map<nat, seq<nat>>,
                                         maxCov: int, corrected: bool, keys0: set<nat>, counts0: seq<nat>,
                                         s: SliceState)
    requires SliceReady(rs, vcf, s)
    requires SliceInvAt(rs, vcf, maxCov, keys0, counts0, s)
    ensures SliceInvAt(rs, vcf, maxCov, keys0, counts0, SliceRun(rs, vcf, readMap, maxCov, corrected, s))
    decreases s.queue.Keys
  {
    if s.queue != map[] {
      var item := TopOf(s.queue);
      PopSliceKeeps(rs, vcf, readMap, maxCov, corrected, keys0, counts0, s, item);
      SliceRunKeeps(rs, vcf, readMap, maxCov, corrected, keys0, counts0,
                    PopSlice(rs, vcf, readMap, maxCov, corrected, s, item));
    }
  }

  /**
   * `slice_read_selection`. Pops every read of the queue, best first, as `SliceRun` does from
   * the initial queue and counters with nothing covered; `corrected` selects the score update.
   * `order` lists the accepted reads in acceptance order.
   */
  method SliceReadSelection(pq: PriorityQueue, cov: CovMonitor, maxCov: int, corrected: bool, rs: seq<Read>,
                            vcf: map<int, nat>, readMap: map<nat, seq<nat>>)
    returns (inSlice: set<nat>, violating: set<nat>, ghost order: seq<nat>)
    requires AllPlaced(rs, vcf, cov.coverage.Length, pq.entries.Keys)
    modifies pq, cov.coverage
    ensures pq.entries == map[]
    ensures forall k :: 0 <= k < |order| ==> order[k] < |rs|
    ensures SliceRun(rs, vcf, readMap, maxCov, corrected, SliceState(old(pq.entries), old(cov.coverage[..]), {}, {}, {}, []))
            == SliceState(map[], cov.coverage[..], CoveredBy(rs, order), inSlice, violating, order)
    ensures SliceInv(rs, vcf, maxCov, old(pq.entries.Keys), {}, old(cov.coverage[..]), cov.coverage[..],
                     inSlice, violating, order, CoveredBy(rs, order))
  {
    ghost var start := SliceState(pq.entries, cov.coverage[..], {}, {}, {}, []);
    SliceStart(rs, vcf, maxCov, pq.entries.Keys, cov.coverage[..]);
    SliceRunKeeps(rs, vcf, readMap, maxCov, corrected, pq.entries.Keys, cov.coverage[..], start);
    var alreadyCovered: set<int> := {};
    inSlice, violating, order := {}, {}, [];
    var empty := pq.IsEmpty();
    while !empty
      invariant empty <==> pq.entries == map[]
      invariant AllPlaced(rs, vcf, cov.coverage.Length, pq.entries.Keys)
      invariant SliceRun(rs, vcf, readMap, maxCov, corrected,
                         SliceState(pq.entries, cov.coverage[..], alreadyCovered, inSlice, violating, order)) ==
                SliceRun(rs, vcf, readMap, maxCov, corrected, start)
      decreases pq.entries.Keys
    {
      ghost var before := SliceState(pq.entries, cov.coverage[..], alreadyCovered, inSlice, violating, order);
      var item;
      inSlice, violating, order, alreadyCovered, item :=
        SlicePop(pq, cov, maxCov, corrected, rs, vcf, readMap, inSlice, violating, order, alreadyCovered);
      SliceRunStep(rs, vcf, readMap, maxCov, corrected, before, item);
      empty := pq.IsEmpty();
    }
  }

  /**
   * One iteration of the loop of `slice_read_selection`: pop the top entry and classify its read,
   * exactly as `PopSlice` does.
   */
  method SlicePop(pq: PriorityQueue, cov: CovMonitor, maxCov: int, corrected: bool, rs: seq<Read>,
                  vcf: map<int, nat>, readMap: map<nat, seq<nat>>, inSlice: set<nat>, violating: set<nat>,
                  ghost order: seq<nat>, alreadyCovered: set<int>)
    returns (inSlice': set<nat>, violating': set<nat>, ghost order': seq<nat>, alreadyCovered': set<int>,
             item: nat)
    requires pq.entries != map[]
    requires AllPlaced(rs, vcf, cov.coverage.Length, pq.entries.Keys)
    modifies pq, cov.coverage
    ensures IsTop(old(pq.entries), item)
    ensures SliceState(pq.entries, cov.coverage[..], alreadyCovered', inSlice', violating', order') ==
      PopSlice(rs, vcf, readMap, maxCov, corrected,
               SliceState(old(pq.entries), old(cov.coverage[..]), alreadyCovered, inSlice, violating, order), item)
  {
    ghost var s := SliceState(pq.entries, cov.coverage[..], alreadyCovered, inSlice, violating, order);
    var maxScore;
    maxScore, item := pq.Pop();
    var read := rs[item];
    assert Placed(read, vcf, |s.counts|) && read[0].position in vcf && read[|read| - 1].position in vcf;
    var newly, coversNew := NewPositions(read, alreadyCovered);
    var begin := Begin(read, vcf);
    var end := End(read, vcf);
    var m := cov.MaxCoverageInRange(begin, end);
    inSlice', violating', order', alreadyCovered' := inSlice, violating, order, alreadyCovered;
    if m >= maxCov {
      violating' := violating + {item};
    } else if coversNew {
      cov.AddRead(begin, end);
      inSlice' := inSlice + {item};
      order' := order + [item];
      var affected;
      alreadyCovered', affected := CoverPositions(newly, alreadyCovered, vcf, readMap);
      var dset := affected - inSlice';
      RescoreReads(pq, rs, dset, newly, corrected);
    }
  }

  /** Accepting read `item` adds its span to the counters, keeps the cap and keeps violators violating. */
  lemma SliceAcceptCoverage(before: seq<nat>, after: seq<nat>, counts0: seq<nat>, maxCov: int, rs: seq<Read>,
                            vcf: map<int, nat>, order: seq<nat>, item: nat, violating: set<nat>)
    requires |counts0| == |before|
    requires forall k :: 0 <= k < |order| ==> order[k] < |rs| && Placed(rs[order[k]], vcf, |before|)
    requires item < |rs| && Placed(rs[item], vcf, |before|)
    requires before == AddSpans(counts0, rs, vcf, order)
    requires Capped(counts0, maxCov) ==> Capped(before, maxCov)
    requires RangeMax(before, Begin(rs[item], vcf), End(rs[item], vcf)) < maxCov
    requires after == AddSpan(before, Begin(rs[item], vcf), End(rs[item], vcf))
    requires AllPlaced(rs, vcf, |before|, violating)
    requires forall i :: i in violating ==> RangeMax(before, Begin(rs[i], vcf), End(rs[i], vcf)) >= maxCov
    ensures after == AddSpans(counts0, rs, vcf, order + [item])
    ensures Capped(counts0, maxCov) ==> Capped(after, maxCov)
    ensures forall i :: i in violating ==> RangeMax(after, Begin(rs[i], vcf), End(rs[i], vcf)) >= maxCov
  {
    AddSpansSnoc(counts0, rs, vcf, order, item);
    if Capped(counts0, maxCov) {
      AddSpanKeepsCap(before, Begin(rs[item], vcf), End(rs[item], vcf), maxCov);
    }
    forall i | i in violating
      ensures RangeMax(after, Begin(rs[i], vcf), End(rs[i], vcf)) >= maxCov
    {
      RangeMaxMonotone(before, after, Begin(rs[i], vcf), End(rs[i], vcf));
    }
  }

  /** Appending a read not yet in `order` keeps the entries distinct and adds it to their set. */
  lemma OrderSnoc(order: seq<nat>, item: nat)
    requires item !in SetOf(order) && Distinct(order)
    ensures SetOf(order + [item]) == SetOf(order) + {item} && Distinct(order + [item])
  {
    var o := order + [item];
    forall x | x in SetOf(o) ensures x in SetOf(order) + {item} {
      var k :| 0 <= k < |o| && o[k] == x;
      if k < |order| {
        assert order[k] == x;
      }
    }
    forall x | x in SetOf(order) ensures x in SetOf(o) {
      var k :| 0 <= k < |order| && order[k] == x;
      assert o[k] == x;
    }
    assert o[|order|] == item;
    forall k, l | 0 <= k < l < |o| ensures o[k] != o[l] {
      if l == |order| {
        assert o[k] == order[k];
        assert order[k] in SetOf(order);
      }
    }
  }

  /** Appending an accepted read to the acceptance order: it adds a new position, and the covered set grows by it. */
  lemma SliceAcceptOrder(rs: seq<Read>, order: seq<nat>, item: nat, covered: set<int>, newly: set<int>)
    requires forall k :: 0 <= k < |order| ==> order[k] < |rs|
    requires item < |rs| && item !in SetOf(order) && Distinct(order)
    requires covered == CoveredBy(rs, order)
    requires newly == PositionSet(rs[item]) - covered && newly != {}
    requires EachAddsPosition(rs, order)
    ensures SetOf(order + [item]) == SetOf(order) + {item} && Distinct(order + [item])
    ensures covered + newly == CoveredBy(rs, order + [item])
    ensures EachAddsPosition(rs, order + [item])
  {
    var o := order + [item];
    CoveredBySnoc(rs, order, item);
    OrderSnoc(order, item);
    assert o[..|order|] == order;
    forall k | 0 <= k < |order| ensures o[..k] == order[..k] {
    }
  }
}
