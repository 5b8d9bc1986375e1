/**
 * `readselection`: slices are selected until no read is undecided; with bridging on, each
 * round also admits undecided reads that join two components of the reads selected so far in
 * that round.
 */
module Selection {
  import opened Wrappers
  import opened Reads
  import opened Indexing
  import opened Scoring
  import opened PriorityQueues
  import opened Coverage
  import opened Graph
  import opened Slice
  import opened Bridging

  /** `undecided_reads` at the start: the reads with at least two variants. */
  function Candidates(rs: seq<Read>): set<nat> {
    set i: nat | 0 <= i < |rs| && |rs[i]| >= 2
  }

  /** What `readselection` returns: the selected reads, the component of each position, and the skipped-read count. */
  datatype Selection = Selection(selected: set<nat>, components: map<int, int>, stats: int)

  /** The run ends with `component_finder` never bound. */
  datatype SelectionError = UnboundComponentFinder

  function Zeros(n: nat): (z: seq<nat>)
    ensures |z| == n && forall i :: 0 <= i < n ==> z[i] == 0
  {
    seq(n, i => 0)
  }

  /** The span of read `i` reaches the cap on some counter. */
  ghost predicate Blocked(rs: seq<Read>, vcf: map<int, nat>, maxCov: int, counts: seq<nat>, i: nat) {
    i < |rs| && Placed(rs[i], vcf, |counts|) &&
    RangeMax(counts, Begin(rs[i], vcf), End(rs[i], vcf)) >= maxCov
  }

  /**
   * The state between rounds: the undecided and selected reads are disjoint candidates, `order`
   * lists the selected reads in selection order, the counters are the spans of the selected reads
   * added to zero counters, they never exceed a non-negative cap, and every candidate that is
   * neither undecided nor selected has a span that reaches the cap.
   */
  ghost predicate RoundInv(rs: seq<Read>, vcf: map<int, nat>, n: nat, maxCov: int, undecided: set<nat>,
                           selected: set<nat>, order: seq<nat>, counts: seq<nat>)
  {
    undecided <= Candidates(rs) && selected <= Candidates(rs) && undecided !! selected &&
    SetOf(order) == selected && Distinct(order) &&
    (forall k :: 0 <= k < |order| ==> order[k] < |rs| && Placed(rs[order[k]], vcf, n)) &&
    counts == AddSpans(Zeros(n), rs, vcf, order) &&
    (0 <= maxCov ==> Capped(counts, maxCov)) &&
    (forall i :: i in Candidates(rs) && i !in undecided && i !in selected ==> Blocked(rs, vcf, maxCov, counts, i))
  }

  /** Adding spans only raises counters. */
  lemma {:induction false} AddSpansAtMost(s: seq<nat>, rs: seq<Read>, vcf: map<int, nat>, order: seq<nat>)
    requires forall k :: 0 <= k < |order| ==> order[k] < |rs| && Placed(rs[order[k]], vcf, |s|)
    ensures AtMost(s, AddSpans(s, rs, vcf, order))
    decreases |order|
  {
    if order != [] {
      AddSpansAtMost(s, rs, vcf, order[..|order| - 1]);
    }
  }

  /** A span that reached the cap still reaches it once more spans are added. */
  lemma StillBlocked(rs: seq<Read>, vcf: map<int, nat>, maxCov: int, counts: seq<nat>, counts': seq<nat>,
                     i: nat)
    requires Blocked(rs, vcf, maxCov, counts, i) && AtMost(counts, counts')
    ensures Blocked(rs, vcf, maxCov, counts', i)
  {
    var read := rs[i];
    assert read[0].position in vcf && read[|read| - 1].position in vcf;
    RangeMaxMonotone(counts, counts', Begin(read, vcf), End(read, vcf));
  }

  /** Applying the spans of `first` and then those of `second` applies those of `first + second`. */
  lemma {:induction false} AddSpansAppend(s: seq<nat>, rs: seq<Read>, vcf: map<int, nat>, first: seq<nat>,
                                          second: seq<nat>)
    requires forall k :: 0 <= k < |first| ==> first[k] < |rs| && Placed(rs[first[k]], vcf, |s|)
    requires forall k :: 0 <= k < |second| ==> second[k] < |rs| && Placed(rs[second[k]], vcf, |s|)
    ensures AddSpans(AddSpans(s, rs, vcf, first), rs, vcf, second) == AddSpans(s, rs, vcf, first + second)
    decreases |second|
  {
    var both := first + second;
    if second == [] {
      assert both == first;
    } else {
      var init := second[..|second| - 1];
      var item := second[|second| - 1];
      AddSpansAppend(s, rs, vcf, first, init);
      assert both[..|both| - 1] == first + init;
      assert both[|both| - 1] == item;
    }
  }

  /** Concatenating two orders with disjoint entries keeps them distinct and unites their sets. */
  lemma AppendOrders(first: seq<nat>, second: seq<nat>)
    requires Distinct(first) && Distinct(second) && SetOf(first) !! SetOf(second)
    ensures SetOf(first + second) == SetOf(first) + SetOf(second)
    ensures Distinct(first + second)
  {
    var both := first + second;
    forall x | x in SetOf(both) ensures x in SetOf(first) + SetOf(second) {
      var k :| 0 <= k < |both| && both[k] == x;
      if k < |first| {
        assert first[k] == x;
      } else {
        assert second[k - |first|] == x;
      }
    }
    forall x | x in SetOf(first) + SetOf(second) ensures x in SetOf(both) {
      if x in SetOf(first) {
        var k :| 0 <= k < |first| && first[k] == x;
        assert both[k] == x;
      } else {
        var k :| 0 <= k < |second| && second[k] == x;
        assert both[|first| + k] == x;
      }
    }
    forall k, l | 0 <= k < l < |both| ensures both[k] != both[l] {
      if k < |first| && l >= |first| {
        assert both[k] == first[k] && first[k] in SetOf(first);
        assert both[l] == second[l - |first|] && second[l - |first|] in SetOf(second);
      } else if k >= |first| {
        assert both[k] == second[k - |first|] && both[l] == second[l - |first|];
      }
    }
  }

  /** Nothing is decided or counted before the first round. */
  lemma RoundStart(rs: seq<Read>, vcf: map<int, nat>, n: nat, maxCov: int, counts: seq<nat>)
    requires counts == Zeros(n)
    ensures RoundInv(rs, vcf, n, maxCov, Candidates(rs), {}, [], counts)
  {
  }

  /**
   * A candidate that leaves the undecided reads without being selected is blocked: a read
   * blocked before stays blocked once more spans are counted, and `newlyBlocked` are blocked on
   * the new counters.
   */
  lemma BlockedAfter(rs: seq<Read>, vcf: map<int, nat>, maxCov: int, undecided: set<nat>, selected: set<nat>,
                     counts: seq<nat>, undecided': set<nat>, selected': set<nat>, counts': seq<nat>,
                     added: seq<nat>, newlyBlocked: set<nat>)
    requires forall i :: i in Candidates(rs) && i !in undecided && i !in selected ==>
      Blocked(rs, vcf, maxCov, counts, i)
    requires forall k :: 0 <= k < |added| ==> added[k] < |rs| && Placed(rs[added[k]], vcf, |counts|)
    requires counts' == AddSpans(counts, rs, vcf, added)
    requires forall i :: i in newlyBlocked ==> Blocked(rs, vcf, maxCov, counts', i)
    requires selected <= selected' && undecided - undecided' - selected' <= newlyBlocked
    ensures forall i :: i in Candidates(rs) && i !in undecided' && i !in selected' ==>
      Blocked(rs, vcf, maxCov, counts', i)
  {
    AddSpansAtMost(counts, rs, vcf, added);
    forall i | i in Candidates(rs) && i !in undecided' && i !in selected'
      ensures Blocked(rs, vcf, maxCov, counts', i)
    {
      if i !in undecided {
        StillBlocked(rs, vcf, maxCov, counts, counts', i);
      }
    }
  }

  /**
   * After a slice over all undecided reads the accepted reads are selected and the accepted and
   * violating reads are no longer undecided; a slice over a non-empty queue decides some read.
   */
  lemma RoundAfterSlice(rs: seq<Read>, vcf: map<int, nat>, n: nat, maxCov: int, undecided: set<nat>,
                        selected: set<nat>, order: seq<nat>, counts: seq<nat>, inSlice: set<nat>,
                        violating: set<nat>, sliceOrder: seq<nat>, counts': seq<nat>)
    requires RoundInv(rs, vcf, n, maxCov, undecided, selected, order, counts)
    requires forall k :: 0 <= k < |sliceOrder| ==> sliceOrder[k] < |rs|
    requires SliceInv(rs, vcf, maxCov, undecided, {}, counts, counts', inSlice, violating, sliceOrder,
                      CoveredBy(rs, sliceOrder))
    ensures RoundInv(rs, vcf, n, maxCov, undecided - inSlice - violating, selected + inSlice,
                     order + sliceOrder, counts')
    ensures inSlice <= undecided && violating <= undecided
    ensures undecided != {} ==> undecided - inSlice - violating < undecided
  {
    AppendOrders(order, sliceOrder);
    AddSpansAppend(Zeros(n), rs, vcf, order, sliceOrder);
    assert forall i :: i in violating ==> Blocked(rs, vcf, maxCov, counts', i);
    BlockedAfter(rs, vcf, maxCov, undecided, selected, counts, undecided - inSlice - violating, selected + inSlice,
                 counts', sliceOrder, violating);
    if undecided != {} {
      assert inSlice + violating != {};
      var x :| x in inSlice + violating;
      assert x !in undecided - inSlice - violating;
    }
  }

  /** After the bridging pass the bridging reads are selected and the violating ones no longer undecided. */
  lemma RoundAfterBridging(rs: seq<Read>, vcf: map<int, nat>, n: nat, maxCov: int, undecided: set<nat>,
                           selected: set<nat>, order: seq<nat>, counts: seq<nat>, undecided': set<nat>,
                           bridging: set<nat>, bridgeOrder: seq<nat>, counts': seq<nat>,
                           rep0: map<int, int>, rep: map<int, int>)
    requires RoundInv(rs, vcf, n, maxCov, undecided, selected, order, counts)
    requires BridgeInv(rs, vcf, maxCov, undecided, {}, undecided', bridging, bridgeOrder, counts, counts',
                       rep0, rep)
    ensures RoundInv(rs, vcf, n, maxCov, undecided', selected + bridging, order + bridgeOrder, counts')
    ensures undecided' <= undecided && bridging <= undecided
  {
    AppendOrders(order, bridgeOrder);
    AddSpansAppend(Zeros(n), rs, vcf, order, bridgeOrder);
    var removed := undecided - undecided' - bridging;
    assert forall i :: i in removed ==> Blocked(rs, vcf, maxCov, counts', i);
    BlockedAfter(rs, vcf, maxCov, undecided, selected, counts, undecided', selected + bridging, counts',
                 bridgeOrder, removed);
  }

  /** Every candidate read can be placed on the counters of the indexed positions. */
  lemma CandidatesPlaced(rs: seq<Read>, positions: seq<int>, vcf: map<int, nat>)
    requires WellFormed(rs) && Indexes(positions, vcf) && Elems(positions) == AllPositions(rs)
    ensures AllPlaced(rs, vcf, |positions|, Candidates(rs))
  {
    forall i | i in Candidates(rs) ensures i < |rs| && Placed(rs[i], vcf, |positions|) {
      ReadsArePlaced(rs, positions, vcf, i);
    }
  }

  /** Without any variant position there is no candidate: a candidate has a variant. */
  lemma NoPositionsNoCandidates(rs: seq<Read>)
    requires AllPositions(rs) == {}
    ensures Candidates(rs) == {}
  {
    forall i | i in Candidates(rs) ensures rs[i][0].position in AllPositions(rs) {
      AllPositionsContains(rs, i);
      assert rs[i][0].position in PositionSet(rs[i]);
    }
  }

  /** A placed read has a score: all of its positions are indexed. */
  lemma PlacedScored(rs: seq<Read>, vcf: map<int, nat>, n: nat, items: set<nat>)
    requires AllPlaced(rs, vcf, n, items)
    ensures forall i :: i in items ==> i < |rs| && CoveredIndices(rs[i], vcf) != []
  {
  }

  /** A placed read is known to a component finder over the indexed positions. */
  lemma PlacedKnown(rs: seq<Read>, vcf: map<int, nat>, n: nat, items: set<nat>, rep: map<int, int>)
    requires AllPlaced(rs, vcf, n, items) && rep.Keys == vcf.Keys
    ensures AllKnown(rs, rep, items)
    ensures forall i :: i in items ==> i < |rs| && rs[i] != [] && Known(rep, rs[i])
  {
  }

  lemma PlacedSubset(rs: seq<Read>, vcf: map<int, nat>, n: nat, items: set<nat>, sub: set<nat>)
    requires AllPlaced(rs, vcf, n, items) && sub <= items
    ensures AllPlaced(rs, vcf, n, sub)
  {
  }

  /**
   * The reads selected in a round each lie in one component of the round's finder: the slice
   * reads were merged first, the bridging pass only merges further, and it leaves each bridging
   * read in one component.
   */
  lemma RoundComponents(rs: seq<Read>, vcf: map<int, nat>, maxCov: int, undecided: set<nat>,
                        inSlice: set<nat>, undecided': set<nat>, bridging: set<nat>, bridgeOrder: seq<nat>,
                        counts: seq<nat>, counts': seq<nat>, rep1: map<int, int>, rep: map<int, int>)
    requires forall i :: i in inSlice ==> i < |rs| && Known(rep1, rs[i]) && OneComponent(rep1, rs[i])
    requires BridgeInv(rs, vcf, maxCov, undecided, {}, undecided', bridging, bridgeOrder, counts, counts',
                       rep1, rep)
    ensures forall i :: i in inSlice + bridging ==> i < |rs| && Known(rep, rs[i]) && OneComponent(rep, rs[i])
  {
    forall i | i in inSlice ensures Known(rep, rs[i]) && OneComponent(rep, rs[i]) {
      CoarserKeepsOneComponent(rep1, rep, rs[i]);
    }
  }

  /**
   * What one round decided: the slice's accepted and violating reads, accepted in `sliceOrder`,
   * and its counters; the order `mergeOrder` in which the merge loop took the accepted reads; the
   * bridging reads, selected in `bridgeOrder`.
   */
  datatype RoundTrace = RoundTrace(inSlice: set<nat>, violating: set<nat>, sliceOrder: seq<nat>,
                                   sliceCounts: seq<nat>, mergeOrder: seq<nat>, bridging: set<nat>,
                                   bridgeOrder: seq<nat>)

  /**
   * One iteration of the `while` loop of `readselection`, from the undecided reads and the
   * counters to `undecided'`, `counts'` and the components `rep'`: the slice runs over the queue of
   * every undecided read with nothing covered; a fresh component finder merges the accepted reads
   * in some order; with bridging on, the bridging block runs over the queue of the reads still
   * undecided, from the slice's counters and those components; with bridging off nothing else
   * changes.
   */
  ghost predicate RoundSpec(rs: seq<Read>, vcf: map<int, nat>, readMap: map<nat, seq<nat>>, maxCov: int,
                            corrected: bool, bridging: bool, undecided: set<nat>, counts: seq<nat>,
                            t: RoundTrace, undecided': set<nat>, counts': seq<nat>, rep': map<int, int>)
  {
    AllPlaced(rs, vcf, |counts|, undecided) &&
    (forall k :: 0 <= k < |t.sliceOrder| ==> t.sliceOrder[k] < |rs|) &&
    SliceRun(rs, vcf, readMap, maxCov, corrected, SliceState(Queue(rs, vcf, undecided), counts, {}, {}, {}, [])) ==
      SliceState(map[], t.sliceCounts, CoveredBy(rs, t.sliceOrder), t.inSlice, t.violating, t.sliceOrder) &&
    SetOf(t.mergeOrder) == t.inSlice && Distinct(t.mergeOrder) &&
    (forall k :: 0 <= k < |t.mergeOrder| ==> t.mergeOrder[k] < |rs|) &&
    (var left := undecided - t.inSlice - t.violating;
     var merged := MergeFold(Identity(vcf.Keys), rs, t.mergeOrder);
     if bridging then
       ValidRep(merged) && |t.sliceCounts| == |counts| && AllKnown(rs, merged, left) &&
       BridgeRun(rs, vcf, maxCov, BridgeState(Queue(rs, vcf, left), t.sliceCounts, merged, left, {}, [])) ==
         BridgeState(map[], counts', rep', undecided', t.bridging, t.bridgeOrder)
     else
       undecided' == left && counts' == t.sliceCounts && rep' == merged && t.bridging == {} && t.bridgeOrder == [])
  }

  /**
   * One iteration of the `while` loop of `readselection`: a slice over the undecided reads, a
   * fresh component finder over the reads of the slice, and, with bridging on, the bridging pass.
   * It does what `RoundSpec` describes; the reads it selects are merged into the finder's
   * components in the order `t.mergeOrder + t.bridgeOrder`.
   */
  method SelectionRound(cov: CovMonitor, maxCov: int, corrected: bool, bridging: bool, rs: seq<Read>,
                        positions: seq<int>, vcf: map<int, nat>, readMap: map<nat, seq<nat>>,
                        undecided: set<nat>, selected: set<nat>, ghost order: seq<nat>, ghost run: Run)
    returns (undecided': set<nat>, selected': set<nat>, finder: ComponentFinder, ghost t: RoundTrace,
             ghost run': Run)
    requires vcf.Keys == Elems(positions) && cov.coverage.Length == |positions|
    requires AllPlaced(rs, vcf, |positions|, Candidates(rs))
    requires RoundInv(rs, vcf, |positions|, maxCov, undecided, selected, order, cov.coverage[..])
    requires Tracked(rs, maxCov, corrected, bridging, run, undecided, cov.coverage[..], selected)
    requires run.vcf == vcf && run.readMap == readMap && undecided != {}
    modifies cov.coverage
    ensures fresh(finder) && finder.Valid() && finder.rep.Keys == Elems(positions)
    ensures RoundSpec(rs, vcf, readMap, maxCov, corrected, bridging, undecided, old(cov.coverage[..]), t,
                      undecided', cov.coverage[..], finder.rep)
    ensures selected' == selected + t.inSlice + t.bridging
    ensures RoundInv(rs, vcf, |positions|, maxCov, undecided', selected', order + t.sliceOrder + t.bridgeOrder,
                     cov.coverage[..])
    ensures undecided' < undecided
    ensures run' == Extend(run, undecided', cov.coverage[..], t, finder.rep)
    ensures Tracked(rs, maxCov, corrected, bridging, run', undecided', cov.coverage[..], selected')
    ensures run'.rounds != [] && run'.reps != [] && finder.rep == run'.reps[|run'.reps| - 1]
    ensures MergedInOrder(rs, vcf.Keys, LastChosen(run'.rounds), LastMerges(run'.rounds), finder.rep)
  {
    PlacedSubset(rs, vcf, |positions|, Candidates(rs), undecided);
    ghost var counts := cov.coverage[..];
    var inSlice, violating;
    ghost var sliceOrder, mergeOrder;
    inSlice, violating, finder, sliceOrder, mergeOrder :=
      SliceAndMerge(cov, maxCov, corrected, rs, positions, vcf, readMap, undecided);
    selected' := selected + inSlice;
    undecided' := undecided - inSlice;
    undecided' := undecided' - violating;
    ghost var sliceCounts := cov.coverage[..];
    ghost var merged := finder.rep;
    ghost var left := undecided';
    var bridgingReads;
    ghost var bridgeOrder;
    undecided', selected', bridgingReads, bridgeOrder :=
      MaybeBridge(cov, finder, maxCov, bridging, rs, positions, vcf, undecided', selected', inSlice);
    t := RoundTrace(inSlice, violating, sliceOrder, sliceCounts, mergeOrder, bridgingReads, bridgeOrder);
    RoundSpecHolds(rs, vcf, readMap, maxCov, corrected, bridging, undecided, counts, t, left, undecided',
                   cov.coverage[..], merged, finder.rep);
    RoundMerges(rs, vcf.Keys, inSlice, bridgingReads, mergeOrder, bridgeOrder, merged, finder.rep);
    run' := Extend(run, undecided', cov.coverage[..], t, finder.rep);
    RoundStep(rs, vcf, readMap, |positions|, maxCov, corrected, bridging, run, run', undecided, selected, order,
              counts, t, undecided', cov.coverage[..], finder.rep);
  }

  /** The slice of a round over every undecided read, and the merge loop over its reads into a fresh component finder. */
  method SliceAndMerge(cov: CovMonitor, maxCov: int, corrected: bool, rs: seq<Read>, positions: seq<int>,
                       vcf: map<int, nat>, readMap: map<nat, seq<nat>>, undecided: set<nat>)
    returns (inSlice: set<nat>, violating: set<nat>, finder: ComponentFinder, ghost sliceOrder: seq<nat>,
             ghost mergeOrder: seq<nat>)
    requires vcf.Keys == Elems(positions) && cov.coverage.Length == |positions|
    requires AllPlaced(rs, vcf, |positions|, undecided)
    modifies cov.coverage
    ensures fresh(finder) && finder.Valid() && finder.rep.Keys == Elems(positions)
    ensures forall k :: 0 <= k < |sliceOrder| ==> sliceOrder[k] < |rs|
    ensures SliceRun(rs, vcf, readMap, maxCov, corrected,
                     SliceState(Queue(rs, vcf, undecided), old(cov.coverage[..]), {}, {}, {}, [])) ==
            SliceState(map[], cov.coverage[..], CoveredBy(rs, sliceOrder), inSlice, violating, sliceOrder)
    ensures inSlice <= undecided
    ensures SetOf(mergeOrder) == inSlice && Distinct(mergeOrder)
    ensures forall k :: 0 <= k < |mergeOrder| ==> mergeOrder[k] < |rs|
    ensures finder.rep == MergeFold(Identity(vcf.Keys), rs, mergeOrder)
    ensures forall i :: i in inSlice ==> i < |rs| && Known(finder.rep, rs[i]) && OneComponent(finder.rep, rs[i])
  {
    PlacedScored(rs, vcf, |positions|, undecided);
    var pq := PqConstruction(rs, undecided, vcf);
    inSlice, violating, sliceOrder := SliceReadSelection(pq, cov, maxCov, corrected, rs, vcf, readMap);
    finder := new ComponentFinder(positions);
    assert Identity(Elems(positions)) == Identity(vcf.Keys);
    PlacedSubset(rs, vcf, |positions|, undecided, inSlice);
    PlacedKnown(rs, vcf, |positions|, inSlice, finder.rep);
    mergeOrder := MergeReads(finder, rs, inSlice);
  }

  /** The bridging block when bridging is on; with bridging off nothing changes. */
  method MaybeBridge(cov: CovMonitor, finder: ComponentFinder, maxCov: int, bridging: bool, rs: seq<Read>,
                     positions: seq<int>, vcf: map<int, nat>, undecided: set<nat>, selected: set<nat>,
                     ghost inSlice: set<nat>)
    returns (undecided': set<nat>, selected': set<nat>, bridgingReads: set<nat>, ghost bridgeOrder: seq<nat>)
    requires vcf.Keys == Elems(positions) && cov.coverage.Length == |positions|
    requires finder.Valid() && finder.rep.Keys == Elems(positions)
    requires AllPlaced(rs, vcf, |positions|, undecided)
    requires forall i :: i in inSlice ==> i < |rs| && Known(finder.rep, rs[i]) && OneComponent(finder.rep, rs[i])
    modifies cov.coverage, finder
    ensures finder.Valid() && finder.rep.Keys == Elems(positions)
    ensures forall i :: i in inSlice + bridgingReads ==>
      i < |rs| && Known(finder.rep, rs[i]) && OneComponent(finder.rep, rs[i])
    ensures bridging ==> AllKnown(rs, old(finder.rep), undecided)
    ensures bridging ==>
      BridgeRun(rs, vcf, maxCov, BridgeState(Queue(rs, vcf, undecided), old(cov.coverage[..]), old(finder.rep),
                                             undecided, {}, [])) ==
      BridgeState(map[], cov.coverage[..], finder.rep, undecided', bridgingReads, bridgeOrder)
    ensures !bridging ==>
      undecided' == undecided && cov.coverage[..] == old(cov.coverage[..]) && finder.rep == old(finder.rep) &&
      bridgingReads == {} && bridgeOrder == []
    ensures forall k :: 0 <= k < |bridgeOrder| ==> bridgeOrder[k] < |rs|
    ensures finder.rep == MergeFold(old(finder.rep), rs, bridgeOrder)
    ensures SetOf(bridgeOrder) == bridgingReads && Distinct(bridgeOrder)
    ensures selected' == selected + bridgingReads && bridgingReads <= undecided
  {
    if bridging {
      undecided', selected', bridgingReads, bridgeOrder :=
        RoundBridging(cov, finder, maxCov, rs, positions, vcf, undecided, selected, inSlice);
    } else {
      undecided', selected', bridgingReads, bridgeOrder := undecided, selected, {}, [];
    }
  }

  /** The bridging pass of a round, over the reads the slice left undecided. */
  method RoundBridging(cov: CovMonitor, finder: ComponentFinder, maxCov: int, rs: seq<Read>, positions: seq<int>,
                       vcf: map<int, nat>, undecided: set<nat>, selected: set<nat>, ghost inSlice: set<nat>)
    returns (undecided': set<nat>, selected': set<nat>, bridgingReads: set<nat>, ghost bridgeOrder: seq<nat>)
    requires vcf.Keys == Elems(positions) && cov.coverage.Length == |positions|
    requires finder.Valid() && finder.rep.Keys == Elems(positions)
    requires AllPlaced(rs, vcf, |positions|, undecided)
    requires forall i :: i in inSlice ==> i < |rs| && Known(finder.rep, rs[i]) && OneComponent(finder.rep, rs[i])
    modifies cov.coverage, finder
    ensures finder.Valid() && finder.rep.Keys == Elems(positions)
    ensures forall i :: i in inSlice + bridgingReads ==>
      i < |rs| && Known(finder.rep, rs[i]) && OneComponent(finder.rep, rs[i])
    ensures AllKnown(rs, old(finder.rep), undecided)
    ensures BridgeRun(rs, vcf, maxCov, BridgeState(Queue(rs, vcf, undecided), old(cov.coverage[..]), old(finder.rep),
                                                   undecided, {}, [])) ==
            BridgeState(map[], cov.coverage[..], finder.rep, undecided', bridgingReads, bridgeOrder)
    ensures forall k :: 0 <= k < |bridgeOrder| ==> bridgeOrder[k] < |rs|
    ensures finder.rep == MergeFold(old(finder.rep), rs, bridgeOrder)
    ensures SetOf(bridgeOrder) == bridgingReads && Distinct(bridgeOrder)
    ensures selected' == selected + bridgingReads && bridgingReads <= undecided
  {
    ghost var counts := cov.coverage[..];
    ghost var rep := finder.rep;
    PlacedScored(rs, vcf, |positions|, undecided);
    PlacedKnown(rs, vcf, |positions|, undecided, finder.rep);
    var pq := PqConstruction(rs, undecided, vcf);
    undecided', selected', bridgingReads, bridgeOrder :=
      BridgingPass(pq, cov, finder, maxCov, rs, vcf, undecided, selected);
    RoundComponents(rs, vcf, maxCov, undecided, inSlice, undecided', bridgingReads, bridgeOrder, counts,
                    cov.coverage[..], rep, finder.rep);
  }

  /**
   * `rep` is what merging the reads of `chosen`, one after the other in the order `order`, into
   * fresh components over `values` gives, and each of those reads lies in one component.
   */
  ghost predicate MergedInOrder(rs: seq<Read>, values: set<int>, chosen: set<nat>, order: seq<nat>,
                                rep: map<int, int>)
  {
    SetOf(order) == chosen && Distinct(order) && (forall k :: 0 <= k < |order| ==> order[k] < |rs|) &&
    rep == MergeFold(Identity(values), rs, order) &&
    (forall i :: i in chosen ==> i < |rs| && Known(rep, rs[i]) && OneComponent(rep, rs[i]))
  }

  /**
   * The merge orders of the slice and of the bridging pass, one after the other, list the reads the
   * round selected, and merging them from fresh components gives the round's components.
   */
  lemma RoundMerges(rs: seq<Read>, values: set<int>, inSlice: set<nat>, bridging: set<nat>,
                    mergeOrder: seq<nat>, bridgeOrder: seq<nat>, merged: map<int, int>, rep: map<int, int>)
    requires forall k :: 0 <= k < |mergeOrder| ==> mergeOrder[k] < |rs|
    requires forall k :: 0 <= k < |bridgeOrder| ==> bridgeOrder[k] < |rs|
    requires SetOf(mergeOrder) == inSlice && Distinct(mergeOrder)
    requires SetOf(bridgeOrder) == bridging && Distinct(bridgeOrder)
    requires inSlice !! bridging
    requires merged == MergeFold(Identity(values), rs, mergeOrder) && rep == MergeFold(merged, rs, bridgeOrder)
    requires forall i :: i in inSlice + bridging ==> i < |rs| && Known(rep, rs[i]) && OneComponent(rep, rs[i])
    ensures MergedInOrder(rs, values, inSlice + bridging, mergeOrder + bridgeOrder, rep)
  {
    MergeFoldAppend(Identity(values), rs, mergeOrder, bridgeOrder);
    AppendOrders(mergeOrder, bridgeOrder);
  }

  lemma ShrinksStrictly(a: set<nat>, b: set<nat>, c: set<nat>)
    requires a <= b < c
    ensures a < c
  {
  }

  /** The facts the methods of a round establish add up to `RoundSpec`; `left` are the reads the slice left undecided. */
  lemma RoundSpecHolds(rs: seq<Read>, vcf: map<int, nat>, readMap: map<nat, seq<nat>>, maxCov: int,
                       corrected: bool, bridging: bool, undecided: set<nat>, counts: seq<nat>, t: RoundTrace,
                       left: set<nat>, undecided': set<nat>, counts': seq<nat>, merged: map<int, int>,
                       rep': map<int, int>)
    requires AllPlaced(rs, vcf, |counts|, undecided)
    requires forall k :: 0 <= k < |t.sliceOrder| ==> t.sliceOrder[k] < |rs|
    requires SliceRun(rs, vcf, readMap, maxCov, corrected, SliceState(Queue(rs, vcf, undecided), counts, {}, {}, {}, [])) ==
      SliceState(map[], t.sliceCounts, CoveredBy(rs, t.sliceOrder), t.inSlice, t.violating, t.sliceOrder)
    requires SetOf(t.mergeOrder) == t.inSlice && Distinct(t.mergeOrder)
    requires forall k :: 0 <= k < |t.mergeOrder| ==> t.mergeOrder[k] < |rs|
    requires merged == MergeFold(Identity(vcf.Keys), rs, t.mergeOrder) && ValidRep(merged)
    requires left == undecided - t.inSlice - t.violating
    requires bridging ==> |t.sliceCounts| == |counts| && AllKnown(rs, merged, left)
    requires bridging ==>
      BridgeRun(rs, vcf, maxCov, BridgeState(Queue(rs, vcf, left), t.sliceCounts, merged, left, {}, [])) ==
      BridgeState(map[], counts', rep', undecided', t.bridging, t.bridgeOrder)
    requires !bridging ==>
      undecided' == left && counts' == t.sliceCounts && rep' == merged && t.bridging == {} && t.bridgeOrder == []
    ensures RoundSpec(rs, vcf, readMap, maxCov, corrected, bridging, undecided, counts, t, undecided', counts', rep')
  {
  }

  /**
   * A round keeps the state between rounds consistent: the slice run keeps the slice invariant from
   * its start, the bridging run keeps the bridging invariant from its start, and together they move
   * the accepted and bridging reads to the selected ones, in order, and drop the violating ones. A
   * round over some undecided read decides at least one.
   */
  lemma RoundSpecKeeps(rs: seq<Read>, vcf: map<int, nat>, readMap: map<nat, seq<nat>>, n: nat, maxCov: int,
                       corrected: bool, bridging: bool, undecided: set<nat>, selected: set<nat>, order: seq<nat>,
                       counts: seq<nat>, t: RoundTrace, undecided': set<nat>, counts': seq<nat>, rep': map<int, int>)
    requires AllPlaced(rs, vcf, n, Candidates(rs))
    requires RoundInv(rs, vcf, n, maxCov, undecided, selected, order, counts)
    requires RoundSpec(rs, vcf, readMap, maxCov, corrected, bridging, undecided, counts, t, undecided', counts', rep')
    ensures RoundInv(rs, vcf, n, maxCov, undecided', selected + t.inSlice + t.bridging,
                     order + t.sliceOrder + t.bridgeOrder, counts')
    ensures undecided' <= undecided && (undecided != {} ==> undecided' < undecided)
  {
    var left := undecided - t.inSlice - t.violating;
    SliceStageKeeps(rs, vcf, readMap, n, maxCov, corrected, undecided, selected, order, counts, t);
    if bridging {
      BridgeStageKeeps(rs, vcf, n, maxCov, left, selected + t.inSlice, order + t.sliceOrder, t.sliceCounts,
                       MergeFold(Identity(vcf.Keys), rs, t.mergeOrder), t.bridging, t.bridgeOrder,
                       undecided', counts', rep');
      if undecided != {} {
        ShrinksStrictly(undecided', left, undecided);
      }
    } else {
      NoBridgeStage(rs, vcf, n, maxCov, left, selected + t.inSlice, order + t.sliceOrder, t.sliceCounts,
                    t.bridging, t.bridgeOrder, undecided', counts');
    }
  }

  /** With bridging off the state after the slice is the state after the round. */
  lemma NoBridgeStage(rs: seq<Read>, vcf: map<int, nat>, n: nat, maxCov: int, left: set<nat>,
                      selected: set<nat>, order: seq<nat>, counts: seq<nat>, bridging: set<nat>,
                      bridgeOrder: seq<nat>, undecided': set<nat>, counts': seq<nat>)
    requires RoundInv(rs, vcf, n, maxCov, left, selected, order, counts)
    requires undecided' == left && counts' == counts && bridging == {} && bridgeOrder == []
    ensures RoundInv(rs, vcf, n, maxCov, undecided', selected + bridging, order + bridgeOrder, counts')
  {
    assert selected + bridging == selected && order + bridgeOrder == order;
  }

  /** The slice invariant on a final state, whose queue is empty. */
  lemma SliceInvDone(rs: seq<Read>, vcf: map<int, nat>, maxCov: int, keys0: set<nat>, counts0: seq<nat>,
                     s: SliceState)
    requires SliceInvAt(rs, vcf, maxCov, keys0, counts0, s) && s.queue == map[]
    ensures SliceInv(rs, vcf, maxCov, keys0, {}, counts0, s.counts, s.inSlice, s.violating, s.order, s.covered)
  {
    assert s.queue.Keys == {};
  }

  /** The bridging invariant on a final state, whose queue is empty. */
  lemma BridgeInvDone(rs: seq<Read>, vcf: map<int, nat>, maxCov: int, keys0: set<nat>, counts0: seq<nat>,
                      rep0: map<int, int>, s: BridgeState)
    requires BridgeInvAt(rs, vcf, maxCov, keys0, counts0, rep0, s) && s.queue == map[]
    ensures BridgeInv(rs, vcf, maxCov, keys0, {}, s.undecided, s.bridging, s.order, counts0, s.counts, rep0, s.rep)
  {
    assert s.queue.Keys == {};
  }

  /** The slice of a round, run from its start, leaves the state between rounds consistent. */
  lemma SliceStageKeeps(rs: seq<Read>, vcf: map<int, nat>, readMap: map<nat, seq<nat>>, n: nat, maxCov: int,
                        corrected: bool, undecided: set<nat>, selected: set<nat>, order: seq<nat>,
                        counts: seq<nat>, t: RoundTrace)
    requires RoundInv(rs, vcf, n, maxCov, undecided, selected, order, counts)
    requires AllPlaced(rs, vcf, |counts|, undecided)
    requires forall k :: 0 <= k < |t.sliceOrder| ==> t.sliceOrder[k] < |rs|
    requires SliceRun(rs, vcf, readMap, maxCov, corrected, SliceState(Queue(rs, vcf, undecided), counts, {}, {}, {}, [])) ==
      SliceState(map[], t.sliceCounts, CoveredBy(rs, t.sliceOrder), t.inSlice, t.violating, t.sliceOrder)
    ensures RoundInv(rs, vcf, n, maxCov, undecided - t.inSlice - t.violating, selected + t.inSlice,
                     order + t.sliceOrder, t.sliceCounts)
    ensures undecided != {} ==> undecided - t.inSlice - t.violating < undecided
  {
    var start := SliceState(Queue(rs, vcf, undecided), counts, {}, {}, {}, []);
    SliceStart(rs, vcf, maxCov, undecided, counts);
    SliceRunKeeps(rs, vcf, readMap, maxCov, corrected, undecided, counts, start);
    SliceInvDone(rs, vcf, maxCov, undecided, counts, SliceRun(rs, vcf, readMap, maxCov, corrected, start));
    RoundAfterSlice(rs, vcf, n, maxCov, undecided, selected, order, counts, t.inSlice, t.violating, t.sliceOrder,
                    t.sliceCounts);
  }

  /** The bridging block of a round, run from its start, leaves the state between rounds consistent. */
  lemma BridgeStageKeeps(rs: seq<Read>, vcf: map<int, nat>, n: nat, maxCov: int, left: set<nat>,
                         selected: set<nat>, order: seq<nat>, counts: seq<nat>, merged: map<int, int>,
                         bridging: set<nat>, bridgeOrder: seq<nat>, undecided': set<nat>, counts': seq<nat>,
                         rep': map<int, int>)
    requires RoundInv(rs, vcf, n, maxCov, left, selected, order, counts)
    requires AllPlaced(rs, vcf, |counts|, left) && ValidRep(merged) && AllKnown(rs, merged, left)
    requires BridgeRun(rs, vcf, maxCov, BridgeState(Queue(rs, vcf, left), counts, merged, left, {}, [])) ==
      BridgeState(map[], counts', rep', undecided', bridging, bridgeOrder)
    ensures RoundInv(rs, vcf, n, maxCov, undecided', selected + bridging, order + bridgeOrder, counts')
    ensures undecided' <= left
  {
    var start := BridgeState(Queue(rs, vcf, left), counts, merged, left, {}, []);
    BridgeStart(rs, vcf, maxCov, left, left, left, {}, [], counts, counts, merged, merged);
    BridgeRunKeeps(rs, vcf, maxCov, left, counts, merged, start);
    BridgeInvDone(rs, vcf, maxCov, left, counts, merged, BridgeRun(rs, vcf, maxCov, start));
    RoundAfterBridging(rs, vcf, n, maxCov, left, selected, order, counts, undecided', bridging, bridgeOrder,
                       counts', merged, rep');
  }

  /**
   * A run of the `while` loop of `readselection` over the indexes `positions`, `vcf` and
   * `readMap`: `undecided[k]` and `counts[k]` are the undecided reads and the counters before
   * round k, `rounds[k]` is what round k did, and `reps[k]` are the components of its finder.
   */
  datatype Run = Run(positions: seq<int>, vcf: map<int, nat>, readMap: map<nat, seq<nat>>,
                     undecided: seq<set<nat>>, counts: seq<seq<nat>>, rounds: seq<RoundTrace>,
                     reps: seq<map<int, int>>)

  /**
   * The first `|run.rounds|` rounds of the loop: it starts with every candidate undecided and
   * zero counters, and each round runs on a non-empty undecided set and does what `RoundSpec`
   * describes, from the state the round before it left.
   */
  ghost predicate RoundsSoFar(rs: seq<Read>, maxCov: int, corrected: bool, bridging: bool, run: Run) {
    |run.undecided| == |run.rounds| + 1 && |run.counts| == |run.rounds| + 1 && |run.reps| == |run.rounds| &&
    run.undecided[0] == Candidates(rs) && run.counts[0] == Zeros(|run.positions|) &&
    forall k | 0 <= k < |run.rounds| :: RoundAt(rs, maxCov, corrected, bridging, run, k)
  }

  /** Round k of `run` runs on a non-empty undecided set and does what `RoundSpec` describes. */
  ghost predicate RoundAt(rs: seq<Read>, maxCov: int, corrected: bool, bridging: bool, run: Run, k: nat)
    requires k < |run.rounds| && |run.undecided| == |run.counts| == |run.rounds| + 1 && |run.reps| == |run.rounds|
  {
    run.undecided[k] != {} &&
    RoundSpec(rs, run.vcf, run.readMap, maxCov, corrected, bridging, run.undecided[k], run.counts[k],
              run.rounds[k], run.undecided[k + 1], run.counts[k + 1], run.reps[k])
  }

  /** The run with one more round, which left `undecided'` and `counts'` and whose finder has the components `rep'`. */
  function Extend(run: Run, undecided': set<nat>, counts': seq<nat>, t: RoundTrace, rep': map<int, int>): (r: Run)
    requires |run.undecided| == |run.counts| == |run.rounds| + 1 && |run.reps| == |run.rounds|
    ensures r.positions == run.positions && r.vcf == run.vcf && r.readMap == run.readMap
    ensures |r.undecided| == |r.counts| == |r.rounds| + 1 == |run.rounds| + 2 && |r.reps| == |r.rounds|
    ensures forall k | 0 <= k <= |run.rounds| :: r.undecided[k] == run.undecided[k] && r.counts[k] == run.counts[k]
    ensures forall k | 0 <= k < |run.rounds| :: r.rounds[k] == run.rounds[k] && r.reps[k] == run.reps[k]
    ensures r.undecided[|run.rounds| + 1] == undecided' && r.counts[|run.rounds| + 1] == counts'
    ensures r.rounds[|run.rounds|] == t && r.reps[|run.rounds|] == rep'
  {
    run.(undecided := run.undecided + [undecided'], counts := run.counts + [counts'], rounds := run.rounds + [t],
         reps := run.reps + [rep'])
  }

  /** The whole loop: its rounds, until no read is undecided. */
  ghost predicate RunOfRounds(rs: seq<Read>, maxCov: int, corrected: bool, bridging: bool, run: Run) {
    RoundsSoFar(rs, maxCov, corrected, bridging, run) && run.undecided[|run.rounds|] == {}
  }

  /** The reads the rounds selected: `selected_reads` grows by the slice and bridging reads of each round. */
  function Chosen(rounds: seq<RoundTrace>): set<nat>
    decreases |rounds|
  {
    if rounds == [] then {}
    else Chosen(rounds[..|rounds| - 1]) + rounds[|rounds| - 1].inSlice + rounds[|rounds| - 1].bridging
  }

  /** The reads the last round selected, which its finder merged. */
  function LastChosen(rounds: seq<RoundTrace>): set<nat> {
    if rounds == [] then {} else rounds[|rounds| - 1].inSlice + rounds[|rounds| - 1].bridging
  }

  /** The order in which the last round's finder merged its reads. */
  function LastMerges(rounds: seq<RoundTrace>): seq<nat> {
    if rounds == [] then [] else rounds[|rounds| - 1].mergeOrder + rounds[|rounds| - 1].bridgeOrder
  }

  /** A further round adds the reads it chose to those chosen before. */
  lemma ChosenSnoc(rounds: seq<RoundTrace>, t: RoundTrace)
    ensures Chosen(rounds + [t]) == Chosen(rounds) + t.inSlice + t.bridging
  {
    assert (rounds + [t])[..|rounds|] == rounds;
  }

  /** One more round, from the state the rounds so far left, extends the run. */
  lemma RoundsSnoc(rs: seq<Read>, vcf: map<int, nat>, readMap: map<nat, seq<nat>>, maxCov: int, corrected: bool,
                   bridging: bool, run: Run, undecided: set<nat>, counts: seq<nat>, t: RoundTrace,
                   undecided': set<nat>, counts': seq<nat>, rep': map<int, int>)
    requires RoundsSoFar(rs, maxCov, corrected, bridging, run) && run.vcf == vcf && run.readMap == readMap
    requires run.undecided[|run.rounds|] == undecided && run.counts[|run.rounds|] == counts && undecided != {}
    requires RoundSpec(rs, vcf, readMap, maxCov, corrected, bridging, undecided, counts, t, undecided', counts', rep')
    ensures RoundsSoFar(rs, maxCov, corrected, bridging, Extend(run, undecided', counts', t, rep'))
  {
    var run' := Extend(run, undecided', counts', t, rep');
    var n := |run.rounds|;
    forall k | 0 <= k < n + 1 ensures RoundAt(rs, maxCov, corrected, bridging, run', k) {
      if k < n {
        assert RoundAt(rs, maxCov, corrected, bridging, run, k);
      }
    }
  }

  /**
   * The rounds of `run` ran so far: they left the undecided reads `undecided` and the counters
   * `counts`, and selected the reads `selected`.
   */
  ghost predicate Tracked(rs: seq<Read>, maxCov: int, corrected: bool, bridging: bool, run: Run,
                          undecided: set<nat>, counts: seq<nat>, selected: set<nat>)
  {
    RoundsSoFar(rs, maxCov, corrected, bridging, run) &&
    run.undecided[|run.rounds|] == undecided && run.counts[|run.rounds|] == counts && selected == Chosen(run.rounds)
  }

  /**
   * A round keeps `RoundInv` and extends the run of the rounds before it to `run'`, whose last
   * round is this one.
   */
  lemma RoundStep(rs: seq<Read>, vcf: map<int, nat>, readMap: map<nat, seq<nat>>, n: nat, maxCov: int,
                  corrected: bool, bridging: bool, run: Run, run': Run, undecided: set<nat>, selected: set<nat>,
                  order: seq<nat>, counts: seq<nat>, t: RoundTrace, undecided': set<nat>, counts': seq<nat>,
                  rep': map<int, int>)
    requires AllPlaced(rs, vcf, n, Candidates(rs))
    requires RoundInv(rs, vcf, n, maxCov, undecided, selected, order, counts)
    requires Tracked(rs, maxCov, corrected, bridging, run, undecided, counts, selected)
    requires run.vcf == vcf && run.readMap == readMap && undecided != {}
    requires RoundSpec(rs, vcf, readMap, maxCov, corrected, bridging, undecided, counts, t, undecided', counts', rep')
    requires MergedInOrder(rs, vcf.Keys, t.inSlice + t.bridging, t.mergeOrder + t.bridgeOrder, rep')
    requires run' == Extend(run, undecided', counts', t, rep')
    ensures RoundInv(rs, vcf, n, maxCov, undecided', selected + t.inSlice + t.bridging,
                     order + t.sliceOrder + t.bridgeOrder, counts')
    ensures undecided' < undecided
    ensures Tracked(rs, maxCov, corrected, bridging, run', undecided', counts', selected + t.inSlice + t.bridging)
    ensures run'.rounds != [] && run'.reps != [] && rep' == run'.reps[|run'.reps| - 1]
    ensures MergedInOrder(rs, vcf.Keys, LastChosen(run'.rounds), LastMerges(run'.rounds), rep')
  {
    RoundSpecKeeps(rs, vcf, readMap, n, maxCov, corrected, bridging, undecided, selected, order, counts, t,
                   undecided', counts', rep');
    RoundsSnoc(rs, vcf, readMap, maxCov, corrected, bridging, run, undecided, counts, t, undecided', counts', rep');
    ChosenSnoc(run.rounds, t);
  }

  /**
   * The `while` loop of `readselection`, from zero counters until no read is undecided: it runs
   * the rounds `run` describes and selects exactly the reads they chose. `finder` is the component
   * finder of the last round, and stays unbound (`null`) when no round runs.
   */
  method Rounds(maxCov: int, corrected: bool, bridging: bool, rs: seq<Read>, positions: seq<int>,
                vcf: map<int, nat>, readMap: map<nat, seq<nat>>)
    returns (selected: set<nat>, finder: ComponentFinder?, ghost order: seq<nat>, ghost counts: seq<nat>,
             ghost run: Run)
    requires vcf.Keys == Elems(positions)
    requires AllPlaced(rs, vcf, |positions|, Candidates(rs))
    ensures run.positions == positions && run.vcf == vcf && run.readMap == readMap
    ensures Tracked(rs, maxCov, corrected, bridging, run, {}, counts, selected)
    ensures finder == null <==> Candidates(rs) == {}
    ensures finder == null <==> run.rounds == []
    ensures finder != null ==> finder.Valid() && finder.rep.Keys == Elems(positions)
    ensures finder != null ==> run.reps != [] && finder.rep == run.reps[|run.reps| - 1]
    ensures RoundInv(rs, vcf, |positions|, maxCov, {}, selected, order, counts)
    ensures finder != null ==>
      MergedInOrder(rs, vcf.Keys, LastChosen(run.rounds), LastMerges(run.rounds), finder.rep)
  {
    var cov := new CovMonitor(|positions|);
    selected := {};
    var undecided := Candidates(rs);
    order := [];
    finder := null;
    assert cov.coverage[..] == Zeros(|positions|);
    run := Run(positions, vcf, readMap, [undecided], [cov.coverage[..]], [], []);
    RoundStart(rs, vcf, |positions|, maxCov, cov.coverage[..]);
    while undecided != {}
      invariant cov.coverage.Length == |positions|
      invariant RoundInv(rs, vcf, |positions|, maxCov, undecided, selected, order, cov.coverage[..])
      invariant run.positions == positions && run.vcf == vcf && run.readMap == readMap
      invariant Tracked(rs, maxCov, corrected, bridging, run, undecided, cov.coverage[..], selected)
      invariant finder == null <==> run.rounds == []
      invariant finder == null ==> undecided == Candidates(rs)
      invariant finder != null ==> Candidates(rs) != {} && finder.Valid() && finder.rep.Keys == Elems(positions)
      invariant finder != null ==> run.reps != [] && finder.rep == run.reps[|run.reps| - 1]
      invariant finder != null ==>
        MergedInOrder(rs, vcf.Keys, LastChosen(run.rounds), LastMerges(run.rounds), finder.rep)
      decreases undecided
    {
      var roundFinder;
      ghost var t, run';
      undecided, selected, roundFinder, t, run' :=
        SelectionRound(cov, maxCov, corrected, bridging, rs, positions, vcf, readMap, undecided, selected, order, run);
      run := run';
      order := order + t.sliceOrder + t.bridgeOrder;
      finder := roundFinder;
    }
    counts := cov.coverage[..];
  }

  /** The reads of `chosen` whose span, from first to last variant, contains position `p`. */
  function Spanning(rs: seq<Read>, chosen: set<nat>, p: int): set<nat> {
    set i | i in chosen && i < |rs| && rs[i] != [] && rs[i][0].position <= p <= rs[i][|rs[i]| - 1].position
  }

  /** The reads of `chosen` whose span of indices contains index `j`. */
  ghost function SpanningIndex(rs: seq<Read>, vcf: map<int, nat>, chosen: set<nat>, j: nat): set<nat> {
    set i | i in chosen && i < |rs| && rs[i] != [] && rs[i][0].position in vcf &&
      rs[i][|rs[i]| - 1].position in vcf && Begin(rs[i], vcf) <= j < End(rs[i], vcf)
  }

  /** The counters count, at each index, the reads of `order` whose span contains it. */
  lemma {:induction false} AddSpansCount(s: seq<nat>, rs: seq<Read>, vcf: map<int, nat>, order: seq<nat>, j: nat)
    requires forall k :: 0 <= k < |order| ==> order[k] < |rs| && Placed(rs[order[k]], vcf, |s|)
    requires Distinct(order) && j < |s|
    ensures AddSpans(s, rs, vcf, order)[j] == s[j] + |SpanningIndex(rs, vcf, SetOf(order), j)|
    decreases |order|
  {
    if order == [] {
      assert SpanningIndex(rs, vcf, SetOf(order), j) == {};
    } else {
      var init := order[..|order| - 1];
      var item := order[|order| - 1];
      assert Distinct(init);
      AddSpansCount(s, rs, vcf, init, j);
      forall k | 0 <= k < |init| ensures init[k] != item {
        assert init[k] == order[k];
      }
      assert order == init + [item];
      OrderSnoc(init, item);
      var read := rs[item];
      assert Placed(read, vcf, |s|) && read[0].position in vcf && read[|read| - 1].position in vcf;
      SpanningAdd(rs, vcf, SetOf(init), item, j);
    }
  }

  /** Adding a read to `chosen` adds one spanning read at `j` exactly when its span contains `j`. */
  lemma SpanningAdd(rs: seq<Read>, vcf: map<int, nat>, chosen: set<nat>, item: nat, j: nat)
    requires item !in chosen && item < |rs| && rs[item] != []
    requires rs[item][0].position in vcf && rs[item][|rs[item]| - 1].position in vcf
    ensures |SpanningIndex(rs, vcf, chosen + {item}, j)| == |SpanningIndex(rs, vcf, chosen, j)| +
      if Begin(rs[item], vcf) <= j < End(rs[item], vcf) then 1 else 0
  {
    var before := SpanningIndex(rs, vcf, chosen, j);
    var after := SpanningIndex(rs, vcf, chosen + {item}, j);
    if Begin(rs[item], vcf) <= j < End(rs[item], vcf) {
      assert after == before + {item};
    } else {
      assert after == before;
    }
  }

  /** For reads placed by the index map, spanning an index is spanning the position it indexes. */
  lemma SpanningAtPosition(rs: seq<Read>, positions: seq<int>, vcf: map<int, nat>, chosen: set<nat>, p: int)
    requires Indexes(positions, vcf) && p in vcf
    requires AllPlaced(rs, vcf, |positions|, chosen)
    ensures Spanning(rs, chosen, p) == SpanningIndex(rs, vcf, chosen, vcf[p])
  {
    forall i | i in chosen
      ensures i in Spanning(rs, chosen, p) <==> i in SpanningIndex(rs, vcf, chosen, vcf[p])
    {
      var read := rs[i];
      var first := read[0].position;
      var last := read[|read| - 1].position;
      assert first in vcf && last in vcf;
      if first <= p {
        IndexMonotone(positions, vcf, first, p);
      } else {
        IndexMonotone(positions, vcf, p, first);
      }
      if p <= last {
        IndexMonotone(positions, vcf, p, last);
      } else {
        IndexMonotone(positions, vcf, last, p);
      }
    }
  }

  /** The selected reads, listed by `order`, can be placed on the counters. */
  lemma SelectedPlaced(rs: seq<Read>, vcf: map<int, nat>, n: nat, maxCov: int, selected: set<nat>,
                       order: seq<nat>, counts: seq<nat>)
    requires RoundInv(rs, vcf, n, maxCov, {}, selected, order, counts)
    ensures AllPlaced(rs, vcf, n, selected)
  {
    forall i | i in selected ensures i < |rs| && Placed(rs[i], vcf, n) {
      var k :| 0 <= k < |order| && order[k] == i;
    }
  }

  /**
   * At most `maxCov` selected reads span any variant position: the counters count the spanning
   * selected reads, and no counter exceeds the cap.
   */
  lemma CoverageWithinCap(rs: seq<Read>, positions: seq<int>, vcf: map<int, nat>, maxCov: int,
                          selected: set<nat>, order: seq<nat>, counts: seq<nat>)
    requires Indexes(positions, vcf) && 0 <= maxCov
    requires RoundInv(rs, vcf, |positions|, maxCov, {}, selected, order, counts)
    ensures forall p :: p in vcf ==> |Spanning(rs, selected, p)| <= maxCov
  {
    SelectedPlaced(rs, vcf, |positions|, maxCov, selected, order, counts);
    forall p | p in vcf ensures |Spanning(rs, selected, p)| <= maxCov {
      var j := vcf[p];
      SpanningAtPosition(rs, positions, vcf, selected, p);
      AddSpansCount(Zeros(|positions|), rs, vcf, order, j);
    }
  }

  /** A counter index between a read's begin and end is a position between its first and last variant. */
  lemma WithinSpan(read: Read, positions: seq<int>, vcf: map<int, nat>, j: nat)
    requires Indexes(positions, vcf) && Placed(read, vcf, |positions|)
    requires Begin(read, vcf) <= j < End(read, vcf)
    ensures read[0].position <= positions[j] <= read[|read| - 1].position
  {
    var first, last := read[0].position, read[|read| - 1].position;
    assert positions[vcf[first]] == first && positions[vcf[last]] == last;
  }

  /**
   * A read whose span reached the cap of the counters of `order` has, within its span, a variant
   * position spanned by at least `maxCov` reads of `order`.
   */
  lemma BlockedWitness(rs: seq<Read>, positions: seq<int>, vcf: map<int, nat>, maxCov: int,
                       order: seq<nat>, counts: seq<nat>, i: nat)
    requires Indexes(positions, vcf) && Distinct(order)
    requires forall k :: 0 <= k < |order| ==> order[k] < |rs| && Placed(rs[order[k]], vcf, |positions|)
    requires counts == AddSpans(Zeros(|positions|), rs, vcf, order)
    requires Blocked(rs, vcf, maxCov, counts, i)
    ensures exists p :: (p in vcf && rs[i][0].position <= p <= rs[i][|rs[i]| - 1].position &&
                         |Spanning(rs, SetOf(order), p)| >= maxCov)
  {
    var read := rs[i];
    var b, e := Begin(read, vcf), End(read, vcf);
    var j :| b <= j < e && counts[j] == RangeMax(counts, b, e);
    var p := positions[j];
    WithinSpan(read, positions, vcf, j);
    assert vcf[p] == j;
    forall r | r in SetOf(order) ensures r < |rs| && Placed(rs[r], vcf, |positions|) {
      var k :| 0 <= k < |order| && order[k] == r;
    }
    SpanningAtPosition(rs, positions, vcf, SetOf(order), p);
    AddSpansCount(Zeros(|positions|), rs, vcf, order, j);
  }

  /**
   * A candidate left unselected when no read is undecided was dropped because its span reached
   * the cap: some variant position within its span is spanned by at least `maxCov` selected reads.
   */
  lemma UnselectedBlocked(rs: seq<Read>, positions: seq<int>, vcf: map<int, nat>, maxCov: int,
                          selected: set<nat>, order: seq<nat>, counts: seq<nat>, i: nat)
    requires Indexes(positions, vcf)
    requires RoundInv(rs, vcf, |positions|, maxCov, {}, selected, order, counts)
    requires i in Candidates(rs) && i !in selected
    ensures exists p :: (p in vcf && rs[i][0].position <= p <= rs[i][|rs[i]| - 1].position &&
                         |Spanning(rs, selected, p)| >= maxCov)
  {
    assert Blocked(rs, vcf, maxCov, counts, i);
    BlockedWitness(rs, positions, vcf, maxCov, order, counts, i);
  }

  /** `positions`, `vcf_indices` and `SNP_read_map` as `_construct_indexes` builds them. */
  ghost predicate IndexesOf(rs: seq<Read>, positions: seq<int>, vcf: map<int, nat>, readMap: map<nat, seq<nat>>) {
    StrictlyIncreasing(positions) && Elems(positions) == AllPositions(rs) && Indexes(positions, vcf) &&
    (forall s :: s in readMap ==> s < |positions|) &&
    (forall s :: 0 <= s < |positions| ==> Lookup(readMap, s) == ReadsAt(rs, positions[s]))
  }

  /**
   * What `readselection` promises once its loop has finished, with the score update `corrected`
   * selects. The loop ran the rounds of `run` over the indexes of `rs`, and the result holds:
   * - the skipped-read count;
   * - exactly the reads those rounds selected, all of them candidates;
   * - the components of the last round's finder, for every variant position: those of merging
   *   the last round's reads one after the other, each of which lies in one component, or every
   *   position on its own when no round ran.
   * No position is spanned by more than `maxCov` selected reads (for a non-negative cap), and every
   * unselected candidate is blocked by `maxCov` selected reads somewhere in its span.
   */
  ghost predicate Outcome(rs: seq<Read>, maxCov: int, corrected: bool, bridging: bool, result: Selection, run: Run)
  {
    IndexesOf(rs, run.positions, run.vcf, run.readMap) &&
    RunOfRounds(rs, maxCov, corrected, bridging, run) &&
    result.stats == |rs| - |Candidates(rs)| &&
    result.selected == Chosen(run.rounds) && result.selected <= Candidates(rs) &&
    result.components.Keys == AllPositions(rs) && ValidRep(result.components) &&
    (run.reps != [] ==> result.components == run.reps[|run.reps| - 1]) &&
    MergedInOrder(rs, AllPositions(rs), LastChosen(run.rounds), LastMerges(run.rounds), result.components) &&
    (0 <= maxCov ==> forall p :: p in AllPositions(rs) ==> |Spanning(rs, result.selected, p)| <= maxCov) &&
    (forall i :: i in Candidates(rs) && i !in result.selected ==>
      exists p :: p in AllPositions(rs) && rs[i][0].position <= p <= rs[i][|rs[i]| - 1].position &&
        |Spanning(rs, result.selected, p)| >= maxCov)
  }

  /**
   * Once no read is undecided, no position is spanned by more than `maxCov` selected reads (for a
   * non-negative cap), and every unselected candidate is blocked somewhere in its span.
   */
  lemma FinalCoverage(rs: seq<Read>, positions: seq<int>, vcf: map<int, nat>, maxCov: int, selected: set<nat>,
                      order: seq<nat>, counts: seq<nat>)
    requires Elems(positions) == AllPositions(rs) && Indexes(positions, vcf)
    requires RoundInv(rs, vcf, |positions|, maxCov, {}, selected, order, counts)
    ensures 0 <= maxCov ==> forall p :: p in AllPositions(rs) ==> |Spanning(rs, selected, p)| <= maxCov
    ensures forall i :: i in Candidates(rs) && i !in selected ==>
      exists p :: p in AllPositions(rs) && rs[i][0].position <= p <= rs[i][|rs[i]| - 1].position &&
        |Spanning(rs, selected, p)| >= maxCov
  {
    if 0 <= maxCov {
      CoverageWithinCap(rs, positions, vcf, maxCov, selected, order, counts);
    }
    forall i | i in Candidates(rs) && i !in selected
      ensures exists p :: (p in AllPositions(rs) && rs[i][0].position <= p <= rs[i][|rs[i]| - 1].position &&
                           |Spanning(rs, selected, p)| >= maxCov)
    {
      UnselectedBlocked(rs, positions, vcf, maxCov, selected, order, counts, i);
    }
  }

  /** The state the loop ends in, with the components read out, meets `Outcome`. */
  lemma OutcomeOfRounds(rs: seq<Read>, maxCov: int, corrected: bool, bridging: bool, run: Run, selected: set<nat>,
                        order: seq<nat>, counts: seq<nat>, components: map<int, int>)
    requires IndexesOf(rs, run.positions, run.vcf, run.readMap)
    requires Tracked(rs, maxCov, corrected, bridging, run, {}, counts, selected)
    requires RoundInv(rs, run.vcf, |run.positions|, maxCov, {}, selected, order, counts)
    requires ValidRep(components)
    requires run.reps != [] ==> components == run.reps[|run.reps| - 1]
    requires MergedInOrder(rs, AllPositions(rs), LastChosen(run.rounds), LastMerges(run.rounds), components)
    ensures Outcome(rs, maxCov, corrected, bridging, Selection(selected, components, |rs| - |Candidates(rs)|), run)
  {
    FinalCoverage(rs, run.positions, run.vcf, maxCov, selected, order, counts);
  }

  /** The values `readselection` returns once its loop has finished with a bound component finder. */
  method Finish(rs: seq<Read>, vcf: map<int, nat>, selected: set<nat>, finder: ComponentFinder)
    returns (result: Selection)
    requires finder.Valid() && finder.rep.Keys == vcf.Keys
    ensures result.selected == selected && result.stats == |rs| - |Candidates(rs)|
    ensures result.components == finder.rep && ValidRep(result.components)
  {
    var components := map p | p in vcf.Keys :: finder.rep[p];
    assert components == finder.rep;
    result := Selection(selected, components, |rs| - |Candidates(rs)|);
  }

  /**
   * `readselection` as written: when some variant exists but no read has two variants, the loop
   * never runs and the component finder is unbound when the components are read out; with no
   * variant at all the read-out loop is empty and the call returns normally. `run` are the rounds
   * the loop ran.
   */
  method ReadSelection(rs: seq<Read>, maxCov: int, bridging: bool)
    returns (r: Result<Selection, SelectionError>, ghost run: Run)
    requires WellFormed(rs)
    ensures r.Failure? <==> Candidates(rs) == {} && AllPositions(rs) != {}
    ensures r.Success? ==> Outcome(rs, maxCov, false, bridging, r.value, run)
  {
    var positions, vcf, readMap := ConstructIndexes(rs);
    CandidatesPlaced(rs, positions, vcf);
    var selected, finder;
    ghost var order, counts;
    selected, finder, order, counts, run := Rounds(maxCov, false, bridging, rs, positions, vcf, readMap);
    if finder == null {
      if |positions| > 0 {
        assert positions[0] in Elems(positions);
        return Failure(UnboundComponentFinder), run;
      }
      assert Identity(AllPositions(rs)) == map[];
      OutcomeOfRounds(rs, maxCov, false, bridging, run, selected, order, counts, map[]);
      return Success(Selection(selected, map[], |rs| - |Candidates(rs)|)), run;
    }
    var result := Finish(rs, vcf, selected, finder);
    OutcomeOfRounds(rs, maxCov, false, bridging, run, selected, order, counts, result.components);
    return Success(result), run;
  }

  /**
   * `readselection` with the evident intent: scores are updated by the newly covered positions,
   * and when no round runs the components are read from a fresh component finder, so every
   * position is its own component and no read is selected.
   */
  method ReadSelectionCorrected(rs: seq<Read>, maxCov: int, bridging: bool)
    returns (result: Selection, ghost run: Run)
    requires WellFormed(rs)
    ensures Outcome(rs, maxCov, true, bridging, result, run)
    ensures Candidates(rs) == {} ==>
      result.selected == {} && forall p :: p in result.components ==> result.components[p] == p
  {
    var positions, vcf, readMap := ConstructIndexes(rs);
    CandidatesPlaced(rs, positions, vcf);
    var selected, finder;
    ghost var order, counts;
    selected, finder, order, counts, run := Rounds(maxCov, true, bridging, rs, positions, vcf, readMap);
    if finder == null {
      finder := new ComponentFinder(positions);
    }
    result := Finish(rs, vcf, selected, finder);
    OutcomeOfRounds(rs, maxCov, true, bridging, run, selected, order, counts, result.components);
  }

  /** Two reads of one variant each: positions 100 and 250, no candidate. */
  function TwoSingleVariantReads(): (rs: seq<Read>)
    ensures WellFormed(rs) && Candidates(rs) == {} && AllPositions(rs) == {100, 250}
  {
    var rs := [[Variant(100, 30)], [Variant(250, 40)]];
    assert rs[..1] == [rs[0]] && rs[..1][..0] == [];
    rs
  }

  /**
   * On two reads of one variant each, `readselection` as written reaches the read-out of the
   * components with its component finder unbound.
   */
  method SingleVariantReads() returns (asWritten: Result<Selection, SelectionError>)
    ensures asWritten.Failure? && asWritten.error == UnboundComponentFinder
  {
    var rs := TwoSingleVariantReads();
    ghost var run;
    asWritten, run := ReadSelection(rs, 5, true);
  }

  /**
   * On the same reads the corrected version selects nothing and returns every position as its
   * own component.
   */
  method SingleVariantReadsCorrected() returns (corrected: Selection)
    ensures corrected.selected == {} && corrected.stats == 2
    ensures corrected.components == map[100 := 100, 250 := 250]
  {
    var rs := TwoSingleVariantReads();
    ghost var run;
    corrected, run := ReadSelectionCorrected(rs, 5, true);
    OwnComponents(corrected.components, {100, 250});
    IdentityOfTwo();
  }

  /** The components of a fresh finder over the positions 100 and 250. */
  lemma IdentityOfTwo()
    ensures Identity({100, 250}) == map[100 := 100, 250 := 250]
  {
    assert Identity({100, 250}).Keys == {100, 250};
  }

  /** Components in which every position is its own representative are the identity on their positions. */
  lemma OwnComponents(components: map<int, int>, values: set<int>)
    requires components.Keys == values && forall p :: p in components ==> components[p] == p
    ensures components == Identity(values)
  {
    var id := Identity(values);
    assert components.Keys == id.Keys;
    forall p | p in components
      ensures components[p] == id[p]
    {
    }
  }

  /** A read set without any variant: both versions return nothing selected and no components. */
  method NoVariants() returns (asWritten: Result<Selection, SelectionError>, corrected: Selection)
    ensures asWritten == Success(Selection({}, map[], 2))
    ensures corrected == Selection({}, map[], 2)
  {
    var rs: seq<Read> := [[], []];
    assert AllPositions(rs) == {} by {
      assert rs[..1] == [[]] && rs[..1][..0] == [];
    }
    NoPositionsNoCandidates(rs);
    ghost var run;
    asWritten, run := ReadSelection(rs, 5, true);
    EmptyOutcome(rs, 5, false, true, asWritten.value, run);
    corrected, run := ReadSelectionCorrected(rs, 5, true);
    EmptyOutcome(rs, 5, true, true, corrected, run);
  }

  /** Without any variant position `Outcome` leaves one result: nothing selected, no components. */
  lemma EmptyOutcome(rs: seq<Read>, maxCov: int, corrected: bool, bridging: bool, result: Selection, run: Run)
    requires AllPositions(rs) == {} && Candidates(rs) == {}
    requires Outcome(rs, maxCov, corrected, bridging, result, run)
    ensures result == Selection({}, map[], |rs|)
  {
    assert result.components.Keys == {};
  }
}
