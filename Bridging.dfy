/**
 * The component side of `readselection`: merging the positions of a read in the component
 * finder, the covered blocks of a read, and the bridging pass that admits reads joining at
 * least two components.
 */
module Bridging {
  import opened Reads
  import opened Scoring
  import opened PriorityQueues
  import opened Coverage
  import opened Graph
  import opened Slice

  /** Every variant position of the read has a component. */
  ghost predicate Known(rep: map<int, int>, read: Read) {
    forall k :: 0 <= k < |read| ==> read[k].position in rep
  }

  /** All variant positions of the read lie in one component. */
  ghost predicate OneComponent(rep: map<int, int>, read: Read)
    requires Known(rep, read)
  {
    forall k :: 0 <= k < |read| ==> rep[read[k].position] == rep[read[0].position]
  }

  /** A read touches fewer than two blocks exactly when all its positions are in one component. */
  lemma FewBlocksIffOneComponent(rep: map<int, int>, read: Read)
    requires read != [] && Known(rep, read)
    ensures |Blocks(rep, Positions(read))| < 2 <==> OneComponent(rep, read)
  {
    var ps := Positions(read);
    var B := Blocks(rep, ps);
    var r0 := rep[read[0].position];
    assert ps[0] in ps;
    assert r0 in B;
    forall k | 0 <= k < |read| ensures rep[read[k].position] in B {
      assert ps[k] in ps;
    }
    forall k | 0 <= k < |read| ensures |B| < 2 ==> rep[read[k].position] == r0 {
      TwoMembers(B, r0, rep[read[k].position]);
    }
    if OneComponent(rep, read) {
      forall b | b in B ensures b == r0 {
        var p :| p in ps && p in rep && rep[p] == b;
        var k :| 0 <= k < |ps| && ps[k] == p;
      }
      assert B == {r0};
    }
  }

  /** Once in one component, a read stays in one component while components are only merged. */
  lemma CoarserKeepsOneComponent(a: map<int, int>, b: map<int, int>, read: Read)
    requires Coarser(a, b) && Known(a, read)
    ensures Known(b, read)
    ensures OneComponent(a, read) ==> OneComponent(b, read)
  {
    if OneComponent(a, read) {
      forall k | 0 <= k < |read| ensures b[read[k].position] == b[read[0].position] {
        CoarserKeepsTogether(a, b, read[k].position, read[0].position);
      }
    }
  }

  /** `set(component_finder.find(pos.position) for pos in read)`. */
  method CoveredBlocks(finder: ComponentFinder, read: Read) returns (blocks: set<int>)
    requires finder.Valid() && Known(finder.rep, read)
    ensures blocks == Blocks(finder.rep, Positions(read))
  {
    var ps := Positions(read);
    blocks := {};
    for j := 0 to |read|
      invariant blocks == Blocks(finder.rep, ps[..j])
    {
      var r := finder.Find(read[j].position);
      BlocksSnoc(finder.rep, ps, j);
      blocks := blocks + {r};
    }
    assert ps[..|read|] == ps;
  }

  /**
   * The merge loop for one read: every later position is merged with the first. Afterwards the
   * blocks the read touched form one component under the smallest of their representatives,
   * and no other component changed.
   */
  method MergeRead(finder: ComponentFinder, ps: seq<int>)
    requires finder.Valid() && ps != []
    requires forall k :: 0 <= k < |ps| ==> ps[k] in finder.rep
    modifies finder
    ensures finder.Valid()
    ensures finder.rep == Merged(old(finder.rep), ps)
  {
    ghost var rep0 := finder.rep;
    MergeReadStart(rep0, ps);
    for j := 1 to |ps|
      invariant finder.Valid() && finder.rep.Keys == rep0.Keys
      invariant RootOf(rep0, Blocks(rep0, ps[..j]), finder.rep[ps[0]])
      invariant finder.rep == Absorb(rep0, Blocks(rep0, ps[..j]), finder.rep[ps[0]])
    {
      MergeReadStep(rep0, ps, j, finder.rep[ps[0]]);
      finder.Merge(ps[0], ps[j]);
    }
    assert ps[..|ps|] == ps;
    AbsorbIsMerged(rep0, ps, finder.rep[ps[0]]);
  }

  lemma MergeReadStart(rep: map<int, int>, ps: seq<int>)
    requires ValidRep(rep) && ps != [] && ps[0] in rep
    ensures RootOf(rep, Blocks(rep, ps[..1]), rep[ps[0]])
    ensures rep == Absorb(rep, Blocks(rep, ps[..1]), rep[ps[0]])
  {
    RepIsRoot(rep, ps[0]);
    AbsorbOwn(rep, rep[ps[0]]);
    BlocksSnoc(rep, ps, 0);
    assert ps[..0] == [];
  }

  lemma MergeReadStep(rep: map<int, int>, ps: seq<int>, j: nat, root: int)
    requires ValidRep(rep) && 0 < j < |ps|
    requires forall k :: 0 <= k < |ps| ==> ps[k] in rep
    requires RootOf(rep, Blocks(rep, ps[..j]), root)
    ensures ValidRep(Absorb(rep, Blocks(rep, ps[..j]), root))
    ensures var r := Join(Absorb(rep, Blocks(rep, ps[..j]), root), ps[0], ps[j]);
      RootOf(rep, Blocks(rep, ps[..j + 1]), r[ps[0]]) &&
      r == Absorb(rep, Blocks(rep, ps[..j + 1]), r[ps[0]])
  {
    var B := Blocks(rep, ps[..j]);
    var first := ps[..j][0];
    assert first == ps[0] && first in ps[..j];
    assert rep[ps[0]] in B;
    JoinAbsorb(rep, B, root, ps[0], ps[j]);
    BlocksSnoc(rep, ps, j);
  }

  /** After the merge loop of a read, the read lies in one component and no component was split. */
  lemma MergedReadOneComponent(rep: map<int, int>, read: Read, root: int)
    requires ValidRep(rep) && read != [] && Known(rep, read)
    requires RootOf(rep, Blocks(rep, Positions(read)), root)
    ensures Coarser(rep, Absorb(rep, Blocks(rep, Positions(read)), root))
    ensures Known(Absorb(rep, Blocks(rep, Positions(read)), root), read)
    ensures OneComponent(Absorb(rep, Blocks(rep, Positions(read)), root), read)
  {
    var ps := Positions(read);
    AbsorbCoarser(rep, Blocks(rep, ps), root);
    forall k | 0 <= k < |read|
      ensures Absorb(rep, Blocks(rep, ps), root)[read[k].position] ==
              Absorb(rep, Blocks(rep, ps), root)[read[0].position]
    {
      assert ps[k] in ps && ps[0] in ps;
      AbsorbComponents(rep, ps, root, read[k].position, read[0].position);
    }
  }

  /** Merging the positions of a read puts the read in one component and splits no component. */
  lemma MergedOneComponent(rep: map<int, int>, read: Read)
    requires ValidRep(rep) && read != [] && Known(rep, read)
    ensures ValidRep(Merged(rep, Positions(read)))
    ensures Coarser(rep, Merged(rep, Positions(read)))
    ensures Known(Merged(rep, Positions(read)), read)
    ensures OneComponent(Merged(rep, Positions(read)), read)
  {
    var ps := Positions(read);
    BlocksHas(rep, ps, ps[0]);
    BlocksAreRoots(rep, ps);
    var root := MinOf(Blocks(rep, ps), rep[ps[0]]);
    AbsorbIsMerged(rep, ps, root);
    AbsorbValid(rep, Blocks(rep, ps), root);
    MergedReadOneComponent(rep, read, root);
  }

  /** The components after the merge loops of the reads `order` of `rs`, one read after the other. */
  ghost function MergeFold(rep: map<int, int>, rs: seq<Read>, order: seq<nat>): (r: map<int, int>)
    requires forall k :: 0 <= k < |order| ==> order[k] < |rs|
    ensures r.Keys == rep.Keys
    decreases |order|
  {
    if order == [] then rep
    else Merged(MergeFold(rep, rs, order[..|order| - 1]), Positions(rs[order[|order| - 1]]))
  }

  lemma MergeFoldSnoc(rep: map<int, int>, rs: seq<Read>, order: seq<nat>, item: nat)
    requires forall k :: 0 <= k < |order| ==> order[k] < |rs|
    requires item < |rs|
    ensures MergeFold(rep, rs, order + [item]) == Merged(MergeFold(rep, rs, order), Positions(rs[item]))
  {
    assert (order + [item])[..|order|] == order;
  }

  /** Merging the reads of `first` and then those of `second` merges the reads of `first + second`. */
  lemma {:induction false} MergeFoldAppend(rep: map<int, int>, rs: seq<Read>, first: seq<nat>, second: seq<nat>)
    requires forall k :: 0 <= k < |first| ==> first[k] < |rs|
    requires forall k :: 0 <= k < |second| ==> second[k] < |rs|
    ensures MergeFold(MergeFold(rep, rs, first), rs, second) == MergeFold(rep, rs, first + second)
    decreases |second|
  {
    if second == [] {
      assert first + second == first;
    } else {
      var init := second[..|second| - 1];
      var last := second[|second| - 1];
      MergeFoldAppend(rep, rs, first, init);
      assert second == init + [last];
      assert first + second == (first + init) + [last];
      MergeFoldSnoc(MergeFold(rep, rs, first), rs, init, last);
      MergeFoldSnoc(rep, rs, first + init, last);
    }
  }

  /**
   * A position that is its own component and lies on none of the merged reads stays its own
   * component, and no other position joins it.
   */
  lemma {:induction false} MergeFoldUntouched(rep: map<int, int>, rs: seq<Read>, order: seq<nat>, x: int)
    requires ValidRep(rep) && forall k :: 0 <= k < |order| ==> order[k] < |rs|
    requires x in rep && rep[x] == x && forall y :: y in rep && rep[y] == x ==> y == x
    requires forall k :: 0 <= k < |order| ==> x !in PositionSet(rs[order[k]])
    ensures MergeFold(rep, rs, order)[x] == x
    ensures forall y :: y in rep && MergeFold(rep, rs, order)[y] == x ==> y == x
    decreases |order|
  {
    if order != [] {
      var init := order[..|order| - 1];
      var read := rs[order[|order| - 1]];
      MergeFoldUntouched(rep, rs, init, x);
      assert x !in PositionSet(read);
      forall k | 0 <= k < |read| ensures Positions(read)[k] != x {
        assert read[k] in read;
      }
      MergedUntouched(MergeFold(rep, rs, init), Positions(read), x);
    }
  }

  /**
   * The merge loop over the reads of a slice, in some order `order` of `chosen`: the components
   * are those of the merge loops of the reads one after the other, and each read ends up in one
   * component.
   */
  method MergeReads(finder: ComponentFinder, rs: seq<Read>, chosen: set<nat>) returns (ghost order: seq<nat>)
    requires finder.Valid()
    requires forall i :: i in chosen ==> i < |rs| && rs[i] != [] && Known(finder.rep, rs[i])
    modifies finder
    ensures finder.Valid() && Coarser(old(finder.rep), finder.rep)
    ensures SetOf(order) == chosen && Distinct(order) && forall k :: 0 <= k < |order| ==> order[k] < |rs|
    ensures finder.rep == MergeFold(old(finder.rep), rs, order)
    ensures forall i :: i in chosen ==> Known(finder.rep, rs[i]) && OneComponent(finder.rep, rs[i])
  {
    ghost var rep0 := finder.rep;
    CoarserRefl(rep0);
    var todo := chosen;
    order := [];
    while todo != {}
      invariant todo <= chosen
      invariant MergedSoFar(rs, chosen, chosen - todo, order, rep0, finder.rep)
      decreases todo
    {
      var readIndex := Pick(todo);
      var read := rs[readIndex];
      var ps := Positions(read);
      MergeReadsStep(rs, chosen, chosen - todo, order, rep0, finder.rep, readIndex);
      MergeRead(finder, ps);
      DoneSnoc(chosen, todo, readIndex);
      order := order + [readIndex];
      todo := todo - {readIndex};
    }
  }

  /**
   * The invariant of the merge loop over the reads of a slice: the reads `done` were merged, in
   * the order `order`, into the components `rep0`, which gave `rep`; each of them lies in one component.
   */
  ghost predicate MergedSoFar(rs: seq<Read>, chosen: set<nat>, done: set<nat>, order: seq<nat>,
                              rep0: map<int, int>, rep: map<int, int>)
  {
    done <= chosen && ValidRep(rep) && Coarser(rep0, rep) &&
    SetOf(order) == done && Distinct(order) &&
    (forall k :: 0 <= k < |order| ==> order[k] < |rs|) &&
    rep == MergeFold(rep0, rs, order) &&
    (forall i :: i in chosen ==> i < |rs| && rs[i] != [] && Known(rep, rs[i])) &&
    (forall i :: i in done ==> OneComponent(rep, rs[i]))
  }

  /** Set arithmetic for the merge loop, kept apart so the loop body does not have to prove it. */
  lemma DoneSnoc(chosen: set<nat>, todo: set<nat>, item: nat)
    requires item in todo && todo <= chosen
    ensures chosen - (todo - {item}) == (chosen - todo) + {item}
  {
  }

  /** Merging one more read keeps the invariant of the merge loop. */
  lemma MergeReadsStep(rs: seq<Read>, chosen: set<nat>, done: set<nat>, order: seq<nat>, rep0: map<int, int>,
                       before: map<int, int>, item: nat)
    requires item in chosen && item !in done && MergedSoFar(rs, chosen, done, order, rep0, before)
    ensures MergedSoFar(rs, chosen, done + {item}, order + [item], rep0, Merged(before, Positions(rs[item])))
  {
    var read := rs[item];
    var after := Merged(before, Positions(read));
    MergedOneComponent(before, read);
    CoarserTrans(rep0, before, after);
    forall i | i in chosen
      ensures Known(after, rs[i])
      ensures i in done ==> OneComponent(after, rs[i])
    {
      CoarserKeepsOneComponent(before, after, rs[i]);
    }
    OrderSnoc(order, item);
    MergeFoldSnoc(rep0, rs, order, item);
  }

  /** Every queued read has a component for each of its positions. */
  ghost predicate AllKnown(rs: seq<Read>, rep: map<int, int>, items: set<nat>) {
    forall i :: i in items ==> i < |rs| && Known(rep, rs[i])
  }

  /**
   * The bookkeeping of the bridging pass: `keys0` were undecided and queued at the start,
   * `remaining` are still queued; a popped read was kept undecided, removed as violating, or
   * selected for bridging (`bridging`, in selection order `order`).
   */
  ghost predicate BridgeSets(keys0: set<nat>, remaining: set<nat>, undecided: set<nat>, bridging: set<nat>,
                             order: seq<nat>)
  {
    remaining <= undecided <= keys0 && bridging <= keys0 - undecided &&
    SetOf(order) == bridging && Distinct(order)
  }

  /**
   * The components: `rep` only merged components of `rep0`; a kept read lies in one component,
   * and a bridging read did not at the start and does now.
   */
  ghost predicate BridgeComponents(rs: seq<Read>, rep0: map<int, int>, rep: map<int, int>, keys0: set<nat>,
                                   remaining: set<nat>, undecided: set<nat>, bridging: set<nat>)
    requires AllKnown(rs, rep0, keys0)
  {
    ValidRep(rep0) && ValidRep(rep) && Coarser(rep0, rep) &&
    AllKnown(rs, rep, keys0) &&
    (forall i :: i in keys0 && i in undecided && i !in remaining ==> OneComponent(rep, rs[i])) &&
    (forall i :: i in keys0 && i in bridging ==> !OneComponent(rep0, rs[i]) && OneComponent(rep, rs[i]))
  }

  /**
   * The state of the bridging pass; reads removed as violating are `keys0 - undecided - bridging`,
   * and the components are those of the merge loops of the bridging reads in selection order.
   */
  ghost predicate BridgeInv(rs: seq<Read>, vcf: map<int, nat>, maxCov: int, keys0: set<nat>, remaining: set<nat>,
                            undecided: set<nat>, bridging: set<nat>, order: seq<nat>,
                            counts0: seq<nat>, counts: seq<nat>, rep0: map<int, int>, rep: map<int, int>)
  {
    BridgeSets(keys0, remaining, undecided, bridging, order) &&
    SlicePlaced(rs, vcf, |counts0|, keys0, order) &&
    AllKnown(rs, rep0, keys0) &&
    SliceCounts(rs, vcf, maxCov, counts0, counts, keys0 - undecided - bridging, order) &&
    BridgeComponents(rs, rep0, rep, keys0, remaining, undecided, bridging) &&
    rep == MergeFold(rep0, rs, order) && SplitWhenSelected(rs, rep0, order)
  }

  /**
   * Each bridging read touched two or more blocks of the components as they were when it was
   * popped: those of `rep0` after the merges of the bridging reads before it.
   */
  ghost predicate SplitWhenSelected(rs: seq<Read>, rep0: map<int, int>, order: seq<nat>)
    requires forall k :: 0 <= k < |order| ==> order[k] < |rs|
  {
    forall k :: 0 <= k < |order| ==> SplitBefore(rs, rep0, order[..k], order[k])
  }

  /** Read `item` touches two or more blocks once the reads of `prefix` are merged into `rep0`. */
  ghost predicate SplitBefore(rs: seq<Read>, rep0: map<int, int>, prefix: seq<nat>, item: nat)
    requires item < |rs| && forall k :: 0 <= k < |prefix| ==> prefix[k] < |rs|
  {
    |Blocks(MergeFold(rep0, rs, prefix), Positions(rs[item]))| >= 2
  }

  lemma SplitSnoc(rs: seq<Read>, rep0: map<int, int>, order: seq<nat>, item: nat)
    requires forall k :: 0 <= k < |order| ==> order[k] < |rs|
    requires item < |rs| && SplitWhenSelected(rs, rep0, order)
    requires SplitBefore(rs, rep0, order, item)
    ensures SplitWhenSelected(rs, rep0, order + [item])
  {
    var o := order + [item];
    forall k | 0 <= k < |o| ensures SplitBefore(rs, rep0, o[..k], o[k]) {
      if k < |order| {
        assert o[..k] == order[..k];
        assert o[k] == order[k];
      } else {
        assert o[..k] == order;
      }
    }
  }

  /** Before the first pop nothing is decided, counted or merged. */
  lemma BridgeStart(rs: seq<Read>, vcf: map<int, nat>, maxCov: int, keys0: set<nat>, remaining: set<nat>,
                    undecided: set<nat>, bridging: set<nat>, order: seq<nat>,
                    counts0: seq<nat>, counts: seq<nat>, rep0: map<int, int>, rep: map<int, int>)
    requires AllPlaced(rs, vcf, |counts0|, keys0) && AllKnown(rs, rep0, keys0) && ValidRep(rep0)
    requires remaining == undecided == keys0 && bridging == {} && order == [] && counts == counts0 && rep == rep0
    ensures BridgeInv(rs, vcf, maxCov, keys0, remaining, undecided, bridging, order, counts0, counts, rep0, rep)
  {
    CoarserRefl(rep0);
    assert keys0 - undecided - bridging == {};
  }

  /** A popped read whose span reaches the cap leaves the undecided reads unselected. */
  lemma BridgeViolate(rs: seq<Read>, vcf: map<int, nat>, maxCov: int, keys0: set<nat>, remaining: set<nat>,
                      undecided: set<nat>, bridging: set<nat>, order: seq<nat>,
                      counts0: seq<nat>, counts: seq<nat>, rep0: map<int, int>, rep: map<int, int>, item: nat)
    requires BridgeInv(rs, vcf, maxCov, keys0, remaining, undecided, bridging, order, counts0, counts, rep0, rep)
    requires item in remaining
    requires RangeMax(counts, Begin(rs[item], vcf), End(rs[item], vcf)) >= maxCov
    ensures BridgeInv(rs, vcf, maxCov, keys0, remaining - {item}, undecided - {item}, bridging, order,
                      counts0, counts, rep0, rep)
  {
    assert keys0 - (undecided - {item}) - bridging == (keys0 - undecided - bridging) + {item};
  }

  /** A popped read within one component stays undecided. */
  lemma BridgeSkip(rs: seq<Read>, vcf: map<int, nat>, maxCov: int, keys0: set<nat>, remaining: set<nat>,
                   undecided: set<nat>, bridging: set<nat>, order: seq<nat>,
                   counts0: seq<nat>, counts: seq<nat>, rep0: map<int, int>, rep: map<int, int>, item: nat)
    requires BridgeInv(rs, vcf, maxCov, keys0, remaining, undecided, bridging, order, counts0, counts, rep0, rep)
    requires item in remaining && Known(rep, rs[item]) && OneComponent(rep, rs[item])
    ensures BridgeInv(rs, vcf, maxCov, keys0, remaining - {item}, undecided, bridging, order,
                      counts0, counts, rep0, rep)
  {
  }

  /** A popped read under the cap that touches two components is selected and merged. */
  lemma BridgeAccept(rs: seq<Read>, vcf: map<int, nat>, maxCov: int, keys0: set<nat>, remaining: set<nat>,
                     undecided: set<nat>, bridging: set<nat>, order: seq<nat>,
                     counts0: seq<nat>, counts: seq<nat>, rep0: map<int, int>, rep: map<int, int>,
                     item: nat, root: int)
    requires BridgeInv(rs, vcf, maxCov, keys0, remaining, undecided, bridging, order, counts0, counts, rep0, rep)
    requires item in remaining
    requires RangeMax(counts, Begin(rs[item], vcf), End(rs[item], vcf)) < maxCov
    requires Known(rep, rs[item]) && !OneComponent(rep, rs[item])
    requires RootOf(rep, Blocks(rep, Positions(rs[item])), root)
    ensures BridgeInv(rs, vcf, maxCov, keys0, remaining - {item}, undecided - {item}, bridging + {item},
                      order + [item], counts0, AddSpan(counts, Begin(rs[item], vcf), End(rs[item], vcf)),
                      rep0, Absorb(rep, Blocks(rep, Positions(rs[item])), root))
  {
    var read := rs[item];
    var rep' := Absorb(rep, Blocks(rep, Positions(read)), root);
    var o := order + [item];
    assert item !in SetOf(order);
    OrderSnoc(order, item);
    assert BridgeSets(keys0, remaining - {item}, undecided - {item}, bridging + {item}, o);
    var violating := keys0 - undecided - bridging;
    assert keys0 - (undecided - {item}) - (bridging + {item}) == violating;
    SliceAcceptCounts(rs, vcf, maxCov, keys0, counts0, counts, violating, order, item);
    BridgeAcceptComponents(rs, rep0, rep, keys0, remaining, undecided, bridging, item, root);
    AbsorbIsMerged(rep, Positions(read), root);
    MergeFoldSnoc(rep0, rs, order, item);
    FewBlocksIffOneComponent(rep, read);
    SplitSnoc(rs, rep0, order, item);
  }

  lemma BridgeAcceptComponents(rs: seq<Read>, rep0: map<int, int>, rep: map<int, int>, keys0: set<nat>,
                               remaining: set<nat>, undecided: set<nat>, bridging: set<nat>, item: nat, root: int)
    requires AllKnown(rs, rep0, keys0)
    requires BridgeComponents(rs, rep0, rep, keys0, remaining, undecided, bridging)
    requires item in remaining && remaining <= undecided <= keys0
    requires !OneComponent(rep, rs[item]) && rs[item] != []
    requires RootOf(rep, Blocks(rep, Positions(rs[item])), root)
    ensures BridgeComponents(rs, rep0, Absorb(rep, Blocks(rep, Positions(rs[item])), root), keys0,
                             remaining - {item}, undecided - {item}, bridging + {item})
  {
    var read := rs[item];
    var rep' := Absorb(rep, Blocks(rep, Positions(read)), root);
    AbsorbValid(rep, Blocks(rep, Positions(read)), root);
    MergedReadOneComponent(rep, read, root);
    CoarserTrans(rep0, rep, rep');
    CoarserKeepsOneComponent(rep0, rep, read);
    forall i | i in keys0
      ensures Known(rep', rs[i]) && (OneComponent(rep, rs[i]) ==> OneComponent(rep', rs[i]))
    {
      CoarserKeepsOneComponent(rep, rep', rs[i]);
    }
  }

  /**
   * The state of the bridging block of `readselection` between two pops: the queue, the
   * coverage counters, the component finder, `undecided_reads`, `bridging_reads`, and the
   * bridging reads in selection order.
   */
  datatype BridgeState = BridgeState(queue: map<nat, Score>, counts: seq<nat>, rep: map<int, int>,
                                     undecided: set<nat>, bridging: set<nat>, order: seq<nat>)

  /** The components are valid and every queued read can be placed and has a component per position. */
  ghost predicate BridgeReady(rs: seq<Read>, vcf: map<int, nat>, s: BridgeState) {
    ValidRep(s.rep) && AllPlaced(rs, vcf, |s.counts|, s.queue.Keys) && AllKnown(rs, s.rep, s.queue.Keys)
  }

  /**
   * One pop of the bridging block, for the popped read `item`. A read whose span already reaches
   * `maxCov` on some counter leaves the undecided reads; otherwise a read whose positions touch
   * fewer than two blocks of the current components is skipped and stays undecided; any other
   * read is selected for bridging: its span is counted and its positions are merged into one
   * component.
   */
  ghost function PopBridge(rs: seq<Read>, vcf: map<int, nat>, maxCov: int, s: BridgeState, item: nat)
    : (r: BridgeState)
    requires BridgeReady(rs, vcf, s) && item in s.queue
    ensures r.queue.Keys == s.queue.Keys - {item} && |r.counts| == |s.counts| && r.rep.Keys == s.rep.Keys
    ensures BridgeReady(rs, vcf, r)
  {
    var read := rs[item];
    assert Placed(read, vcf, |s.counts|) && read[0].position in vcf && read[|read| - 1].position in vcf;
    var rest := s.queue - {item};
    if RangeMax(s.counts, Begin(read, vcf), End(read, vcf)) >= maxCov then
      s.(queue := rest, undecided := s.undecided - {item})
    else if |Blocks(s.rep, Positions(read))| < 2 then
      s.(queue := rest)
    else
      var rep := Merged(s.rep, Positions(read));
      MergedValid(s.rep, Positions(read));
      assert AllKnown(rs, rep, rest.Keys);
      BridgeState(rest, AddSpan(s.counts, Begin(read, vcf), End(read, vcf)), rep,
                  s.undecided - {item}, s.bridging + {item}, s.order + [item])
  }

  /** The bridging block from state `s`: pop the top entry until the queue is empty. */
  ghost function BridgeRun(rs: seq<Read>, vcf: map<int, nat>, maxCov: int, s: BridgeState): (r: BridgeState)
    requires BridgeReady(rs, vcf, s)
    ensures r.queue == map[]
    decreases s.queue.Keys
  {
    if s.queue == map[] then s
    else BridgeRun(rs, vcf, maxCov, PopBridge(rs, vcf, maxCov, s, TopOf(s.queue)))
  }

  /** Popping the top entry is the first step of the run. */
  lemma BridgeRunStep(rs: seq<Read>, vcf: map<int, nat>, maxCov: int, s: BridgeState, item: nat)
    requires BridgeReady(rs, vcf, s) && IsTop(s.queue, item)
    ensures BridgeRun(rs, vcf, maxCov, s) == BridgeRun(rs, vcf, maxCov, PopBridge(rs, vcf, maxCov, s, item))
  {
    TopUnique(s.queue, item);
    assert TopOf(s.queue) == item;
  }

  /** `BridgeInv` on a state, with the queued reads as the remaining ones. */
  ghost predicate BridgeInvAt(rs: seq<Read>, vcf: map<int, nat>, maxCov: int, keys0: set<nat>, counts0: seq<nat>,
                              rep0: map<int, int>, s: BridgeState)
  {
    BridgeInv(rs, vcf, maxCov, keys0, s.queue.Keys, s.undecided, s.bridging, s.order, counts0, s.counts, rep0, s.rep)
  }

  /** Every pop keeps the bridging invariant. */
  lemma PopBridgeKeeps(rs: seq<Read>, vcf: map<int, nat>, maxCov: int, keys0: set<nat>, counts0: seq<nat>,
                       rep0: map<int, int>, s: BridgeState, item: nat)
    requires BridgeReady(rs, vcf, s) && item in s.queue
    requires BridgeInvAt(rs, vcf, maxCov, keys0, counts0, rep0, s)
    ensures BridgeInvAt(rs, vcf, maxCov, keys0, counts0, rep0, PopBridge(rs, vcf, maxCov, s, item))
  {
    var read := rs[item];
    assert Placed(read, vcf, |s.counts|) && read[0].position in vcf && read[|read| - 1].position in vcf;
    var begin, end := Begin(read, vcf), End(read, vcf);
    if RangeMax(s.counts, begin, end) >= maxCov {
      PopBridgeViolated(rs, vcf, maxCov, s, item);
      BridgeViolate(rs, vcf, maxCov, keys0, s.queue.Keys, s.undecided, s.bridging, s.order, counts0, s.counts,
                    rep0, s.rep, item);
    } else if |Blocks(s.rep, Positions(read))| < 2 {
      PopBridgeSkipped(rs, vcf, maxCov, s, item);
      FewBlocksIffOneComponent(s.rep, read);
      BridgeSkip(rs, vcf, maxCov, keys0, s.queue.Keys, s.undecided, s.bridging, s.order, counts0, s.counts,
                 rep0, s.rep, item);
    } else {
      PopBridgeSelected(rs, vcf, maxCov, s, item);
      PopBridgeSelectedKeeps(rs, vcf, maxCov, keys0, counts0, rep0, s, item);
    }
  }

  lemma PopBridgeViolated(rs: seq<Read>, vcf: map<int, nat>, maxCov: int, s: BridgeState, item: nat)
    requires BridgeReady(rs, vcf, s) && item in s.queue
    requires RangeMax(s.counts, Begin(rs[item], vcf), End(rs[item], vcf)) >= maxCov
    ensures PopBridge(rs, vcf, maxCov, s, item) == s.(queue := s.queue - {item}, undecided := s.undecided - {item})
  {
  }

  lemma PopBridgeSkipped(rs: seq<Read>, vcf: map<int, nat>, maxCov: int, s: BridgeState, item: nat)
    requires BridgeReady(rs, vcf, s) && item in s.queue
    requires RangeMax(s.counts, Begin(rs[item], vcf), End(rs[item], vcf)) < maxCov
    requires |Blocks(s.rep, Positions(rs[item]))| < 2
    ensures PopBridge(rs, vcf, maxCov, s, item) == s.(queue := s.queue - {item})
  {
  }

  lemma PopBridgeSelected(rs: seq<Read>, vcf: map<int, nat>, maxCov: int, s: BridgeState, item: nat)
    requires BridgeReady(rs, vcf, s) && item in s.queue
    requires RangeMax(s.counts, Begin(rs[item], vcf), End(rs[item], vcf)) < maxCov
    requires |Blocks(s.rep, Positions(rs[item]))| >= 2
    ensures PopBridge(rs, vcf, maxCov, s, item) ==
      BridgeState(s.queue - {item}, AddSpan(s.counts, Begin(rs[item], vcf), End(rs[item], vcf)),
                  Merged(s.rep, Positions(rs[item])), s.undecided - {item}, s.bridging + {item}, s.order + [item])
  {
  }

  lemma PopBridgeSelectedKeeps(rs: seq<Read>, vcf: map<int, nat>, maxCov: int, keys0: set<nat>, counts0: seq<nat>,
                               rep0: map<int, int>, s: BridgeState, item: nat)
    requires BridgeReady(rs, vcf, s) && item in s.queue
    requires BridgeInvAt(rs, vcf, maxCov, keys0, counts0, rep0, s)
    requires RangeMax(s.counts, Begin(rs[item], vcf), End(rs[item], vcf)) < maxCov
    requires |Blocks(s.rep, Positions(rs[item]))| >= 2
    ensures BridgeInvAt(rs, vcf, maxCov, keys0, counts0, rep0,
      BridgeState(s.queue - {item}, AddSpan(s.counts, Begin(rs[item], vcf), End(rs[item], vcf)),
                  Merged(s.rep, Positions(rs[item])), s.undecided - {item}, s.bridging + {item}, s.order + [item]))
  {
    var read := rs[item];
    var ps := Positions(read);
    FewBlocksIffOneComponent(s.rep, read);
    BlocksHas(s.rep, ps, ps[0]);
    BlocksAreRoots(s.rep, ps);
    var root := MinOf(Blocks(s.rep, ps), s.rep[ps[0]]);
    AbsorbIsMerged(s.rep, ps, root);
    BridgeAccept(rs, vcf, maxCov, keys0, s.queue.Keys, s.undecided, s.bridging, s.order, counts0, s.counts,
                 rep0, s.rep, item, root);
  }

  /** A run keeps the bridging invariant through every pop. */
  lemma {:induction false} BridgeRunKeeps(rs: seq<Read>, vcf: map<int, nat>, maxCov: int, keys0: set<nat>,
                                          counts0: seq<nat>, rep0: map<int, int>, s: BridgeState)
    requires BridgeReady(rs, vcf, s)
    requires BridgeInvAt(rs, vcf, maxCov, keys0, counts0, rep0, s)
    ensures BridgeInvAt(rs, vcf, maxCov, keys0, counts0, rep0, BridgeRun(rs, vcf, maxCov, s))
    decreases s.queue.Keys
  {
    if s.queue != map[] {
      var item := TopOf(s.queue);
      PopBridgeKeeps(rs, vcf, maxCov, keys0, counts0, rep0, s, item);
      BridgeRunKeeps(rs, vcf, maxCov, keys0, counts0, rep0, PopBridge(rs, vcf, maxCov, s, item));
    }
  }

  /**
   * One iteration of the bridging loop: pop the top entry and classify its read against the
   * current components, exactly as `PopBridge` does; `selected` is `selected0` plus the bridging
   * reads before and after.
   */
  method BridgePop(pq: PriorityQueue, cov: CovMonitor, finder: ComponentFinder, maxCov: int, rs: seq<Read>,
                   vcf: map<int, nat>, ghost selected0: set<nat>, undecided: set<nat>, selected: set<nat>,
                   bridging: set<nat>, ghost order: seq<nat>)
    returns (undecided': set<nat>, selected': set<nat>, bridging': set<nat>, ghost order': seq<nat>, item: nat)
    requires pq.entries != map[] && finder.Valid() && selected == selected0 + bridging
    requires AllPlaced(rs, vcf, cov.coverage.Length, pq.entries.Keys) && AllKnown(rs, finder.rep, pq.entries.Keys)
    modifies pq, cov.coverage, finder
    ensures finder.Valid()
    ensures IsTop(old(pq.entries), item)
    ensures BridgeState(pq.entries, cov.coverage[..], finder.rep, undecided', bridging', order') ==
      PopBridge(rs, vcf, maxCov,
                BridgeState(old(pq.entries), old(cov.coverage[..]), old(finder.rep), undecided, bridging, order), item)
    ensures selected' == selected0 + bridging'
  {
    ghost var s := BridgeState(pq.entries, cov.coverage[..], finder.rep, undecided, bridging, order);
    var score;
    score, item := pq.Pop();
    var read := rs[item];
    assert Placed(read, vcf, |s.counts|) && read[0].position in vcf && read[|read| - 1].position in vcf;
    var coveredBlocks := CoveredBlocks(finder, read);
    var begin := Begin(read, vcf);
    var end := End(read, vcf);
    var m := cov.MaxCoverageInRange(begin, end);
    undecided', selected', bridging', order' := undecided, selected, bridging, order;
    if m >= maxCov {
      PopBridgeViolated(rs, vcf, maxCov, s, item);
      undecided' := undecided - {item};
    } else if |coveredBlocks| >= 2 {
      PopBridgeSelected(rs, vcf, maxCov, s, item);
      undecided', selected', bridging', order' :=
        BridgeSelect(cov, finder, rs, item, begin, end, undecided, selected, bridging, order);
      UnionAdd(selected0, bridging, item);
    } else {
      PopBridgeSkipped(rs, vcf, maxCov, s, item);
    }
  }

  /** Set arithmetic for the bridging loop, kept apart so the loop body does not have to prove it. */
  lemma UnionAdd(selected0: set<nat>, bridging: set<nat>, item: nat)
    ensures (selected0 + bridging) + {item} == selected0 + (bridging + {item})
  {
  }

  /**
   * The selecting branch of the bridging loop: the read is selected for bridging, its span is
   * counted and its positions are merged into one component.
   */
  method BridgeSelect(cov: CovMonitor, finder: ComponentFinder, rs: seq<Read>, item: nat, begin: nat, end: nat,
                      undecided: set<nat>, selected: set<nat>, bridging: set<nat>, ghost order: seq<nat>)
    returns (undecided': set<nat>, selected': set<nat>, bridging': set<nat>, ghost order': seq<nat>)
    requires finder.Valid() && item < |rs| && rs[item] != [] && Known(finder.rep, rs[item])
    requires begin < end <= cov.coverage.Length
    modifies cov.coverage, finder
    ensures finder.Valid()
    ensures cov.coverage[..] == AddSpan(old(cov.coverage[..]), begin, end)
    ensures finder.rep == Merged(old(finder.rep), Positions(rs[item]))
    ensures undecided' == undecided - {item} && selected' == selected + {item}
    ensures bridging' == bridging + {item} && order' == order + [item]
  {
    SelectRead(cov, finder, rs[item], begin, end);
    bridging' := bridging + {item};
    selected' := selected + {item};
    undecided' := undecided - {item};
    order' := order + [item];
  }

  /** `add_read` on the read's span, then the read's positions merged into one component. */
  method SelectRead(cov: CovMonitor, finder: ComponentFinder, read: Read, begin: nat, end: nat)
    requires finder.Valid() && read != [] && Known(finder.rep, read)
    requires begin < end <= cov.coverage.Length
    modifies cov.coverage, finder
    ensures finder.Valid()
    ensures cov.coverage[..] == AddSpan(old(cov.coverage[..]), begin, end)
    ensures finder.rep == Merged(old(finder.rep), Positions(read))
  {
    cov.AddRead(begin, end);
    var readPositions := Positions(read);
    MergeRead(finder, readPositions);
  }

  /**
   * The bridging block of `readselection`: every undecided read is popped once, best score
   * first, as `BridgeRun` does from the initial queue, counters and components.
   */
  method BridgingPass(pq: PriorityQueue, cov: CovMonitor, finder: ComponentFinder, maxCov: int, rs: seq<Read>,
                      vcf: map<int, nat>, undecided: set<nat>, selected: set<nat>)
    returns (undecided': set<nat>, selected': set<nat>, bridgingReads: set<nat>, ghost order: seq<nat>)
    requires pq.entries.Keys == undecided && finder.Valid()
    requires AllPlaced(rs, vcf, cov.coverage.Length, undecided) && AllKnown(rs, finder.rep, undecided)
    modifies pq, cov.coverage, finder
    ensures pq.entries == map[] && finder.Valid()
    ensures selected' == selected + bridgingReads
    ensures BridgeRun(rs, vcf, maxCov, BridgeState(old(pq.entries), old(cov.coverage[..]), old(finder.rep), undecided, {}, []))
            == BridgeState(map[], cov.coverage[..], finder.rep, undecided', bridgingReads, order)
    ensures BridgeInv(rs, vcf, maxCov, undecided, {}, undecided', bridgingReads, order,
                      old(cov.coverage[..]), cov.coverage[..], old(finder.rep), finder.rep)
  {
    ghost var start := BridgeState(pq.entries, cov.coverage[..], finder.rep, undecided, {}, []);
    BridgeStart(rs, vcf, maxCov, undecided, undecided, undecided, {}, [], cov.coverage[..], cov.coverage[..],
                finder.rep, finder.rep);
    BridgeRunKeeps(rs, vcf, maxCov, undecided, cov.coverage[..], finder.rep, start);
    undecided', selected', bridgingReads, order := BridgeLoop(pq, cov, finder, maxCov, rs, vcf, undecided, selected);
  }

  /** The pop loop of the bridging block, run to an empty queue. */
  method BridgeLoop(pq: PriorityQueue, cov: CovMonitor, finder: ComponentFinder, maxCov: int, rs: seq<Read>,
                    vcf: map<int, nat>, undecided: set<nat>, selected: set<nat>)
    returns (undecided': set<nat>, selected': set<nat>, bridgingReads: set<nat>, ghost order: seq<nat>)
    requires finder.Valid()
    requires AllPlaced(rs, vcf, cov.coverage.Length, pq.entries.Keys) && AllKnown(rs, finder.rep, pq.entries.Keys)
    modifies pq, cov.coverage, finder
    ensures pq.entries == map[] && finder.Valid()
    ensures selected' == selected + bridgingReads
    ensures BridgeRun(rs, vcf, maxCov, BridgeState(old(pq.entries), old(cov.coverage[..]), old(finder.rep), undecided, {}, []))
            == BridgeState(map[], cov.coverage[..], finder.rep, undecided', bridgingReads, order)
  {
    ghost var start := BridgeState(pq.entries, cov.coverage[..], finder.rep, undecided, {}, []);
    undecided', selected', bridgingReads, order := undecided, selected, {}, [];
    var empty := pq.IsEmpty();
    while !empty
      invariant empty <==> pq.entries == map[]
      invariant finder.Valid()
      invariant selected' == selected + bridgingReads
      invariant BridgeReady(rs, vcf, BridgeState(pq.entries, cov.coverage[..], finder.rep, undecided', bridgingReads, order))
      invariant BridgeRun(rs, vcf, maxCov,
                          BridgeState(pq.entries, cov.coverage[..], finder.rep, undecided', bridgingReads, order)) ==
                BridgeRun(rs, vcf, maxCov, start)
      decreases pq.entries.Keys
    {
      ghost var before := BridgeState(pq.entries, cov.coverage[..], finder.rep, undecided', bridgingReads, order);
      var item;
      undecided', selected', bridgingReads, order, item :=
        BridgePop(pq, cov, finder, maxCov, rs, vcf, selected, undecided', selected', bridgingReads, order);
      BridgeRunStep(rs, vcf, maxCov, before, item);
      ghost var after := PopBridge(rs, vcf, maxCov, before, item);
      assert BridgeReady(rs, vcf, after);
      empty := pq.IsEmpty();
    }
  }
}
