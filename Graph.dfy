/**
 * The component finder: a union-find over variant positions. `rep` maps every position
 * to the representative of its component; the representative is the smallest member, so
 * a component is named after its leftmost position.
 */
module Graph {
  import opened Reads

  /** Every representative is a member of its own component and no larger than any member. */
  ghost predicate ValidRep(rep: map<int, int>) {
    forall x :: x in rep ==> IsRoot(rep, rep[x]) && rep[x] <= x
  }

  ghost predicate IsRoot(rep: map<int, int>, r: int) {
    r in rep && rep[r] == r
  }

  /** The representative of a member is a root. */
  lemma RepIsRoot(rep: map<int, int>, x: int)
    requires ValidRep(rep) && x in rep
    ensures IsRoot(rep, rep[x])
  {
  }

  /** The representatives of the components that the positions `ps` belong to. */
  function Blocks(rep: map<int, int>, ps: seq<int>): set<int> {
    set p | p in ps && p in rep :: rep[p]
  }

  /** The components after `merge(a, b)`: the two are united under the smaller representative. */
  function Join(rep: map<int, int>, a: int, b: int): (r: map<int, int>)
    requires ValidRep(rep) && a in rep && b in rep
    ensures r.Keys == rep.Keys
    ensures r[a] == r[b]
  {
    var ra := rep[a];
    var rb := rep[b];
    var root := if ra < rb then ra else rb;
    map x | x in rep :: if rep[x] == ra || rep[x] == rb then root else rep[x]
  }

  lemma JoinValid(rep: map<int, int>, a: int, b: int)
    requires ValidRep(rep) && a in rep && b in rep
    ensures ValidRep(Join(rep, a, b))
  {
  }

  /** `merge(a, b)` unites exactly the components of `a` and `b`. */
  lemma JoinComponents(rep: map<int, int>, a: int, b: int, x: int, y: int)
    requires ValidRep(rep) && a in rep && b in rep && x in rep && y in rep
    ensures Join(rep, a, b)[x] == Join(rep, a, b)[y] <==>
      rep[x] == rep[y] ||
      ((rep[x] == rep[a] || rep[x] == rep[b]) && (rep[y] == rep[a] || rep[y] == rep[b]))
  {
  }

  /** Every position whose representative is in `B` is moved under `root`. */
  function Absorb(rep: map<int, int>, B: set<int>, root: int): (r: map<int, int>)
    ensures r.Keys == rep.Keys
  {
    map x | x in rep :: if rep[x] in B then root else rep[x]
  }

  /** `B` is a set of representatives and `root` is the smallest of them. */
  ghost predicate RootOf(rep: map<int, int>, B: set<int>, root: int) {
    root in B &&
    (forall b :: b in B ==> b in rep && rep[b] == b && root <= b)
  }

  lemma AbsorbValid(rep: map<int, int>, B: set<int>, root: int)
    requires ValidRep(rep) && RootOf(rep, B, root)
    ensures ValidRep(Absorb(rep, B, root))
  {
  }

  /** Absorbing the blocks of `ps` puts every position of `ps` in one component, and splits none. */
  lemma {:induction false} AbsorbComponents(rep: map<int, int>, ps: seq<int>, root: int, x: int, y: int)
    requires ValidRep(rep) && RootOf(rep, Blocks(rep, ps), root)
    requires x in rep && y in rep
    ensures var r := Absorb(rep, Blocks(rep, ps), root);
      (x in ps && y in ps ==> r[x] == r[y]) &&
      (rep[x] == rep[y] ==> r[x] == r[y])
  {
    if x in ps {
      assert rep[x] in Blocks(rep, ps);
    }
    if y in ps {
      assert rep[y] in Blocks(rep, ps);
    }
  }

  /**
   * One more `merge(p0, q)` after `p0`'s component has absorbed the blocks `B`: the blocks
   * become `B` plus the block of `q`, under the smaller of the two roots.
   */
  lemma JoinAbsorb(rep: map<int, int>, B: set<int>, root: int, p0: int, q: int)
    requires ValidRep(rep) && RootOf(rep, B, root)
    requires p0 in rep && q in rep && rep[p0] in B
    ensures ValidRep(Absorb(rep, B, root))
    ensures var r := Join(Absorb(rep, B, root), p0, q);
      RootOf(rep, B + {rep[q]}, r[p0]) && r == Absorb(rep, B + {rep[q]}, r[p0])
  {
    AbsorbValid(rep, B, root);
    var a := Absorb(rep, B, root);
    var r := Join(a, p0, q);
    var rb := if rep[q] in B then root else rep[q];
    var root' := if root < rb then root else rb;
    assert a[p0] == root && a[q] == rb;
    assert r[p0] == root';
    assert IsRoot(rep, rep[q]);
    JoinAbsorbRoot(rep, B, root, rep[q], root');
    forall x | x in rep
      ensures r[x] == (if rep[x] in B || rep[x] == rep[q] then root' else rep[x])
    {
      JoinAbsorbAt(rep, B, root, p0, q, x);
    }
    AbsorbOneMore(rep, B, rep[q], root', r);
  }

  lemma AbsorbOneMore(rep: map<int, int>, B: set<int>, rq: int, root: int, r: map<int, int>)
    requires r.Keys == rep.Keys
    requires forall x :: x in rep ==> r[x] == if rep[x] in B || rep[x] == rq then root else rep[x]
    ensures r == Absorb(rep, B + {rq}, root)
  {
    var a := Absorb(rep, B + {rq}, root);
    forall x | x in rep ensures a[x] == r[x] {
      assert (rep[x] in B + {rq}) == (rep[x] in B || rep[x] == rq);
    }
    assert a.Keys == r.Keys;
  }

  lemma JoinAbsorbRoot(rep: map<int, int>, B: set<int>, root: int, rq: int, root': int)
    requires RootOf(rep, B, root) && IsRoot(rep, rq)
    requires root' == (if root < (if rq in B then root else rq) then root else (if rq in B then root else rq))
    ensures RootOf(rep, B + {rq}, root')
  {
  }

  lemma JoinAbsorbAt(rep: map<int, int>, B: set<int>, root: int, p0: int, q: int, x: int)
    requires ValidRep(rep) && RootOf(rep, B, root)
    requires p0 in rep && q in rep && rep[p0] in B && x in rep
    requires ValidRep(Absorb(rep, B, root))
    ensures var rb := if rep[q] in B then root else rep[q];
      Join(Absorb(rep, B, root), p0, q)[x] ==
      (if rep[x] in B || rep[x] == rep[q] then (if root < rb then root else rb) else rep[x])
  {
    var a := Absorb(rep, B, root);
    assert a[x] == (if rep[x] in B then root else rep[x]);
    assert a[p0] == root;
    assert a[q] == (if rep[q] in B then root else rep[q]);
    if rep[x] !in B && rep[x] != rep[q] {
      assert a[x] != a[p0] && a[x] != a[q];
    }
  }

  /** Absorbing a root's own block into itself changes nothing. */
  lemma AbsorbOwn(rep: map<int, int>, r: int)
    requires IsRoot(rep, r)
    ensures Absorb(rep, {r}, r) == rep
  {
    var a := Absorb(rep, {r}, r);
    forall x | x in rep ensures a[x] == rep[x] {
    }
  }

  lemma BlocksSnoc(rep: map<int, int>, ps: seq<int>, j: nat)
    requires j < |ps| && ps[j] in rep
    ensures Blocks(rep, ps[..j + 1]) == Blocks(rep, ps[..j]) + {rep[ps[j]]}
  {
    var long, short := ps[..j + 1], ps[..j];
    assert long == short + [ps[j]];
    forall v | v in Blocks(rep, long) ensures v in Blocks(rep, short) || v == rep[ps[j]] {
      var p :| p in long && p in rep && rep[p] == v;
      assert p in short || p == ps[j];
    }
    forall v | v in Blocks(rep, short) ensures v in Blocks(rep, long) {
      var p :| p in short && p in rep && rep[p] == v;
      assert p in long;
    }
    var last := long[j];
    assert last == ps[j] && last in long;
    assert rep[ps[j]] in Blocks(rep, long);
    assert Blocks(rep, long) == Blocks(rep, short) + {rep[ps[j]]};
  }

  /** `b` arises from `a` by merging components only: every element stays with its old representative. */
  ghost predicate Coarser(a: map<int, int>, b: map<int, int>) {
    a.Keys == b.Keys && forall x :: x in a ==> a[x] in b && b[x] == b[a[x]]
  }

  lemma CoarserRefl(a: map<int, int>)
    requires ValidRep(a)
    ensures Coarser(a, a)
  {
  }

  lemma CoarserTrans(a: map<int, int>, b: map<int, int>, c: map<int, int>)
    requires Coarser(a, b) && Coarser(b, c)
    ensures Coarser(a, c)
  {
    forall x | x in a ensures c[x] == c[a[x]] {
      assert a[x] in b && b[x] == b[a[x]];
      assert c[x] == c[b[x]];
      var y := a[x];
      assert y in b;
      assert c[y] == c[b[y]];
    }
  }

  /** Two elements in one component stay in one component in any coarser partition. */
  lemma CoarserKeepsTogether(a: map<int, int>, b: map<int, int>, x: int, y: int)
    requires Coarser(a, b) && x in a && y in a && a[x] == a[y]
    ensures b[x] == b[y]
  {
  }

  /** Absorbing blocks under their smallest root only merges components. */
  lemma AbsorbCoarser(rep: map<int, int>, B: set<int>, root: int)
    requires ValidRep(rep) && RootOf(rep, B, root)
    ensures Coarser(rep, Absorb(rep, B, root))
  {
    var r := Absorb(rep, B, root);
    forall x | x in rep ensures rep[x] in r && r[x] == r[rep[x]] {
      assert IsRoot(rep, rep[x]);
    }
  }

  /** A set with two different members has at least two members. */
  lemma TwoMembers<T>(s: set<T>, a: T, b: T)
    requires a in s && b in s
    ensures a != b ==> |s| >= 2
  {
    if a != b {
      assert b in s - {a};
      assert |s - {a}| == |s| - 1;
    }
  }

  /** The smallest element of a set of positions that holds `w`. */
  ghost function MinOf(B: set<int>, w: int): (m: int)
    requires w in B
    ensures m in B && forall b :: b in B ==> m <= b
    decreases B
  {
    if forall b :: b in B ==> w <= b then w
    else
      var b :| b in B && b < w;
      var smaller := set x | x in B && x < w;
      assert w !in smaller;
      var m := MinOf(smaller, b);
      assert forall x :: x in B ==> x in smaller || w <= x;
      m
  }

  lemma BlocksHas(rep: map<int, int>, ps: seq<int>, p: int)
    requires p in ps && p in rep
    ensures rep[p] in Blocks(rep, ps)
  {
  }

  /** The root `RootOf` names is determined by the blocks: it is their smallest element. */
  lemma RootOfIsMin(rep: map<int, int>, B: set<int>, root: int)
    requires RootOf(rep, B, root)
    ensures forall w :: w in B ==> MinOf(B, w) == root
  {
    forall w | w in B ensures MinOf(B, w) == root {
      var m := MinOf(B, w);
      assert root <= m && m <= root;
    }
  }

  /** The blocks touched by some positions are roots. */
  lemma BlocksAreRoots(rep: map<int, int>, ps: seq<int>)
    requires ValidRep(rep)
    ensures forall b :: b in Blocks(rep, ps) ==> b in rep && rep[b] == b
  {
    forall b | b in Blocks(rep, ps) ensures b in rep && rep[b] == b {
      var p :| p in ps && p in rep && rep[p] == b;
      RepIsRoot(rep, p);
    }
  }

  /**
   * The components after the merge loop over the positions `ps` of one read: the blocks those
   * positions touch become one component under the smallest of their representatives.
   */
  ghost function Merged(rep: map<int, int>, ps: seq<int>): (r: map<int, int>)
    ensures r.Keys == rep.Keys
  {
    if ps != [] && ps[0] in rep then
      BlocksHas(rep, ps, ps[0]);
      Absorb(rep, Blocks(rep, ps), MinOf(Blocks(rep, ps), rep[ps[0]]))
    else
      rep
  }

  lemma MergedValid(rep: map<int, int>, ps: seq<int>)
    requires ValidRep(rep)
    ensures ValidRep(Merged(rep, ps))
  {
    if ps != [] && ps[0] in rep {
      BlocksHas(rep, ps, ps[0]);
      BlocksAreRoots(rep, ps);
      AbsorbValid(rep, Blocks(rep, ps), MinOf(Blocks(rep, ps), rep[ps[0]]));
    }
  }

  /** A merge by `Absorb` under a `RootOf` the touched blocks is the merge `Merged` names. */
  lemma AbsorbIsMerged(rep: map<int, int>, ps: seq<int>, root: int)
    requires RootOf(rep, Blocks(rep, ps), root) && ps != [] && ps[0] in rep
    ensures Absorb(rep, Blocks(rep, ps), root) == Merged(rep, ps)
  {
    BlocksHas(rep, ps, ps[0]);
    RootOfIsMin(rep, Blocks(rep, ps), root);
  }

  /** Each of `values` in a component of its own. */
  function Identity(values: set<int>): (r: map<int, int>)
    ensures r.Keys == values
  {
    map x | x in values :: x
  }

  /** Merging the positions of a read leaves alone a position that is its own component and lies outside the read. */
  lemma MergedUntouched(rep: map<int, int>, ps: seq<int>, x: int)
    requires x in rep && rep[x] == x && x !in ps
    requires forall y :: y in rep && rep[y] == x ==> y == x
    ensures Merged(rep, ps)[x] == x
    ensures forall y :: y in rep && Merged(rep, ps)[y] == x ==> y == x
  {
    var B := Blocks(rep, ps);
    assert x !in B;
    if ps != [] && ps[0] in rep {
      BlocksHas(rep, ps, ps[0]);
    }
  }

  class ComponentFinder {
    var rep: map<int, int>

    ghost predicate Valid()
      reads this
    {
      ValidRep(rep)
    }

    /** Every value starts as its own component. */
    constructor (values: seq<int>)
      ensures Valid()
      ensures rep == Identity(Elems(values))
    {
      rep := map x | x in values :: x;
    }

    /** The representative of `x`'s component, which is its smallest member. */
    method Find(x: int) returns (r: int)
      requires Valid() && x in rep
      ensures r == rep[x]
      ensures r <= x && r in rep && rep[r] == r
    {
      r := rep[x];
    }

    method Merge(a: int, b: int)
      requires Valid() && a in rep && b in rep
      modifies this
      ensures Valid()
      ensures rep == Join(old(rep), a, b)
    {
      JoinValid(rep, a, b);
      rep := Join(rep, a, b);
    }
  }
}
