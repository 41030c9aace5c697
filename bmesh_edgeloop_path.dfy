/**
 * `BM_mesh_edgeloops_find_path`: a breadth-first search that grows from the
 * source and the target vertex in turn, over the tagged edges, until the two
 * fronts meet; the path is then rebuilt from the edge each vertex was
 * reached by.
 *
 * A vertex's index records how it was reached: 0 for not yet, 1 for the
 * source and 2, 3, ... for the vertices one, two, ... steps further out from
 * it; -1 for the target and -2, -3, ... on the target's side.
 */
module BMeshEdgeLoopPath {
  import opened BMeshGraph
  import opened BMeshEdgeLoop

  /** Every edge joins two distinct vertices below `n`. */
  ghost predicate EdgesIn(es: seq<Edge>, n: nat) {
    forall e :: 0 <= e < |es| ==> es[e].v1 < n && es[e].v2 < n && es[e].v1 != es[e].v2
  }

  /** The index a vertex reached from `x` gets: one step further from the source or target. */
  function Toward(i: int): int {
    if i > 0 then i - 1 else i + 1
  }

  /**
   * `x` was reached through its edge `back[x]`, an allowed edge whose other
   * end has an index one step closer to the side's start.
   */
  ghost predicate BackLink(es: seq<Edge>, n: nat, allowed: set<nat>, index: seq<int>, back: seq<int>, x: nat)
    requires |index| == n && |back| == n && x < n && EdgesIn(es, n)
  {
    0 <= back[x] < |es| && back[x] in allowed && InEdge(es[back[x]], x) &&
    index[OtherVert(es[back[x]], x)] == Toward(index[x])
  }

  /**
   * What the search state says about vertex `x`: index 1 only for the
   * source, -1 only for the target, and a back link for every other reached
   * vertex.
   */
  ghost predicate VertOk(es: seq<Edge>, n: nat, allowed: set<nat>, index: seq<int>, back: seq<int>, vSrc: nat, vDst: nat, x: nat)
    requires |index| == n && |back| == n && x < n && EdgesIn(es, n)
  {
    (index[x] == 1 ==> x == vSrc) && (index[x] == -1 ==> x == vDst) &&
    (index[x] > 1 || index[x] < -1 ==> BackLink(es, n, allowed, index, back, x))
  }

  /**
   * The state of the search: the source has index 1, the target -1, every
   * vertex satisfies `VertOk`, and every edge pointer is unset or an edge of
   * its vertex.
   */
  ghost predicate Chain(es: seq<Edge>, n: nat, allowed: set<nat>, index: seq<int>, back: seq<int>, vSrc: nat, vDst: nat)
  {
    EdgesIn(es, n) && |index| == n && |back| == n && vSrc < n && vDst < n &&
    index[vSrc] == 1 && index[vDst] == -1 &&
    (forall x :: 0 <= x < n ==> VertOk(es, n, allowed, index, back, vSrc, vDst, x)) &&
    BackIncident(es, back)
  }

  /** Every vertex's edge pointer is unset (-1) or an edge of the vertex. */
  ghost predicate BackIncident(es: seq<Edge>, back: seq<int>) {
    forall x :: 0 <= x < |back| ==> back[x] == -1 || (0 <= back[x] < |es| && InEdge(es[back[x]], x))
  }

  /** Every vertex of a front lies on the side of `dir`. */
  ghost predicate Front(n: nat, index: seq<int>, lb: seq<nat>, dir: int)
    requires |index| == n
  {
    forall k :: 0 <= k < |lb| ==> lb[k] < n && (if dir == 1 then index[lb[k]] >= 1 else index[lb[k]] <= -1)
  }

  /** Only vertices not yet reached change. */
  ghost predicate ReachedKept(n: nat, index0: seq<int>, back0: seq<int>, index: seq<int>, back: seq<int>)
    requires |index0| == |back0| == |index| == |back| == n
  {
    forall x :: 0 <= x < n && index0[x] != 0 ==> index[x] == index0[x] && back[x] == back0[x]
  }

  /** Index `i` belongs to the side of `dir`: the source's (1) or the target's (-1). */
  function OnSide(i: int, dir: int): bool {
    if dir == 1 then i >= 1 else i <= -1
  }

  /**
   * Every allowed edge the search has untagged joins two vertices reached
   * from the same side.
   */
  ghost predicate Settled(es: seq<Edge>, allowed: set<nat>, index: seq<int>, tags: set<nat>) {
    forall e :: 0 <= e < |es| && e in allowed && e !in tags && es[e].v1 < |index| && es[e].v2 < |index| ==>
      (OnSide(index[es[e].v1], 1) && OnSide(index[es[e].v2], 1)) ||
      (OnSide(index[es[e].v1], -1) && OnSide(index[es[e].v2], -1))
  }

  /** Some walk along allowed edges leads from `a` to `b`. */
  ghost predicate Connected(es: seq<Edge>, allowed: set<nat>, a: nat, b: nat) {
    exists walk: seq<nat>, via: seq<nat> :: PathVia(es, walk, via, allowed) && walk != [] && walk[0] == a && Last(walk) == b
  }

  /** No edge of `tags` has `x` as an end. */
  ghost predicate Bare(es: seq<Edge>, tags: set<nat>, x: nat) {
    forall e :: e in tags && e < |es| ==> !InEdge(es[e], x)
  }

  /**
   * Every vertex the side of `dir` has reached, except those of its front
   * `lb`, has no tagged edge left.
   */
  ghost predicate Spent(es: seq<Edge>, n: nat, index: seq<int>, tags: set<nat>, lb: seq<nat>, dir: int)
    requires |index| == n
  {
    forall x :: 0 <= x < n && OnSide(index[x], dir) && x !in lb ==> Bare(es, tags, x)
  }

  /** Every vertex the side of `dir` has reached has no tagged edge left: that side can reach nothing more. */
  ghost predicate Exhausted(es: seq<Edge>, n: nat, index: seq<int>, tags: set<nat>, dir: int)
    requires |index| == n
  {
    forall x :: 0 <= x < n && OnSide(index[x], dir) ==> Bare(es, tags, x)
  }

  /** Every vertex whose index changed from `index0` is in the front `lb`. */
  ghost predicate NewIn(n: nat, index0: seq<int>, index: seq<int>, lb: seq<nat>)
    requires |index0| == |index| == n
  {
    forall x :: 0 <= x < n && index[x] != index0[x] ==> x in lb
  }

  /** What the chain says about one vertex. */
  lemma {:induction false} ChainAt(es: seq<Edge>, n: nat, allowed: set<nat>, index: seq<int>, back: seq<int>, vSrc: nat, vDst: nat, x: nat)
    requires Chain(es, n, allowed, index, back, vSrc, vDst) && x < n
    ensures index[x] == 1 ==> x == vSrc
    ensures index[x] == -1 ==> x == vDst
    ensures index[x] > 1 || index[x] < -1 ==>
      0 <= back[x] < |es| && back[x] in allowed && InEdge(es[back[x]], x) &&
      OtherVert(es[back[x]], x) < n && index[OtherVert(es[back[x]], x)] == Toward(index[x])
  {
    assert VertOk(es, n, allowed, index, back, vSrc, vDst, x);
  }

  /** Reaching an unreached vertex `x` from a reached `v` along an allowed edge keeps the chain. */
  lemma {:induction false} ChainReach(es: seq<Edge>, n: nat, allowed: set<nat>, index: seq<int>, back: seq<int>,
                   vSrc: nat, vDst: nat, v: nat, dir: int, x: nat, e: nat)
    requires Chain(es, n, allowed, index, back, vSrc, vDst)
    requires dir == 1 || dir == -1
    requires v < n && (if dir == 1 then index[v] >= 1 else index[v] <= -1)
    requires x < n && index[x] == 0
    requires e < |es| && e in allowed && InEdge(es[e], v) && OtherVert(es[e], v) == x
    ensures Chain(es, n, allowed, index[x := index[v] + dir], back[x := e], vSrc, vDst)
    ensures ReachedKept(n, index, back, index[x := index[v] + dir], back[x := e])
  {
    var index', back' := index[x := index[v] + dir], back[x := e];
    assert OtherVert(es[e], x) == v;
    forall y | 0 <= y < n
      ensures VertOk(es, n, allowed, index', back', vSrc, vDst, y)
    {
      assert VertOk(es, n, allowed, index, back, vSrc, vDst, y);
      if y != x && (index[y] > 1 || index[y] < -1) {
        assert OtherVert(es[back[y]], y) != x;
      }
    }
  }

  /** A front stays on its side when an unreached vertex is reached from that side and joins it. */
  lemma {:induction false} FrontKept(n: nat, index: seq<int>, lb: seq<nat>, dir: int, x: nat, i: int)
    requires |index| == n && Front(n, index, lb, dir) && x < n
    requires index[x] == 0 && (if dir == 1 then i >= 1 else i <= -1)
    ensures Front(n, index[x := i], lb + [x], dir)
  {
  }

  /** A front of one side stays on its side while only unreached vertices change. */
  lemma {:induction false} FrontReachedKept(n: nat, index0: seq<int>, back0: seq<int>, index: seq<int>, back: seq<int>, lb: seq<nat>, dir: int)
    requires |index0| == |back0| == |index| == |back| == n
    requires Front(n, index0, lb, dir) && ReachedKept(n, index0, back0, index, back)
    ensures Front(n, index, lb, dir)
  {
    forall k | 0 <= k < |lb|
      ensures if dir == 1 then index[lb[k]] >= 1 else index[lb[k]] <= -1
    {
      assert index0[lb[k]] != 0;
    }
  }

  /**
   * One step of the side of `dir`, without a match, that left the vertices
   * of its front `lb` with no tagged edge and put every newly reached vertex
   * into its next front `lbNext`, keeps both sides spent.
   */
  lemma {:induction false} SpentStep(es: seq<Edge>, n: nat, index0: seq<int>, back0: seq<int>, tags0: set<nat>,
                                     index: seq<int>, back: seq<int>, tags: set<nat>,
                                     lb: seq<nat>, lbNext: seq<nat>, other: seq<nat>, dir: int)
    requires |index0| == |back0| == |index| == |back| == n && (dir == 1 || dir == -1)
    requires Spent(es, n, index0, tags0, lb, dir) && Spent(es, n, index0, tags0, other, -dir)
    requires tags <= tags0 && ReachedKept(n, index0, back0, index, back)
    requires forall k :: 0 <= k < |lb| ==> Bare(es, tags, lb[k])
    requires NewIn(n, index0, index, lbNext) && Front(n, index, lbNext, dir)
    ensures Spent(es, n, index, tags, lbNext, dir) && Spent(es, n, index, tags, other, -dir)
  {
    forall x | 0 <= x < n && OnSide(index[x], dir) && x !in lbNext
      ensures Bare(es, tags, x)
    {
      if x in lb {
        var k :| 0 <= k < |lb| && lb[k] == x;
        assert Bare(es, tags, lb[k]);
      } else {
        assert Bare(es, tags0, x);
      }
    }
    forall x | 0 <= x < n && OnSide(index[x], -dir) && x !in other
      ensures Bare(es, tags, x)
    {
      if index[x] != index0[x] {
        assert false;
      }
      assert Bare(es, tags0, x);
    }
  }

  /** Untagging an edge from `v` to an unreached `x`, which then joins the side of `v`, keeps the edges settled. */
  lemma {:induction false} SettledReach(es: seq<Edge>, allowed: set<nat>, index: seq<int>, tags: set<nat>,
                                        v: nat, x: nat, e: nat, i: int, dir: int)
    requires Settled(es, allowed, index, tags) && v < |index| && x < |index| && v != x
    requires index[x] == 0 && OnSide(index[v], dir) && OnSide(i, dir) && (dir == 1 || dir == -1)
    requires e < |es| && Joins(es[e], v, x)
    ensures Settled(es, allowed, index[x := i], tags - {e})
  {
    var index' := index[x := i];
    forall f | 0 <= f < |es| && f in allowed && f !in tags - {e} && es[f].v1 < |index'| && es[f].v2 < |index'|
      ensures (OnSide(index'[es[f].v1], 1) && OnSide(index'[es[f].v2], 1)) ||
              (OnSide(index'[es[f].v1], -1) && OnSide(index'[es[f].v2], -1))
    {
      if f != e {
        assert es[f].v1 != x && es[f].v2 != x;
      }
    }
  }

  /** Untagging an edge between two vertices of the same side keeps the edges settled. */
  lemma {:induction false} SettledSame(es: seq<Edge>, allowed: set<nat>, index: seq<int>, tags: set<nat>,
                                       v: nat, x: nat, e: nat, dir: int)
    requires Settled(es, allowed, index, tags) && v < |index| && x < |index|
    requires OnSide(index[v], dir) && OnSide(index[x], dir) && (dir == 1 || dir == -1)
    requires e < |es| && Joins(es[e], v, x)
    ensures Settled(es, allowed, index, tags - {e})
  {
  }

  /**
   * Along an allowed walk that starts on the side of `dir`, every vertex is
   * on that side, when that side is exhausted and the untagged edges are
   * settled.
   */
  lemma {:induction false} SideClosedAt(es: seq<Edge>, n: nat, allowed: set<nat>, index: seq<int>, tags: set<nat>,
                                        dir: int, walk: seq<nat>, via: seq<nat>, k: nat)
    requires EdgesIn(es, n) && |index| == n && (dir == 1 || dir == -1)
    requires Settled(es, allowed, index, tags) && Exhausted(es, n, index, tags, dir)
    requires PathVia(es, walk, via, allowed) && k < |walk| && walk[0] < n && OnSide(index[walk[0]], dir)
    ensures walk[k] < n && OnSide(index[walk[k]], dir)
    decreases k
  {
    if k > 0 {
      SideClosedAt(es, n, allowed, index, tags, dir, walk, via, k - 1);
      var e := via[k - 1];
      assert Joins(es[e], walk[k - 1], walk[k]);
      assert Bare(es, tags, walk[k - 1]);
      assert e !in tags;
    }
  }

  /**
   * When one side is exhausted and the untagged edges are settled, no
   * allowed walk joins the source to the target.
   */
  lemma {:induction false} NoWalkBetween(es: seq<Edge>, n: nat, allowed: set<nat>, index: seq<int>, tags: set<nat>,
                                         vSrc: nat, vDst: nat, dir: int)
    requires EdgesIn(es, n) && |index| == n && vSrc < n && vDst < n && index[vSrc] == 1 && index[vDst] == -1
    requires dir == 1 || dir == -1
    requires Settled(es, allowed, index, tags) && Exhausted(es, n, index, tags, dir)
    ensures !Connected(es, allowed, vSrc, vDst)
  {
    if Connected(es, allowed, vSrc, vDst) {
      var walk: seq<nat>, via: seq<nat> :| PathVia(es, walk, via, allowed) && walk != [] && walk[0] == vSrc && Last(walk) == vDst;
      if dir == 1 {
        SideClosedAt(es, n, allowed, index, tags, dir, walk, via, |walk| - 1);
      } else {
        PathViaReversed(es, walk, via, allowed);
        var back := Reversed(walk);
        ReversedAt(walk, 0);
        ReversedAt(walk, |walk| - 1);
        SideClosedAt(es, n, allowed, index, tags, dir, back, Reversed(via), |back| - 1);
      }
    }
  }

  /**
   * `vs_add`: vertex `v` gets index `iterTot` and back edge `ePrev`, and is
   * appended to the front `lb`.
   */
  method VertStepAdd(lb: seq<nat>, index: seq<int>, back: seq<int>, v: nat, ePrev: int, iterTot: int)
    returns (lb': seq<nat>, index': seq<int>, back': seq<int>)
    requires v < |index| && |back| == |index|
    ensures lb' == lb + [v]
    ensures index' == index[v := iterTot] && back' == back[v := ePrev]
  {
    lb', index', back' := lb + [v], index[v := iterTot], back[v := ePrev];
  }

  /**
   * The inner loop of `bm_loop_path_build_step` for one front vertex `v`:
   * each tagged edge of `v`, in iteration order, is untagged; an unreached
   * other end joins the next front; an other end reached from the opposite
   * side is a match, which ends the search.
   */
  method VisitEdges(es: seq<Edge>, n: nat, ghost allowed: set<nat>, vSrc: nat, vDst: nat, v: nat, dir: int,
                    lbNext0: seq<nat>, index0: seq<int>, back0: seq<int>, tags0: set<nat>)
    returns (matched: bool, m0: nat, m1: nat, ghost eMatch: nat,
             lbNext: seq<nat>, index: seq<int>, back: seq<int>, tags: set<nat>)
    requires Chain(es, n, allowed, index0, back0, vSrc, vDst)
    requires dir == 1 || dir == -1
    requires v < n && (if dir == 1 then index0[v] >= 1 else index0[v] <= -1)
    requires Front(n, index0, lbNext0, dir)
    requires tags0 <= allowed && forall e :: e in tags0 ==> e < |es|
    requires Settled(es, allowed, index0, tags0)
    ensures Chain(es, n, allowed, index, back, vSrc, vDst)
    ensures ReachedKept(n, index0, back0, index, back)
    ensures tags <= tags0
    ensures matched ==>
      m0 < n && m1 < n && index[m0] >= 1 && index[m1] <= -1 &&
      eMatch < |es| && eMatch in allowed && Joins(es[eMatch], m0, m1)
    ensures !matched ==> Front(n, index, lbNext, dir) && Settled(es, allowed, index, tags)
    ensures !matched ==> |lbNext| - |lbNext0| <= |tags0| - |tags|
    ensures !matched ==> Bare(es, tags, v)
    ensures !matched ==> NewIn(n, index0, index, lbNext) && forall x :: x in lbNext0 ==> x in lbNext
  {
    matched, m0, m1, eMatch := false, 0, 0, 0;
    lbNext, index, back, tags := lbNext0, index0, back0, tags0;
    var iterNext := index[v] + dir;
    var e := 0;
    while e < |es|
      invariant e <= |es|
      invariant Chain(es, n, allowed, index, back, vSrc, vDst)
      invariant ReachedKept(n, index0, back0, index, back)
      invariant index[v] == index0[v] && iterNext == index[v] + dir
      invariant Front(n, index, lbNext, dir)
      invariant tags <= tags0
      invariant |lbNext| - |lbNext0| <= |tags0| - |tags|
      invariant forall f :: f in tags && f < e ==> !InEdge(es[f], v)
      invariant Settled(es, allowed, index, tags)
      invariant NewIn(n, index0, index, lbNext) && forall x :: x in lbNext0 ==> x in lbNext
    {
      if e in tags && InEdge(es[e], v) {
        var vNext := OtherVert(es[e], v);
        var vNextIndex := index[vNext];
        ghost var tags1 := tags;
        tags := tags - {e};
        if vNextIndex == 0 {
          SettledReach(es, allowed, index, tags1, v, vNext, e, iterNext, dir);
          ChainReach(es, n, allowed, index, back, vSrc, vDst, v, dir, vNext, e);
          FrontKept(n, index, lbNext, dir, vNext, iterNext);
          ghost var index1, back1 := index, back;
          lbNext, index, back := VertStepAdd(lbNext, index, back, vNext, e, iterNext);
          assert ReachedKept(n, index1, back1, index, back);
        } else if (dir < 0) == (vNextIndex < 0) {
          // reached before from the same side: nothing to do
          SettledSame(es, allowed, index, tags1, v, vNext, e, dir);
        } else {
          if dir == 1 {
            m0, m1 := v, vNext;
          } else {
            m0, m1 := vNext, v;
          }
          return true, m0, m1, e, lbNext, index, back, tags;
        }
      }
      e := e + 1;
    }
  }

  /**
   * `bm_loop_path_build_step`: every vertex of the front `lb` visits its
   * tagged edges in turn; the vertices reached for the first time form the
   * next front. The result is whether the search goes on: true on a match,
   * otherwise whether the next front is non-empty.
   */
  method PathBuildStep(es: seq<Edge>, n: nat, ghost allowed: set<nat>, vSrc: nat, vDst: nat, lb: seq<nat>, dir: int,
                       index0: seq<int>, back0: seq<int>, tags0: set<nat>)
    returns (more: bool, matched: bool, m0: nat, m1: nat, ghost eMatch: nat,
             lbNext: seq<nat>, index: seq<int>, back: seq<int>, tags: set<nat>)
    requires Chain(es, n, allowed, index0, back0, vSrc, vDst)
    requires dir == 1 || dir == -1
    requires Front(n, index0, lb, dir)
    requires tags0 <= allowed && forall e :: e in tags0 ==> e < |es|
    requires Settled(es, allowed, index0, tags0)
    ensures Chain(es, n, allowed, index, back, vSrc, vDst)
    ensures ReachedKept(n, index0, back0, index, back)
    ensures tags <= tags0
    ensures matched ==>
      more && m0 < n && m1 < n && index[m0] >= 1 && index[m1] <= -1 &&
      eMatch < |es| && eMatch in allowed && Joins(es[eMatch], m0, m1)
    ensures !matched ==> Front(n, index, lbNext, dir) && (more <==> lbNext != [])
    ensures !matched && more ==> |tags| < |tags0|
    ensures !matched ==> (forall k :: 0 <= k < |lb| ==> Bare(es, tags, lb[k])) && NewIn(n, index0, index, lbNext)
    ensures !matched ==> Settled(es, allowed, index, tags)
  {
    lbNext, index, back, tags := [], index0, back0, tags0;
    matched, m0, m1, eMatch := false, 0, 0, 0;
    var k := 0;
    while k < |lb|
      invariant k <= |lb|
      invariant Chain(es, n, allowed, index, back, vSrc, vDst)
      invariant ReachedKept(n, index0, back0, index, back)
      invariant Front(n, index, lb, dir) && Front(n, index, lbNext, dir)
      invariant tags <= tags0
      invariant |lbNext| <= |tags0| - |tags|
      invariant forall j :: 0 <= j < k ==> Bare(es, tags, lb[j])
      invariant Settled(es, allowed, index, tags)
      invariant NewIn(n, index0, index, lbNext)
    {
      ghost var index1, back1, tags1, lbNext1 := index, back, tags, lbNext;
      matched, m0, m1, eMatch, lbNext, index, back, tags :=
        VisitEdges(es, n, allowed, vSrc, vDst, lb[k], dir, lbNext, index, back, tags);
      if matched {
        return true, matched, m0, m1, eMatch, lbNext, index, back, tags;
      }
      FrontReachedKept(n, index1, back1, index, back, lb, dir);
      k := k + 1;
    }
    more := lbNext != [];
  }

  /**
   * The search loop of `BM_mesh_edgeloops_find_path`: from the fronts primed
   * with `vSrc` and `vDst`, the source's front and then the target's front
   * take a step, until a step matches or leaves its front empty. Without a
   * match, one side has run out of vertices to reach.
   */
  method Search(es: seq<Edge>, n: nat, ghost allowed: set<nat>, vSrc: nat, vDst: nat,
                index0: seq<int>, back0: seq<int>, tags0: set<nat>, lbSrc0: seq<nat>, lbDst0: seq<nat>)
    returns (matched: bool, m0: nat, m1: nat, ghost eMatch: nat, index: seq<int>, back: seq<int>, tags: set<nat>,
             lbSrc: seq<nat>, lbDst: seq<nat>)
    requires Chain(es, n, allowed, index0, back0, vSrc, vDst)
    requires lbSrc0 == [vSrc] && lbDst0 == [vDst]
    requires forall x :: 0 <= x < n && x != vSrc && x != vDst ==> index0[x] == 0
    requires tags0 <= allowed && forall e :: e in tags0 ==> e < |es|
    requires Settled(es, allowed, index0, tags0)
    ensures Chain(es, n, allowed, index, back, vSrc, vDst)
    ensures tags <= tags0
    ensures matched ==>
      m0 < n && m1 < n && index[m0] >= 1 && index[m1] <= -1 &&
      eMatch < |es| && eMatch in allowed && Joins(es[eMatch], m0, m1)
    ensures !matched ==>
      Front(n, index, lbSrc, 1) && Front(n, index, lbDst, -1) && (lbSrc == [] || lbDst == [])
    ensures !matched ==> Exhausted(es, n, index, tags, 1) || Exhausted(es, n, index, tags, -1)
    ensures !matched ==> Settled(es, allowed, index, tags) && !Connected(es, allowed, vSrc, vDst)
  {
    index, back, tags := index0, back0, tags0;
    lbSrc, lbDst := lbSrc0, lbDst0;
    matched, m0, m1, eMatch := false, 0, 0, 0;
    var more;
    while true
      invariant Chain(es, n, allowed, index, back, vSrc, vDst)
      invariant Front(n, index, lbSrc, 1) && Front(n, index, lbDst, -1)
      invariant tags <= tags0
      invariant Spent(es, n, index, tags, lbSrc, 1) && Spent(es, n, index, tags, lbDst, -1)
      invariant Settled(es, allowed, index, tags)
      decreases |tags|
    {
      ghost var index1, back1, tags1, lb1 := index, back, tags, lbSrc;
      more, matched, m0, m1, eMatch, lbSrc, index, back, tags :=
        PathBuildStep(es, n, allowed, vSrc, vDst, lbSrc, 1, index, back, tags);
      FrontReachedKept(n, index1, back1, index, back, lbDst, -1);
      if matched {
        break;
      }
      SpentStep(es, n, index1, back1, tags1, index, back, tags, lb1, lbSrc, lbDst, 1);
      if !more {
        NoWalkBetween(es, n, allowed, index, tags, vSrc, vDst, 1);
        break;
      }
      ghost var index2, back2, tags2, lb2 := index, back, tags, lbDst;
      more, matched, m0, m1, eMatch, lbDst, index, back, tags :=
        PathBuildStep(es, n, allowed, vSrc, vDst, lbDst, -1, index, back, tags);
      FrontReachedKept(n, index2, back2, index, back, lbSrc, 1);
      if matched {
        break;
      }
      SpentStep(es, n, index2, back2, tags2, index, back, tags, lb2, lbDst, lbSrc, -1);
      if !more {
        NoWalkBetween(es, n, allowed, index, tags, vSrc, vDst, -1);
        break;
      }
    }
  }

  /**
   * The first rebuilding loop of `BM_mesh_edgeloops_find_path`: from `m0`,
   * follow the edge pointers back to the source, adding each vertex at the
   * head of the store.
   */
  method AddTowardSource(store: EdgeLoopStore, es: seq<Edge>, n: nat, ghost allowed: set<nat>,
                         index: seq<int>, back: seq<int>, vSrc: nat, vDst: nat, m0: nat)
    returns (ghost path: seq<nat>, ghost via: seq<nat>)
    requires Chain(es, n, allowed, index, back, vSrc, vDst)
    requires m0 < n && index[m0] >= 1 && store.Valid()
    modifies store`verts, store`len
    ensures store.Valid() && store.verts == path + old(store.verts)
    ensures path != [] && path[0] == vSrc && Last(path) == m0
    ensures PathVia(es, path, via, allowed)
  {
    var v: nat := m0;
    var verts, len := store.verts, store.len;
    ghost var verts0 := verts;
    path, via := [], [];
    ghost var eLink: nat := 0;
    while true
      invariant |index| == n && |back| == n && EdgesIn(es, n)
      invariant v < n && index[v] >= 1
      invariant path == [] ==> v == m0 && via == []
      invariant path != [] ==>
        Last(path) == m0 && PathVia(es, path, via, allowed) &&
        eLink < |es| && eLink in allowed && Joins(es[eLink], v, path[0])
      invariant len == |verts| && verts == path + verts0
      decreases index[v]
    {
      assert [v] + (path + verts0) == ([v] + path) + verts0;
      verts := [v] + verts;
      len := len + 1;
      if path != [] {
        PathViaCons(es, v, eLink, path, via, allowed);
        assert Last([v] + path) == Last(path);
        via := [eLink] + via;
      }
      path := [v] + path;
      if v == vSrc {
        break;
      }
      ChainAt(es, n, allowed, index, back, vSrc, vDst, v);
      eLink := back[v];
      v := OtherVert(es[back[v]], v);
    }
    store.verts, store.len := verts, len;
  }

  /**
   * The second rebuilding loop of `BM_mesh_edgeloops_find_path`: from `m1`,
   * follow the edge pointers back to the target, adding each vertex at the
   * tail of the store.
   */
  method AddTowardTarget(store: EdgeLoopStore, es: seq<Edge>, n: nat, ghost allowed: set<nat>,
                         index: seq<int>, back: seq<int>, vSrc: nat, vDst: nat, m1: nat)
    returns (ghost path: seq<nat>, ghost via: seq<nat>)
    requires Chain(es, n, allowed, index, back, vSrc, vDst)
    requires m1 < n && index[m1] <= -1 && store.Valid()
    modifies store`verts, store`len
    ensures store.Valid() && store.verts == old(store.verts) + path
    ensures path != [] && path[0] == m1 && Last(path) == vDst
    ensures PathVia(es, path, via, allowed)
  {
    var v: nat := m1;
    var verts, len := store.verts, store.len;
    ghost var verts0 := verts;
    path, via := [], [];
    ghost var eLink: nat := 0;
    while true
      invariant |index| == n && |back| == n && EdgesIn(es, n)
      invariant v < n && index[v] <= -1
      invariant path == [] ==> v == m1 && via == []
      invariant path != [] ==>
        path[0] == m1 && PathVia(es, path, via, allowed) &&
        eLink < |es| && eLink in allowed && Joins(es[eLink], Last(path), v)
      invariant len == |verts| && verts == verts0 + path
      decreases -index[v]
    {
      assert (verts0 + path) + [v] == verts0 + (path + [v]);
      verts := verts + [v];
      len := len + 1;
      if path != [] {
        PathViaSnoc(es, path, via, eLink, v, allowed);
        assert (path + [v])[0] == path[0];
        via := via + [eLink];
      }
      path := path + [v];
      if v == vDst {
        break;
      }
      ChainAt(es, n, allowed, index, back, vSrc, vDst, v);
      eLink := back[v];
      v := OtherVert(es[back[v]], v);
    }
    store.verts, store.len := verts, len;
  }

  /** The filter used when no test is given: every edge. */
  function AcceptAll(e: nat): bool {
    true
  }

  /** The edges the search may use: those `test` accepts, or every edge without a test. */
  function Accepted(es: seq<Edge>, test: Option<nat -> bool>): set<nat> {
    Elems(TestedEdges(es, if test.Some? then test.value else AcceptAll, |es|))
  }

  /** First phase of `BM_mesh_edgeloops_find_path`: every vertex gets index 0 and loses its tag. */
  method ResetVerts(mesh: BMesh)
    requires mesh.Valid()
    modifies mesh`vertIndex, mesh`vertTag
    ensures mesh.Valid() && mesh.vertTag == {}
    ensures forall x :: 0 <= x < mesh.vertCount ==> mesh.vertIndex[x] == 0
  {
    var v := 0;
    while v < mesh.vertCount
      invariant v <= mesh.vertCount && mesh.Valid()
      invariant forall x :: x in mesh.vertTag ==> v <= x
      invariant forall x :: 0 <= x < v ==> mesh.vertIndex[x] == 0
    {
      mesh.vertIndex := mesh.vertIndex[v := 0];
      mesh.vertTag := mesh.vertTag - {v};
      v := v + 1;
    }
  }

  /** Without a test, every edge is tagged with its vertices and listed in iteration order. */
  method TagAll(mesh: BMesh) returns (edges: seq<nat>)
    requires mesh.Valid() && mesh.vertTag == {}
    modifies mesh`vertTag, mesh`edgeTag
    ensures mesh.Valid()
    ensures edges == TestedEdges(mesh.edges, AcceptAll, |mesh.edges|)
    ensures mesh.edgeTag == Elems(edges)
    ensures mesh.vertTag == Ends(mesh.edges, edges)
  {
    var es := mesh.edges;
    var vertTag: set<nat>, edgeTag: set<nat> := mesh.vertTag, mesh.edgeTag;
    edges := [];
    var i := 0;
    while i < |es|
      invariant i <= |es|
      invariant edges == TestedEdges(es, AcceptAll, i)
      invariant forall x :: x in edgeTag ==> x < |es|
      invariant forall x: nat :: x < i ==> x in edgeTag
      invariant vertTag == Ends(es, edges)
    {
      EndsSnoc(es, edges, i);
      edgeTag := edgeTag + {i};
      vertTag := vertTag + {es[i].v1, es[i].v2};
      edges := edges + [i];
      i := i + 1;
    }
    TaggedAreTested(es, AcceptAll, edgeTag);
    EndsBound(es, mesh.vertCount, edges);
    mesh.vertTag, mesh.edgeTag := vertTag, edgeTag;
  }

  /** The state after the source and the target were added with their own edge pointers. */
  lemma {:induction false} InitialChain(es: seq<Edge>, n: nat, allowed: set<nat>, index: seq<int>, back: seq<int>, vSrc: nat, vDst: nat)
    requires EdgesIn(es, n) && |index| == n && |back| == n && vSrc < n && vDst < n && vSrc != vDst
    requires forall x :: 0 <= x < n ==> index[x] == 0
    requires BackIncident(es, back)
    ensures Chain(es, n, allowed, index[vSrc := 1][vDst := -1], back[vSrc := back[vSrc]][vDst := back[vDst]], vSrc, vDst)
  {
    var index', back' := index[vSrc := 1][vDst := -1], back[vSrc := back[vSrc]][vDst := back[vDst]];
    assert back' == back;
    forall x | 0 <= x < n
      ensures VertOk(es, n, allowed, index', back', vSrc, vDst, x)
    {
    }
  }

  /**
   * The rebuilding of `BM_mesh_edgeloops_find_path` after the fronts met at
   * the edge between `m0` (source side) and `m1` (target side): a new store
   * holding the walk from the source to `m0`, then from `m1` to the target.
   */
  method BuildPath(es: seq<Edge>, n: nat, ghost allowed: set<nat>, index: seq<int>, back: seq<int>,
                   vSrc: nat, vDst: nat, m0: nat, m1: nat, ghost eMatch: nat)
    returns (store: EdgeLoopStore, ghost via: seq<nat>)
    requires Chain(es, n, allowed, index, back, vSrc, vDst)
    requires m0 < n && m1 < n && index[m0] >= 1 && index[m1] <= -1
    requires eMatch < |es| && eMatch in allowed && Joins(es[eMatch], m0, m1)
    ensures fresh(store) && store.Valid() && store.flag == 0
    ensures store.verts != [] && store.verts[0] == vSrc && Last(store.verts) == vDst
    ensures PathVia(es, store.verts, via, allowed)
  {
    store := new EdgeLoopStore();
    ghost var path1, via1 := AddTowardSource(store, es, n, allowed, index, back, vSrc, vDst, m0);
    ghost var path2, via2 := AddTowardTarget(store, es, n, allowed, index, back, vSrc, vDst, m1);
    PathViaJoin(es, path1, via1, eMatch, path2, via2, allowed);
    via := via1 + [eMatch] + via2;
  }

  /**
   * First two phases of `BM_mesh_edgeloops_find_path`: every vertex is reset, then
   * the edges `test` accepts (all of them without a test) are tagged and listed.
   */
  method PrepareTags(mesh: BMesh, test: Option<nat -> bool>) returns (edges: seq<nat>)
    requires mesh.Valid()
    modifies mesh`vertTag, mesh`edgeTag, mesh`vertIndex
    ensures mesh.Valid() && mesh.edgeTag == Elems(edges) == Accepted(mesh.edges, test)
    ensures edges == TestedEdges(mesh.edges, if test.Some? then test.value else AcceptAll, |mesh.edges|)
    ensures mesh.vertTag == Ends(mesh.edges, edges)
    ensures forall i :: 0 <= i < |edges| ==> edges[i] < |mesh.edges|
    ensures forall x :: x in mesh.vertTag ==> EndOfSome(mesh.edges, edges, 0, x)
    ensures forall x :: 0 <= x < mesh.vertCount ==> mesh.vertIndex[x] == 0
  {
    ResetVerts(mesh);
    if test.Some? {
      edges := TagTested(mesh, test.value);
    } else {
      edges := TagAll(mesh);
    }
    TestedEdgesSound(mesh.edges, if test.Some? then test.value else AcceptAll, |mesh.edges|);
    EndsAreEndOfSome(mesh.edges, edges);
  }

  /**
   * The middle phases of `BM_mesh_edgeloops_find_path`: both ends start
   * their fronts, the fronts grow over the tagged edges, and when they meet
   * the path is built. Only edge tags are consumed; vertex tags stay.
   */
  method SearchAndBuild(mesh: BMesh, ghost allowed: set<nat>, vSrc: nat, vDst: nat)
    returns (found: bool, loop: EdgeLoopStore?, ghost via: seq<nat>)
    requires mesh.Valid() && vSrc < mesh.vertCount && vDst < mesh.vertCount && vSrc != vDst
    requires forall x :: 0 <= x < mesh.vertCount ==> mesh.vertIndex[x] == 0
    requires mesh.edgeTag == allowed
    modifies mesh`edgeTag, mesh`vertIndex, mesh`vertEdge
    ensures mesh.Valid() && mesh.edgeTag <= old(mesh.edgeTag)
    ensures found <==> loop != null
    ensures found <==> Connected(mesh.edges, allowed, vSrc, vDst)
    ensures found ==>
      fresh(loop) && loop.Valid() && loop.flag == 0 &&
      loop.verts != [] && loop.verts[0] == vSrc && Last(loop.verts) == vDst &&
      PathVia(mesh.edges, loop.verts, via, allowed)
  {
    var es, n := mesh.edges, mesh.vertCount;
    var lbSrc, index, back := VertStepAdd([], mesh.vertIndex, mesh.vertEdge, vSrc, mesh.vertEdge[vSrc], 1);
    var lbDst;
    lbDst, index, back := VertStepAdd([], index, back, vDst, back[vDst], -1);
    InitialChain(es, n, allowed, mesh.vertIndex, mesh.vertEdge, vSrc, vDst);
    var matched, m0, m1, tags;
    ghost var eMatch;
    matched, m0, m1, eMatch, index, back, tags, lbSrc, lbDst := Search(es, n, allowed, vSrc, vDst, index, back, mesh.edgeTag, lbSrc, lbDst);
    mesh.vertIndex, mesh.vertEdge, mesh.edgeTag := index, back, tags;

    found, loop, via := false, null, [];
    if matched {
      loop, via := BuildPath(es, n, allowed, index, back, vSrc, vDst, m0, m1, eMatch);
      found := true;
      assert PathVia(es, loop.verts, via, allowed);
    }
  }

  /**
   * `BM_mesh_edgeloops_find_path`: the two-sided search from `vSrc` and
   * `vDst` over the accepted edges. When the fronts meet, the result is one
   * new loop store holding a walk from `vSrc` to `vDst` along accepted edges;
   * all tags are cleared either way. The vertex indices and edge pointers are
   * left as the search set them.
   */
  method FindPath(mesh: BMesh, test: Option<nat -> bool>, vSrc: nat, vDst: nat)
    returns (found: bool, loop: EdgeLoopStore?, ghost via: seq<nat>)
    requires mesh.Valid() && vSrc < mesh.vertCount && vDst < mesh.vertCount && vSrc != vDst
    modifies mesh`vertTag, mesh`edgeTag, mesh`vertIndex, mesh`vertEdge
    ensures mesh.Valid() && mesh.vertTag == {} && mesh.edgeTag == {}
    ensures found <==> loop != null
    ensures found <==> Connected(mesh.edges, Accepted(mesh.edges, test), vSrc, vDst)
    ensures found ==>
      fresh(loop) && loop.Valid() && loop.flag == 0 &&
      loop.verts != [] && loop.verts[0] == vSrc && Last(loop.verts) == vDst &&
      PathVia(mesh.edges, loop.verts, via, Accepted(mesh.edges, test))
  {
    var edges := PrepareTags(mesh, test);
    found, loop, via := SearchAndBuild(mesh, Elems(edges), vSrc, vDst);
    ClearTested(mesh, edges);
  }
}
