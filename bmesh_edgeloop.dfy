/**
 * Edge loops of a BMesh: walking chains of tagged edges into vertex lists,
 * a two-sided breadth-first search for a path between two vertices, and the
 * operations on one stored loop (copy, build from vertices, edges, flip,
 * expand, overlap test).
 */
module BMeshEdgeLoop {
  import opened BMeshGraph

  /** `BM_EDGELOOP_IS_CLOSED`. */
  const IS_CLOSED: bv32 := 1

  /** `BMEdgeLoopStore`: the vertex list of a loop, its flags and its length. */
  class EdgeLoopStore {
    var verts: seq<nat>
    var flag: bv32
    var len: int

    /** The length counter agrees with the vertex list. */
    ghost predicate Valid()
      reads this
    {
      len == |verts|
    }

    /** A zero-initialised store: no vertices, no flags. */
    constructor ()
      ensures Valid() && verts == [] && flag == 0 && len == 0
    {
      verts, flag, len := [], 0, 0;
    }

    /** `BM_edgeloop_is_closed`. */
    function IsClosed(): (r: bool)
      reads this
      ensures r <==> flag & IS_CLOSED == IS_CLOSED
    {
      flag & IS_CLOSED != 0
    }

    /** `BM_edgeloop_length_get`. */
    function LengthGet(): (r: int)
      reads this
      ensures Valid() ==> r == |verts|
    {
      len
    }
  }

  /**
   * `bm_vert_other_tag`: how many tagged edges of `v` lead elsewhere than
   * `vPrev`, and the last of them in iteration order (-1 when none).
   */
  method VertOtherTag(es: seq<Edge>, edgeTag: set<nat>, v: nat, vPrev: nat) returns (count: nat, eNext: int)
    ensures count == |OtherTagged(es, edgeTag, v, vPrev, |es|)|
    ensures count == 0 ==> eNext == -1
    ensures count > 0 ==> eNext == Last(OtherTagged(es, edgeTag, v, vPrev, |es|))
  {
    count, eNext := 0, -1;
    var e := 0;
    while e < |es|
      invariant 0 <= e <= |es|
      invariant count == |OtherTagged(es, edgeTag, v, vPrev, e)|
      invariant count == 0 ==> eNext == -1
      invariant count > 0 ==> eNext == Last(OtherTagged(es, edgeTag, v, vPrev, e))
    {
      if IsOtherTagged(es, edgeTag, v, vPrev, e) {
        eNext := e;
        count := count + 1;
      }
      e := e + 1;
    }
  }

  /** The vertex before the last of a walk that started after `vPrev`. */
  function PrevOf(walk: seq<nat>, vPrev: nat): nat
    requires walk != []
  {
    if |walk| >= 2 then walk[|walk| - 2] else vPrev
  }

  /** The store's vertex list after the vertices of `walk` were added one by one at the head (`dir == 1`) or tail. */
  function Added(verts: seq<nat>, walk: seq<nat>, dir: int): seq<nat> {
    if dir == 1 then Reversed(walk) + verts else verts + walk
  }

  lemma {:induction false} AddedSnoc(verts: seq<nat>, walk: seq<nat>, w: nat, dir: int)
    ensures Added(verts, walk + [w], dir) ==
      if dir == 1 then [w] + Added(verts, walk, dir) else Added(verts, walk, dir) + [w]
  {
    ReversedSnoc(walk, w);
    if dir == 1 {
      assert [w] + (Reversed(walk) + verts) == ([w] + Reversed(walk)) + verts;
    } else {
      assert (verts + walk) + [w] == verts + (walk + [w]);
    }
  }

  /**
   * The store's list, its count and the vertex tags after the vertices of
   * `walk` were added: at the head (`dir == 1`) or tail, and untagged.
   */
  ghost predicate StoreWalked(verts0: seq<nat>, len0: int, vertTag0: set<nat>, dir: int, walk: seq<nat>,
                              verts: seq<nat>, len: int, vertTag: set<nat>) {
    verts == Added(verts0, walk, dir) && len == len0 + |walk| && vertTag == vertTag0 - Elems(walk)
  }

  /** Adding one walked vertex to the store's list, counting it in `len` and untagging it. */
  method AddVert(verts: seq<nat>, len: int, vertTag: set<nat>, w: nat, dir: int,
                 ghost verts0: seq<nat>, ghost len0: int, ghost vertTag0: set<nat>, ghost walk: seq<nat>)
    returns (verts': seq<nat>, len': int, vertTag': set<nat>)
    requires StoreWalked(verts0, len0, vertTag0, dir, walk, verts, len, vertTag)
    ensures StoreWalked(verts0, len0, vertTag0, dir, walk + [w], verts', len', vertTag')
  {
    AddedSnoc(verts0, walk, w, dir);
    if dir == 1 {
      verts' := [w] + verts;
    } else {
      verts' := verts + [w];
    }
    len' := len + 1;
    vertTag' := vertTag - {w};
    assert Elems(walk + [w]) == Elems(walk) + {w};
  }

  /**
   * The walk `bm_loop_build` takes from `w`, having come from `prev`, over
   * the edge tags `tags`, in a chain that started at `v`. When exactly one
   * other tagged edge leads on, it is followed and untagged; the loop is
   * closed when that edge leads back to `v`. The walk stops open when no
   * other tagged edge is left and fails when more than one is.
   */
  function ChainFrom(es: seq<Edge>, tags: set<nat>, prev: nat, w: nat, v: nat): WalkOutcome
    decreases |tags|
  {
    var next := OtherTagged(es, tags, w, prev, |es|);
    // `OtherTaggedLast` shows that the single edge of `next` passes these tests.
    if |next| == 1 && next[0] in tags && next[0] < |es| && InEdge(es[next[0]], w) then
      var e := next[0];
      var x := OtherVert(es[e], w);
      if x == v then WalkOutcome([w], [], true, true, e)
      else Prepend([w], [e], ChainFrom(es, tags - {e}, w, x, v))
    else WalkOutcome([w], [], |next| == 0, false, 0)
  }

  /** One step of `ChainFrom` through the only other tagged edge `e` of `w`. */
  lemma ChainFromOne(es: seq<Edge>, tags: set<nat>, prev: nat, w: nat, v: nat, e: nat)
    requires OtherTagged(es, tags, w, prev, |es|) == [e]
    ensures e in tags && e < |es| && InEdge(es[e], w)
    ensures OtherVert(es[e], w) == v ==> ChainFrom(es, tags, prev, w, v) == WalkOutcome([w], [], true, true, e)
    ensures OtherVert(es[e], w) != v ==>
      ChainFrom(es, tags, prev, w, v) == Prepend([w], [e], ChainFrom(es, tags - {e}, w, OtherVert(es[e], w), v))
  {
    OtherTaggedLast(es, tags, w, prev, |es|);
  }

  /** `ChainFrom` ends at `w` when no other tagged edge, or more than one, leaves it. */
  lemma ChainFromStop(es: seq<Edge>, tags: set<nat>, prev: nat, w: nat, v: nat)
    requires |OtherTagged(es, tags, w, prev, |es|)| != 1
    ensures ChainFrom(es, tags, prev, w, v) ==
      WalkOutcome([w], [], OtherTagged(es, tags, w, prev, |es|) == [], false, 0)
  {
    assert |OtherTagged(es, tags, w, prev, |es|)| == 0 <==> OtherTagged(es, tags, w, prev, |es|) == [];
  }

  /**
   * What a walk `r` from `w`, having come from `prev`, over the edge tags
   * `tags` in a chain started at `v` may be: a walk over tagged edges, each
   * used once. A closed walk ends next to `v` over a further tagged edge. A
   * failed walk ends at a vertex with two or more other tagged edges left. An
   * open walk ends at a vertex with none left.
   */
  ghost predicate ChainFacts(es: seq<Edge>, tags: set<nat>, prev: nat, w: nat, v: nat, r: WalkOutcome) {
    r.walk != [] && r.walk[0] == w && PathVia(es, r.walk, r.via, tags) && Distinct(r.via) &&
    (r.closed ==>
       r.ok && r.closeEdge in tags - Elems(r.via) && r.closeEdge < |es| &&
       Joins(es[r.closeEdge], Last(r.walk), v)) &&
    (!r.ok ==>
       !r.closed && |OtherTagged(es, tags - Elems(r.via), Last(r.walk), PrevOf(r.walk, prev), |es|)| >= 2) &&
    (r.ok && !r.closed ==>
       OtherTagged(es, tags - Elems(r.via), Last(r.walk), PrevOf(r.walk, prev), |es|) == [])
  }

  /** The walk `ChainFrom` takes has the facts above. */
  lemma {:induction false} ChainFromSound(es: seq<Edge>, tags: set<nat>, prev: nat, w: nat, v: nat)
    requires forall e :: e in tags ==> e < |es|
    ensures ChainFacts(es, tags, prev, w, v, ChainFrom(es, tags, prev, w, v))
    decreases |tags|
  {
    var next := OtherTagged(es, tags, w, prev, |es|);
    if |next| == 1 {
      var e := next[0];
      assert next == [e];
      ChainFromOne(es, tags, prev, w, v, e);
      var x := OtherVert(es[e], w);
      if x == v {
        ChainFactsClosed(es, tags, prev, w, v, e);
      } else {
        ChainFromSound(es, tags - {e}, w, x, v);
        ChainFactsCons(es, tags, prev, w, v, e, x, ChainFrom(es, tags - {e}, w, x, v));
      }
    } else {
      ChainFromStop(es, tags, prev, w, v);
      ChainFactsStop(es, tags, prev, w, v);
    }
  }

  lemma {:induction false} ChainFactsStop(es: seq<Edge>, tags: set<nat>, prev: nat, w: nat, v: nat)
    requires |OtherTagged(es, tags, w, prev, |es|)| != 1
    ensures ChainFacts(es, tags, prev, w, v, WalkOutcome([w], [], OtherTagged(es, tags, w, prev, |es|) == [], false, 0))
  {
    var r := WalkOutcome([w], [], OtherTagged(es, tags, w, prev, |es|) == [], false, 0);
    assert Elems(r.via) == {};
    assert tags - Elems(r.via) == tags;
    assert Last(r.walk) == w && PrevOf(r.walk, prev) == prev;
  }

  lemma {:induction false} ChainFactsClosed(es: seq<Edge>, tags: set<nat>, prev: nat, w: nat, v: nat, e: nat)
    requires e in tags && e < |es| && InEdge(es[e], w) && OtherVert(es[e], w) == v
    ensures ChainFacts(es, tags, prev, w, v, WalkOutcome([w], [], true, true, e))
  {
    assert Elems([]) == {};
  }

  lemma {:induction false} ChainFactsCons(es: seq<Edge>, tags: set<nat>, prev: nat, w: nat, v: nat, e: nat, x: nat,
                                          r: WalkOutcome)
    requires e in tags && e < |es| && InEdge(es[e], w) && x == OtherVert(es[e], w)
    requires ChainFacts(es, tags - {e}, w, x, v, r)
    ensures ChainFacts(es, tags, prev, w, v, Prepend([w], [e], r))
  {
    var r' := Prepend([w], [e], r);
    forall i, j | 0 <= i < j < |r'.via|
      ensures r'.via[i] != r'.via[j]
    {
      // the rest of the walk uses only edges other than `e`
      assert r'.via[j] == r.via[j - 1] && r.via[j - 1] in tags - {e};
      if i > 0 {
        assert r'.via[i] == r.via[i - 1];
      }
    }
    PathViaWeaken(es, r.walk, r.via, tags - {e}, tags);
    PathViaCons(es, w, e, r.walk, r.via, tags);
    assert Elems([e] + r.via) == {e} + Elems(r.via);
    assert tags - Elems(r'.via) == (tags - {e}) - Elems(r.via);
    assert Last(r'.walk) == Last(r.walk);
    assert PrevOf(r'.walk, prev) == PrevOf(r.walk, w);
  }

  /** The walk `r` with `walk` and `via` in front of it. */
  function Prepend(walk: seq<nat>, via: seq<nat>, r: WalkOutcome): WalkOutcome {
    r.(walk := walk + r.walk, via := via + r.via)
  }

  lemma {:induction false} PrependTwice(walk: seq<nat>, via: seq<nat>, w: nat, e: nat, r: WalkOutcome)
    ensures Prepend(walk, via, Prepend([w], [e], r)) == Prepend(walk + [w], via + [e], r)
  {
    assert walk + ([w] + r.walk) == (walk + [w]) + r.walk;
    assert via + ([e] + r.via) == (via + [e]) + r.via;
  }

  /**
   * One vertex `w` of the walk: `bm_vert_other_tag` decides whether the walk
   * stops there (closing over `e` when `closed`) or goes on over `e` to `x`.
   * `whole` is the walk `ChainFrom` takes, `walk` and `via` the part of it
   * before `w`.
   */
  method ChainStep(es: seq<Edge>, edgeTag: set<nat>, prev: nat, w: nat, v: nat,
                   ghost whole: WalkOutcome, ghost walk: seq<nat>, ghost via: seq<nat>)
    returns (stop: bool, ok: bool, closed: bool, e: nat, x: nat)
    requires forall f :: f in edgeTag ==> f < |es|
    requires whole == Prepend(walk, via, ChainFrom(es, edgeTag, prev, w, v))
    ensures stop ==> whole == WalkOutcome(walk + [w], via, ok, closed, e)
    ensures !stop ==> e in edgeTag
    ensures !stop ==> whole == Prepend(walk + [w], via + [e], ChainFrom(es, edgeTag - {e}, w, x, v))
  {
    var count, eNext := VertOtherTag(es, edgeTag, w, prev);
    if count == 1 {
      assert OtherTagged(es, edgeTag, w, prev, |es|) == [eNext];
      ChainFromOne(es, edgeTag, prev, w, v, eNext);
      e, x := eNext, OtherVert(es[eNext], w);
      stop := x == v;
      ok, closed := stop, stop;
      if !stop {
        PrependTwice(walk, via, w, e, ChainFrom(es, edgeTag - {e}, w, x, v));
      }
    } else {
      ChainFromStop(es, edgeTag, prev, w, v);
      stop, ok, closed, e, x := true, count == 0, false, 0, w;
    }
  }

  /**
   * The walk of `bm_loop_build` on the tag sets and store fields as values:
   * starting at `v`, having come from `vPrev`, follow the only other tagged
   * edge of each vertex, untagging vertices and edges as they are used,
   * adding each vertex at the head (`dir == 1`) or tail of `verts0`. The walk
   * stops when no other tagged edge is left, or when the next vertex is the
   * start (the loop is closed); it fails at a vertex with more than one
   * other tagged edge.
   *
   * `walk` is the sequence of vertices visited, `via` the edges followed
   * between them and `closeEdge` the edge back to the start of a closed loop.
   */
  method WalkChain(es: seq<Edge>, vertTag0: set<nat>, edgeTag0: set<nat>, vPrev: nat, v: nat, dir: int,
                   verts0: seq<nat>, len0: int, flag0: bv32)
    returns (ok: bool, vertTag: set<nat>, edgeTag: set<nat>, verts: seq<nat>, len: int, flag: bv32,
             ghost walk: seq<nat>, ghost via: seq<nat>, ghost closedNow: bool, ghost closeEdge: nat)
    requires forall e :: e in edgeTag0 ==> e < |es|
    ensures WalkOutcome(walk, via, ok, closedNow, closeEdge) == ChainFrom(es, edgeTag0, vPrev, v, v)
    ensures StoreWalked(verts0, len0, vertTag0, dir, walk, verts, len, vertTag)
    ensures flag == if closedNow then flag0 | IS_CLOSED else flag0
    ensures edgeTag == edgeTag0 - Elems(via) - (if closedNow then {closeEdge} else {})
  {
    walk, via, closedNow, closeEdge := [], [], false, 0;
    vertTag, edgeTag := vertTag0, edgeTag0;
    verts, len, flag := verts0, len0, flag0;
    var w := v;
    var prev := vPrev;
    var closing, eClose := false, 0;
    ghost var whole := ChainFrom(es, edgeTag0, vPrev, v, v);
    while true
      invariant StoreWalked(verts0, len0, vertTag0, dir, walk, verts, len, vertTag)
      invariant edgeTag == edgeTag0 - Elems(via)
      invariant whole == Prepend(walk, via, ChainFrom(es, edgeTag, prev, w, v))
      decreases |edgeTag|
    {
      verts, len, vertTag := AddVert(verts, len, vertTag, w, dir, verts0, len0, vertTag0, walk);
      var stop, okHere, closedHere, e, x := ChainStep(es, edgeTag, prev, w, v, whole, walk, via);
      walk := walk + [w];
      if stop {
        ok, closing, eClose := okHere, closedHere, e;
        closedNow, closeEdge := closing, eClose;
        break;
      }
      assert Elems(via + [e]) == Elems(via) + {e};
      edgeTag, via := edgeTag - {e}, via + [e];
      prev, w := w, x;
    }
    if closing {
      edgeTag := edgeTag - {eClose};
      flag := flag | IS_CLOSED;
    }
  }

  /**
   * `bm_loop_build`: the walk above on the mesh's tags and the store; an
   * untagged `v` adds nothing and succeeds.
   */
  method LoopBuild(mesh: BMesh, store: EdgeLoopStore, vPrev: nat, v: nat, dir: int)
    returns (ok: bool, ghost r: WalkOutcome)
    requires mesh.Valid() && v < mesh.vertCount && (dir == 1 || dir == -1)
    modifies mesh`vertTag, mesh`edgeTag, store`verts, store`len, store`flag
    ensures mesh.Valid() && r.ok == ok
    ensures Walked(mesh.edges, TagState(old(mesh.vertTag), old(mesh.edgeTag)), TagState(mesh.vertTag, mesh.edgeTag), vPrev, v, r)
    ensures store.verts == Added(old(store.verts), r.walk, dir)
    ensures store.len == old(store.len) + |r.walk|
    ensures store.flag == if r.closed then old(store.flag) | IS_CLOSED else old(store.flag)
  {
    if v !in mesh.vertTag {
      assert Elems([]) == {};
      return true, WalkOutcome([], [], true, false, 0);
    }
    var vertTag, edgeTag, verts, len, flag;
    ghost var walk, via, closedNow, closeEdge;
    ok, vertTag, edgeTag, verts, len, flag, walk, via, closedNow, closeEdge :=
      WalkChain(mesh.edges, mesh.vertTag, mesh.edgeTag, vPrev, v, dir, store.verts, store.len, store.flag);
    r := WalkOutcome(walk, via, ok, closedNow, closeEdge);
    ChainFromSound(mesh.edges, mesh.edgeTag, vPrev, v, v);
    assert ChainFacts(mesh.edges, mesh.edgeTag, vPrev, v, v, r);
    assert !closedNow ==> edgeTag == mesh.edgeTag - Elems(via);
    mesh.vertTag, mesh.edgeTag := vertTag, edgeTag;
    store.verts, store.len, store.flag := verts, len, flag;
  }

  /** The edges `test` accepts, in iteration order. */
  function TestedEdges(es: seq<Edge>, test: nat -> bool, n: nat): seq<nat>
    requires n <= |es|
  {
    if n == 0 then []
    else if test(n - 1) then TestedEdges(es, test, n - 1) + [n - 1]
    else TestedEdges(es, test, n - 1)
  }

  /** Every edge `TestedEdges` lists is accepted, and they come in ascending order. */
  lemma {:induction false} TestedEdgesSound(es: seq<Edge>, test: nat -> bool, n: nat)
    requires n <= |es|
    ensures forall k :: 0 <= k < |TestedEdges(es, test, n)| ==>
      TestedEdges(es, test, n)[k] < n && test(TestedEdges(es, test, n)[k])
    ensures forall j, k :: 0 <= j < k < |TestedEdges(es, test, n)| ==>
      TestedEdges(es, test, n)[j] < TestedEdges(es, test, n)[k]
  {
    if n > 0 {
      TestedEdgesSound(es, test, n - 1);
    }
  }

  /** Every edge `test` accepts is listed by `TestedEdges`. */
  lemma {:induction false} TestedEdgesComplete(es: seq<Edge>, test: nat -> bool, n: nat, e: nat)
    requires n <= |es| && e < n && test(e)
    ensures e in TestedEdges(es, test, n)
  {
    if e < n - 1 {
      TestedEdgesComplete(es, test, n - 1, e);
    }
  }

  /** `x` is an end of one of the edges `edges[from..]`. */
  ghost predicate EndOfSome(es: seq<Edge>, edges: seq<nat>, from: nat, x: nat) {
    exists j :: from <= j < |edges| && edges[j] < |es| && InEdge(es[edges[j]], x)
  }

  /** A set holding exactly the edges `test` accepts is the set `TestedEdges` lists. */
  lemma {:induction false} TaggedAreTested(es: seq<Edge>, test: nat -> bool, tags: set<nat>)
    requires forall x :: x in tags ==> x < |es|
    requires forall x: nat :: x < |es| ==> (x in tags <==> test(x))
    ensures tags == Elems(TestedEdges(es, test, |es|))
  {
    TestedEdgesSound(es, test, |es|);
    forall x | x in tags
      ensures x in Elems(TestedEdges(es, test, |es|))
    {
      TestedEdgesComplete(es, test, |es|, x);
    }
  }

  /** The vertices that are an end of some edge of `edges`. */
  function Ends(es: seq<Edge>, edges: seq<nat>): set<nat> {
    if edges == [] then {}
    else
      Ends(es, edges[..|edges| - 1]) +
      (if Last(edges) < |es| then {es[Last(edges)].v1, es[Last(edges)].v2} else {})
  }

  /** Listing one more edge adds its two ends. */
  lemma {:induction false} EndsSnoc(es: seq<Edge>, edges: seq<nat>, e: nat)
    requires e < |es|
    ensures Ends(es, edges + [e]) == Ends(es, edges) + {es[e].v1, es[e].v2}
  {
    assert (edges + [e])[..|edges|] == edges;
  }

  /** `Ends` holds exactly the vertices that are an end of a listed edge. */
  lemma {:induction false} EndsIff(es: seq<Edge>, edges: seq<nat>, x: nat)
    ensures x in Ends(es, edges) <==> EndOfSome(es, edges, 0, x)
  {
    if edges != [] {
      var init := edges[..|edges| - 1];
      EndsIff(es, init, x);
      if EndOfSome(es, init, 0, x) {
        var j :| 0 <= j < |init| && init[j] < |es| && InEdge(es[init[j]], x);
        assert edges[j] == init[j];
      }
      if EndOfSome(es, edges, 0, x) && !EndOfSome(es, init, 0, x) {
        var j :| 0 <= j < |edges| && edges[j] < |es| && InEdge(es[edges[j]], x);
        assert forall k :: 0 <= k < |init| ==> init[k] == edges[k];
      }
    }
  }

  /** Every vertex of `Ends` is an end of a listed edge, which `ClearTested` needs. */
  lemma {:induction false} EndsAreEndOfSome(es: seq<Edge>, edges: seq<nat>)
    ensures forall x :: x in Ends(es, edges) ==> EndOfSome(es, edges, 0, x)
  {
    forall x | x in Ends(es, edges)
      ensures EndOfSome(es, edges, 0, x)
    {
      EndsIff(es, edges, x);
    }
  }

  /** The ends of listed edges are vertices of the mesh. */
  lemma {:induction false} EndsBound(es: seq<Edge>, n: nat, edges: seq<nat>)
    requires forall e :: 0 <= e < |es| ==> es[e].v1 < n && es[e].v2 < n
    ensures forall x :: x in Ends(es, edges) ==> x < n
  {
    if edges != [] {
      EndsBound(es, n, edges[..|edges| - 1]);
    }
  }

  /**
   * The vertices of one loop, `Reversed(w1) + w2`, walk along the edges that
   * were walked, with `e` between the two halves.
   */
  lemma {:induction false} BothWays(es: seq<Edge>, e: nat, w1: seq<nat>, via1: seq<nat>, w2: seq<nat>, via2: seq<nat>, allowed: set<nat>)
    returns (via: seq<nat>)
    requires PathVia(es, w1, via1, allowed) && PathVia(es, w2, via2, allowed)
    requires e in allowed && e < |es|
    requires w1 != [] ==> w1[0] == es[e].v2
    requires w2 != [] ==> w2[0] == es[e].v1
    ensures PathVia(es, Reversed(w1) + w2, via, allowed)
  {
    PathViaReversed(es, w1, via1, allowed);
    if w1 == [] {
      assert Reversed(w1) + w2 == w2;
      via := via2;
    } else if w2 == [] {
      assert Reversed(w1) + w2 == Reversed(w1);
      via := Reversed(via1);
    } else {
      ReversedAt(w1, |w1| - 1);
      PathViaJoin(es, Reversed(w1), Reversed(via1), e, w2, via2, allowed);
      via := Reversed(via1) + [e] + via2;
    }
  }

  /** First phase of `BM_mesh_edgeloops_find`: no vertex is tagged. */
  method ClearVertTags(mesh: BMesh)
    requires mesh.Valid()
    modifies mesh`vertTag
    ensures mesh.Valid() && mesh.vertTag == {}
  {
    var v := 0;
    while v < mesh.vertCount
      invariant v <= mesh.vertCount && mesh.Valid()
      invariant forall x :: x in mesh.vertTag ==> v <= x
    {
      mesh.vertTag := mesh.vertTag - {v};
      v := v + 1;
    }
  }

  /**
   * Second phase of `BM_mesh_edgeloops_find`: exactly the edges `test`
   * accepts are tagged and listed in iteration order, and exactly their
   * ends are the tagged vertices.
   */
  method TagTested(mesh: BMesh, test: nat -> bool) returns (edges: seq<nat>)
    requires mesh.Valid() && mesh.vertTag == {}
    modifies mesh`vertTag, mesh`edgeTag
    ensures mesh.Valid()
    ensures edges == TestedEdges(mesh.edges, test, |mesh.edges|)
    ensures mesh.edgeTag == Elems(edges)
    ensures mesh.vertTag == Ends(mesh.edges, edges)
  {
    var es := mesh.edges;
    var vertTag: set<nat>, edgeTag: set<nat> := mesh.vertTag, mesh.edgeTag;
    edges := [];
    var e := 0;
    while e < |es|
      invariant e <= |es|
      invariant edges == TestedEdges(es, test, e)
      invariant forall x :: x in edgeTag ==> x < |es|
      invariant forall x: nat :: x < e ==> (x in edgeTag <==> test(x))
      invariant vertTag == Ends(es, edges)
    {
      if test(e) {
        EndsSnoc(es, edges, e);
        edgeTag := edgeTag + {e};
        vertTag := vertTag + {es[e].v1, es[e].v2};
        edges := edges + [e];
      } else {
        edgeTag := edgeTag - {e};
      }
      e := e + 1;
    }
    TaggedAreTested(es, test, edgeTag);
    EndsBound(es, mesh.vertCount, edges);
    mesh.vertTag, mesh.edgeTag := vertTag, edgeTag;
  }

  /** The vertex and edge tags of the mesh at one moment. */
  datatype TagState = TagState(verts: set<nat>, edges: set<nat>)

  /**
   * What one call of `bm_loop_build` did: the vertices it walked, the edges
   * it followed between them, whether it succeeded, and whether it closed
   * the loop through `closeEdge`.
   */
  datatype WalkOutcome = WalkOutcome(walk: seq<nat>, via: seq<nat>, ok: bool, closed: bool, closeEdge: nat)

  /** The outcome of a walk that was not started. */
  const NotWalked := WalkOutcome([], [], false, false, 0)

  /**
   * `r` is what `bm_loop_build` from `v`, having come from `vPrev`, does to
   * the tags `before`, leaving `after`. An untagged `v` is not walked and
   * succeeds; from a tagged `v` the walk is the one `ChainFrom` takes, with
   * the facts `ChainFacts` states of it spelled out on the tags.
   */
  ghost predicate Walked(es: seq<Edge>, before: TagState, after: TagState, vPrev: nat, v: nat, r: WalkOutcome) {
    (r.walk == [] <==> v !in before.verts) &&
    (r.walk == [] ==> r == WalkOutcome([], [], true, false, 0)) &&
    (r.walk != [] ==> r == ChainFrom(es, before.edges, vPrev, v, v)) &&
    (r.walk != [] ==> r.walk[0] == v) &&
    PathVia(es, r.walk, r.via, before.edges) &&
    (r.closed ==>
      r.walk != [] && r.closeEdge in before.edges && r.closeEdge < |es| && Joins(es[r.closeEdge], Last(r.walk), v)) &&
    after.verts == before.verts - Elems(r.walk) &&
    after.edges == before.edges - Elems(r.via) - (if r.closed then {r.closeEdge} else {}) &&
    (!r.ok ==>
      r.walk != [] && |OtherTagged(es, after.edges, Last(r.walk), PrevOf(r.walk, vPrev), |es|)| >= 2) &&
    (r.ok && r.walk != [] && !r.closed ==>
      OtherTagged(es, after.edges, Last(r.walk), PrevOf(r.walk, vPrev), |es|) == [])
  }

  /**
   * What the third phase of `BM_mesh_edgeloops_find` did with one listed
   * edge: whether it was still tagged, the walk towards its second vertex,
   * the tags between the walks, the walk towards its first vertex, the
   * store's vertices and flag, and whether the store was kept.
   */
  datatype Attempt = Attempt(tagged: bool, first: WalkOutcome, mid: TagState, second: WalkOutcome,
                             verts: seq<nat>, flag: bv32, kept: bool)

  /**
   * `a` is what the third phase does with edge `e` on the tags `before`,
   * leaving `after`: an untagged edge is skipped; otherwise the second walk
   * runs only when the first succeeded, the store holds the first walk
   * reversed and then the second, it is closed when either walk closed, and
   * it is kept exactly when both walks succeeded and it holds more than one
   * vertex.
   */
  ghost predicate Attempted(es: seq<Edge>, before: TagState, after: TagState, e: nat, a: Attempt) {
    e < |es| &&
    a.tagged == (e in before.edges) &&
    (!a.tagged ==> after == before && a == Attempt(false, NotWalked, before, NotWalked, [], 0, false)) &&
    (a.tagged ==>
      Walked(es, before, a.mid, es[e].v1, es[e].v2, a.first) &&
      (a.first.ok ==> Walked(es, a.mid, after, es[e].v2, es[e].v1, a.second)) &&
      (!a.first.ok ==> a.second == NotWalked && after == a.mid) &&
      a.verts == Reversed(a.first.walk) + a.second.walk &&
      a.flag == (if a.first.closed || a.second.closed then IS_CLOSED else 0) &&
      (a.kept <==> a.first.ok && a.second.ok && |a.verts| > 1))
  }

  /**
   * The attempts on the first `|atts|` listed edges: attempt `j` starts from
   * the tags `states[j]` and leaves `states[j + 1]`.
   */
  ghost predicate Attempts(es: seq<Edge>, edges: seq<nat>, states: seq<TagState>, atts: seq<Attempt>) {
    |atts| <= |edges| && |states| == |atts| + 1 &&
    forall j :: 0 <= j < |atts| ==> Attempted(es, states[j], states[j + 1], edges[j], atts[j])
  }

  /** The attempts whose store was kept, in order. */
  function Kept(atts: seq<Attempt>): seq<Attempt> {
    if atts == [] then []
    else Kept(atts[..|atts| - 1]) + (if Last(atts).kept then [Last(atts)] else [])
  }

  lemma {:induction false} KeptSnoc(atts: seq<Attempt>, a: Attempt)
    ensures Kept(atts + [a]) == Kept(atts) + (if a.kept then [a] else [])
  {
    assert (atts + [a])[..|atts|] == atts;
  }

  lemma {:induction false} AttemptsSnoc(es: seq<Edge>, edges: seq<nat>, states: seq<TagState>, atts: seq<Attempt>,
                                        a: Attempt, after: TagState)
    requires Attempts(es, edges, states, atts) && |atts| < |edges|
    requires Attempted(es, Last(states), after, edges[|atts|], a)
    ensures Attempts(es, edges, states + [after], atts + [a])
  {
    var states', atts' := states + [after], atts + [a];
    forall j | 0 <= j < |atts'|
      ensures Attempted(es, states'[j], states'[j + 1], edges[j], atts'[j])
    {
      if j < |atts| {
        assert states'[j] == states[j] && states'[j + 1] == states[j + 1] && atts'[j] == atts[j];
      }
    }
  }

  /**
   * A store is kept only with more than one vertex, and when the first walk
   * closed, an edge that was tagged joins the store's first vertex to the
   * edge's second vertex, the store's last one when the second walk added
   * nothing.
   */
  lemma {:induction false} AttemptedClosed(es: seq<Edge>, before: TagState, after: TagState, e: nat, a: Attempt)
    requires Attempted(es, before, after, e, a) && a.tagged
    ensures a.kept ==> |a.verts| > 1
    ensures a.first.closed ==>
      a.verts != [] && a.first.closeEdge in before.edges &&
      Joins(es[a.first.closeEdge], a.verts[0], es[e].v2) &&
      (a.second.walk == [] ==> Last(a.verts) == es[e].v2)
  {
    if a.first.closed {
      var w := a.first.walk;
      ReversedAt(w, 0);
      ReversedAt(w, |w| - 1);
      assert a.verts[0] == Reversed(w)[0];
      if a.second.walk == [] {
        assert a.verts == Reversed(w);
      }
    }
  }

  /**
   * One still-tagged edge in the third phase of `BM_mesh_edgeloops_find`: a
   * new store, walked towards the edge's second vertex (added at the head)
   * and then, when that succeeded, towards its first (added at the tail); it
   * is kept when both walks succeed and it holds more than one vertex.
   */
  method LoopFromEdge(mesh: BMesh, e: nat, ghost allowed: set<nat>)
    returns (kept: bool, store: EdgeLoopStore, ghost a: Attempt, ghost via: seq<nat>)
    requires mesh.Valid() && mesh.edgeTag <= allowed && e < |mesh.edges| && e in mesh.edgeTag
    modifies mesh`vertTag, mesh`edgeTag
    ensures mesh.Valid() && mesh.edgeTag <= old(mesh.edgeTag) && mesh.vertTag <= old(mesh.vertTag)
    ensures Attempted(mesh.edges, TagState(old(mesh.vertTag), old(mesh.edgeTag)), TagState(mesh.vertTag, mesh.edgeTag), e, a)
    ensures a.tagged && kept == a.kept
    ensures fresh(store) && store.Valid() && store.verts == a.verts && store.flag == a.flag
    ensures store.IsClosed() <==> a.first.closed || a.second.closed
    ensures kept ==> PathVia(mesh.edges, store.verts, via, allowed)
  {
    var es := mesh.edges;
    store := new EdgeLoopStore();
    ghost var before := TagState(mesh.vertTag, mesh.edgeTag);
    var ok1, ok2 := false, false;
    ghost var r1, r2 := NotWalked, NotWalked;
    ok1, r1 := LoopBuild(mesh, store, es[e].v1, es[e].v2, 1);
    ghost var mid := TagState(mesh.vertTag, mesh.edgeTag);
    if ok1 {
      ok2, r2 := LoopBuild(mesh, store, es[e].v2, es[e].v1, -1);
    }
    kept := ok1 && ok2 && store.len > 1;
    assert store.verts == Reversed(r1.walk) + r2.walk;
    a := Attempt(true, r1, mid, r2, store.verts, store.flag, kept);
    via := [];
    if kept {
      PathViaWeaken(es, r1.walk, r1.via, before.edges, allowed);
      PathViaWeaken(es, r2.walk, r2.via, mid.edges, allowed);
      via := BothWays(es, e, r1.walk, r1.via, r2.walk, r2.via, allowed);
    }
  }

  /** A kept store: valid, with more than one vertex, the vertices and flag of attempt `a`, walked along `allowed`. */
  ghost predicate StoreIs(es: seq<Edge>, store: EdgeLoopStore, a: Attempt, via: seq<nat>, allowed: set<nat>)
    reads store`verts, store`len, store`flag
  {
    store.len == |store.verts| && store.len > 1 && store.verts == a.verts && store.flag == a.flag &&
    PathVia(es, store.verts, via, allowed)
  }

  /**
   * The body of the third phase of `BM_mesh_edgeloops_find` for one listed
   * edge: skipped when no longer tagged, otherwise `LoopFromEdge`.
   */
  method TryEdge(mesh: BMesh, e: nat, ghost allowed: set<nat>)
    returns (kept: bool, store: EdgeLoopStore?, ghost a: Attempt, ghost via: seq<nat>)
    requires mesh.Valid() && mesh.edgeTag <= allowed && e < |mesh.edges|
    modifies mesh`vertTag, mesh`edgeTag
    ensures mesh.Valid() && mesh.edgeTag <= old(mesh.edgeTag) && mesh.vertTag <= old(mesh.vertTag)
    ensures Attempted(mesh.edges, TagState(old(mesh.vertTag), old(mesh.edgeTag)), TagState(mesh.vertTag, mesh.edgeTag), e, a)
    ensures kept == a.kept
    ensures kept ==> store != null && fresh(store) && StoreIs(mesh.edges, store, a, via, allowed)
  {
    kept, store, via := false, null, [];
    a := Attempt(false, NotWalked, TagState(mesh.vertTag, mesh.edgeTag), NotWalked, [], 0, false);
    if e in mesh.edgeTag {
      var s;
      kept, s, a, via := LoopFromEdge(mesh, e, allowed);
      store := s;
    }
  }

  /**
   * The body of the third phase's loop for the listed edge `edges[i]`: one
   * more attempt, recorded after the `i` earlier ones.
   */
  method AttemptNext(mesh: BMesh, edges: seq<nat>, i: nat, ghost allowed: set<nat>,
                     ghost states: seq<TagState>, ghost atts: seq<Attempt>)
    returns (keep: bool, store: EdgeLoopStore?, ghost a: Attempt, ghost via: seq<nat>, ghost after: TagState)
    requires mesh.Valid() && mesh.edgeTag <= allowed
    requires Attempts(mesh.edges, edges, states, atts) && |atts| == i < |edges| && edges[i] < |mesh.edges|
    requires Last(states) == TagState(mesh.vertTag, mesh.edgeTag)
    modifies mesh`vertTag, mesh`edgeTag
    ensures mesh.Valid() && mesh.edgeTag <= old(mesh.edgeTag) && mesh.vertTag <= old(mesh.vertTag)
    ensures after == TagState(mesh.vertTag, mesh.edgeTag)
    ensures Attempts(mesh.edges, edges, states + [after], atts + [a])
    ensures Kept(atts + [a]) == Kept(atts) + (if a.kept then [a] else [])
    ensures keep == a.kept
    ensures keep ==> store != null && fresh(store) && StoreIs(mesh.edges, store, a, via, allowed)
  {
    keep, store, a, via := TryEdge(mesh, edges[i], allowed);
    after := TagState(mesh.vertTag, mesh.edgeTag);
    AttemptsSnoc(mesh.edges, edges, states, atts, a, after);
    KeptSnoc(atts, a);
  }

  /**
   * Third phase of `BM_mesh_edgeloops_find`: every listed edge in turn, from
   * the tags the edge before left, is skipped when no longer tagged and
   * otherwise walked both ways; the kept stores are returned in order.
   */
  method BuildLoops(mesh: BMesh, edges: seq<nat>, ghost allowed: set<nat>)
    returns (count: nat, loops: seq<EdgeLoopStore>, ghost vias: seq<seq<nat>>,
             ghost atts: seq<Attempt>, ghost states: seq<TagState>)
    requires mesh.Valid() && mesh.edgeTag <= allowed
    requires forall i :: 0 <= i < |edges| ==> edges[i] < |mesh.edges|
    modifies mesh`vertTag, mesh`edgeTag
    ensures mesh.Valid() && mesh.edgeTag <= old(mesh.edgeTag) && mesh.vertTag <= old(mesh.vertTag)
    ensures Attempts(mesh.edges, edges, states, atts) && |atts| == |edges|
    ensures states[0] == TagState(old(mesh.vertTag), old(mesh.edgeTag))
    ensures Last(states) == TagState(mesh.vertTag, mesh.edgeTag)
    ensures count == |loops| == |vias| == |Kept(atts)|
    ensures forall k :: 0 <= k < |loops| ==> fresh(loops[k]) && StoreIs(mesh.edges, loops[k], Kept(atts)[k], vias[k], allowed)
  {
    var es := mesh.edges;
    count, loops, vias := 0, [], [];
    atts, states := [], [TagState(mesh.vertTag, mesh.edgeTag)];
    ghost var kept: seq<Attempt> := [];
    var i := 0;
    while i < |edges|
      invariant i <= |edges| && mesh.Valid()
      invariant mesh.edgeTag <= old(mesh.edgeTag) && mesh.vertTag <= old(mesh.vertTag)
      invariant Attempts(es, edges, states, atts) && |atts| == i
      invariant states[0] == TagState(old(mesh.vertTag), old(mesh.edgeTag))
      invariant Last(states) == TagState(mesh.vertTag, mesh.edgeTag)
      invariant kept == Kept(atts)
      invariant count == |loops| == |vias| == |kept|
      invariant forall k :: 0 <= k < |loops| ==> fresh(loops[k]) && StoreIs(es, loops[k], kept[k], vias[k], allowed)
    {
      var keep, store, a, via, after := AttemptNext(mesh, edges, i, allowed, states, atts);
      if keep {
        loops, vias, count := loops + [store], vias + [via], count + 1;
      }
      atts, states := atts + [a], states + [after];
      kept := kept + (if a.kept then [a] else []);
      i := i + 1;
    }
  }

  /** Last phase of `BM_mesh_edgeloops_find`: the listed edges and their vertices are untagged. */
  method ClearTested(mesh: BMesh, edges: seq<nat>)
    requires mesh.Valid() && forall i :: 0 <= i < |edges| ==> edges[i] < |mesh.edges|
    requires forall x :: x in mesh.edgeTag ==> x in edges
    requires forall x :: x in mesh.vertTag ==> EndOfSome(mesh.edges, edges, 0, x)
    modifies mesh`vertTag, mesh`edgeTag
    ensures mesh.Valid() && mesh.vertTag == {} && mesh.edgeTag == {}
  {
    var es := mesh.edges;
    var i := 0;
    while i < |edges|
      invariant i <= |edges| && mesh.Valid()
      invariant forall x :: x in mesh.edgeTag ==> x in edges[i..]
      invariant forall x :: x in mesh.vertTag ==> EndOfSome(es, edges, i, x)
    {
      var e := edges[i];
      mesh.edgeTag := mesh.edgeTag - {e};
      mesh.vertTag := mesh.vertTag - {es[e].v1, es[e].v2};
      i := i + 1;
    }
  }

  /**
   * `BM_mesh_edgeloops_find`: tags the edges `test` accepts and their
   * vertices, then walks both ways from each edge still tagged; every walk
   * that succeeds in both directions and holds more than one vertex becomes a
   * loop, a walk along accepted edges. All tags are cleared at the end.
   */
  method Find(mesh: BMesh, test: nat -> bool)
    returns (count: nat, loops: seq<EdgeLoopStore>, ghost vias: seq<seq<nat>>,
             ghost atts: seq<Attempt>, ghost states: seq<TagState>)
    requires mesh.Valid()
    modifies mesh`vertTag, mesh`edgeTag
    ensures mesh.Valid() && mesh.vertTag == {} && mesh.edgeTag == {}
    ensures var tested := TestedEdges(mesh.edges, test, |mesh.edges|);
      Attempts(mesh.edges, tested, states, atts) && |atts| == |tested| &&
      states[0] == TagState(Ends(mesh.edges, tested), Elems(tested))
    ensures count == |loops| == |vias| == |Kept(atts)|
    ensures forall k :: 0 <= k < |loops| ==>
      fresh(loops[k]) && loops[k].Valid() && loops[k].len > 1 &&
      loops[k].verts == Kept(atts)[k].verts && loops[k].flag == Kept(atts)[k].flag &&
      PathVia(mesh.edges, loops[k].verts, vias[k], Elems(TestedEdges(mesh.edges, test, |mesh.edges|)))
  {
    ClearVertTags(mesh);
    var edges := TagTested(mesh, test);
    TestedEdgesSound(mesh.edges, test, |mesh.edges|);
    EndsAreEndOfSome(mesh.edges, edges);
    ghost var tagged := mesh.vertTag;
    count, loops, vias, atts, states := BuildLoops(mesh, edges, Elems(edges));
    forall x | x in mesh.vertTag
      ensures EndOfSome(mesh.edges, edges, 0, x)
    {
      assert x in tagged;
    }
    ClearTested(mesh, edges);
  }
}
