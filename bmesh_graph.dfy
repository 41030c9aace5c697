/**
 * The part of a BMesh the edge-loop utilities see: vertices numbered
 * `0 .. vertCount`, edges as vertex pairs numbered by their position in the
 * mesh's edge iteration, the internal tag of every vertex and edge, the
 * integer index of every vertex and each vertex's edge pointer `v->e`.
 *
 * The edges around a vertex (its disk cycle) are visited in ascending edge
 * number.
 */
module BMeshGraph {

  datatype Option<T> = None | Some(value: T)

  datatype Edge = Edge(v1: nat, v2: nat)

  /** `BM_vert_in_edge`. */
  predicate InEdge(e: Edge, v: nat) {
    e.v1 == v || e.v2 == v
  }

  /** The edge joins `a` and `b`, in either direction. */
  predicate Joins(e: Edge, a: nat, b: nat) {
    (e.v1 == a && e.v2 == b) || (e.v1 == b && e.v2 == a)
  }

  /** `BM_edge_other_vert`: the end of `e` that is not `v`. */
  function OtherVert(e: Edge, v: nat): (r: nat)
    requires InEdge(e, v)
    ensures Joins(e, v, r)
  {
    if e.v1 == v then e.v2 else e.v1
  }

  function Last<T>(s: seq<T>): T
    requires |s| > 0
  {
    s[|s| - 1]
  }

  function Elems(s: seq<nat>): set<nat> {
    set x | x in s
  }

  /** No element occurs twice in `s`. */
  ghost predicate Distinct(s: seq<nat>) {
    forall i, j :: 0 <= i < j < |s| ==> s[i] != s[j]
  }

  /**
   * `walk` is a walk whose consecutive vertices are joined by the edges
   * `via`, every one of them in `allowed`.
   */
  ghost predicate PathVia(es: seq<Edge>, walk: seq<nat>, via: seq<nat>, allowed: set<nat>) {
    |via| == (if walk == [] then 0 else |walk| - 1) &&
    forall k :: 0 <= k < |via| ==>
      via[k] in allowed && via[k] < |es| && Joins(es[via[k]], walk[k], walk[k + 1])
  }

  /** The sequence backwards. */
  function Reversed<T>(s: seq<T>): (r: seq<T>)
    ensures |r| == |s|
  {
    if s == [] then [] else [s[|s| - 1]] + Reversed(s[..|s| - 1])
  }

  lemma {:induction false} ReversedAt<T>(s: seq<T>, i: nat)
    requires i < |s|
    ensures Reversed(s)[i] == s[|s| - 1 - i]
  {
    if i > 0 {
      ReversedAt(s[..|s| - 1], i - 1);
    }
  }

  /** Reversing a sequence with one more element at the end puts it at the front. */
  lemma {:induction false} ReversedSnoc(s: seq<nat>, x: nat)
    ensures Reversed(s + [x]) == [x] + Reversed(s)
  {
    assert (s + [x])[..|s|] == s;
  }

  /** Reversing twice gives the sequence back. */
  lemma {:induction false} ReversedInvolution<T>(s: seq<T>)
    ensures Reversed(Reversed(s)) == s
  {
    forall i | 0 <= i < |s|
      ensures Reversed(Reversed(s))[i] == s[i]
    {
      ReversedAt(Reversed(s), i);
      ReversedAt(s, |s| - 1 - i);
    }
  }

  /** A walk read backwards is a walk along the same edges read backwards. */
  lemma {:induction false} PathViaReversed(es: seq<Edge>, walk: seq<nat>, via: seq<nat>, allowed: set<nat>)
    requires PathVia(es, walk, via, allowed)
    ensures PathVia(es, Reversed(walk), Reversed(via), allowed)
  {
    forall k | 0 <= k < |via|
      ensures Reversed<nat>(via)[k] in allowed && Reversed<nat>(via)[k] < |es|
      ensures Joins(es[Reversed<nat>(via)[k]], Reversed<nat>(walk)[k], Reversed<nat>(walk)[k + 1])
    {
      ReversedAt<nat>(via, k);
      ReversedAt<nat>(walk, k);
      ReversedAt<nat>(walk, k + 1);
    }
  }

  /** A walk over some allowed edges is a walk over any larger set of allowed edges. */
  lemma {:induction false} PathViaWeaken(es: seq<Edge>, walk: seq<nat>, via: seq<nat>, allowed: set<nat>, more: set<nat>)
    requires PathVia(es, walk, via, allowed) && allowed <= more
    ensures PathVia(es, walk, via, more)
  {
  }

  /** A walk extended by one edge from its last vertex. */
  lemma {:induction false} PathViaSnoc(es: seq<Edge>, walk: seq<nat>, via: seq<nat>, e: nat, x: nat, allowed: set<nat>)
    requires PathVia(es, walk, via, allowed) && walk != []
    requires e in allowed && e < |es| && Joins(es[e], Last(walk), x)
    ensures PathVia(es, walk + [x], via + [e], allowed)
  {
    var w := walk + [x];
    var v := via + [e];
    forall k | 0 <= k < |v|
      ensures v[k] in allowed && v[k] < |es| && Joins(es[v[k]], w[k], w[k + 1])
    {
      if k < |via| {
        assert v[k] == via[k] && w[k] == walk[k] && w[k + 1] == walk[k + 1];
      }
    }
  }

  /** A walk extended by one edge in front of its first vertex. */
  lemma {:induction false} PathViaCons(es: seq<Edge>, x: nat, e: nat, walk: seq<nat>, via: seq<nat>, allowed: set<nat>)
    requires PathVia(es, walk, via, allowed) && walk != []
    requires e in allowed && e < |es| && Joins(es[e], x, walk[0])
    ensures PathVia(es, [x] + walk, [e] + via, allowed)
  {
    var w := [x] + walk;
    var v := [e] + via;
    forall k | 0 <= k < |v|
      ensures v[k] in allowed && v[k] < |es| && Joins(es[v[k]], w[k], w[k + 1])
    {
      if k > 0 {
        assert v[k] == via[k - 1] && w[k] == walk[k - 1] && w[k + 1] == walk[k];
      }
    }
  }

  /** Two walks joined by an edge between the end of one and the start of the other. */
  lemma {:induction false} PathViaJoin(es: seq<Edge>, w1: seq<nat>, via1: seq<nat>, e: nat, w2: seq<nat>, via2: seq<nat>, allowed: set<nat>)
    requires PathVia(es, w1, via1, allowed) && PathVia(es, w2, via2, allowed)
    requires w1 != [] && w2 != [] && e in allowed && e < |es| && Joins(es[e], Last(w1), w2[0])
    ensures PathVia(es, w1 + w2, via1 + [e] + via2, allowed)
  {
    var w := w1 + w2;
    var via := via1 + [e] + via2;
    forall k | 0 <= k < |via|
      ensures via[k] in allowed && via[k] < |es| && Joins(es[via[k]], w[k], w[k + 1])
    {
      if k < |via1| {
        assert via[k] == via1[k] && w[k] == w1[k] && w[k + 1] == w1[k + 1];
      } else if k == |via1| {
        assert w[k] == Last(w1) && w[k + 1] == w2[0];
      } else {
        var j := k - |via1| - 1;
        assert via[k] == via2[j] && w[k] == w2[j] && w[k + 1] == w2[j + 1];
      }
    }
  }

  /** The edge `e` contains `v`, carries the tag and does not lead back to `vPrev`. */
  predicate IsOtherTagged(es: seq<Edge>, tags: set<nat>, v: nat, vPrev: nat, e: nat)
    requires e < |es|
  {
    e in tags && InEdge(es[e], v) && OtherVert(es[e], v) != vPrev
  }

  /**
   * The edges among the first `n` that contain `v`, carry the tag and do not
   * lead back to `vPrev`, in iteration order.
   */
  function OtherTagged(es: seq<Edge>, tags: set<nat>, v: nat, vPrev: nat, n: nat): seq<nat>
    requires n <= |es|
  {
    if n == 0 then []
    else if IsOtherTagged(es, tags, v, vPrev, n - 1) then OtherTagged(es, tags, v, vPrev, n - 1) + [n - 1]
    else OtherTagged(es, tags, v, vPrev, n - 1)
  }

  /** Every edge `OtherTagged` lists qualifies, and they come in ascending order. */
  lemma {:induction false} OtherTaggedSound(es: seq<Edge>, tags: set<nat>, v: nat, vPrev: nat, n: nat)
    requires n <= |es|
    ensures forall k :: 0 <= k < |OtherTagged(es, tags, v, vPrev, n)| ==>
      OtherTagged(es, tags, v, vPrev, n)[k] < n &&
      IsOtherTagged(es, tags, v, vPrev, OtherTagged(es, tags, v, vPrev, n)[k])
    ensures forall j, k :: 0 <= j < k < |OtherTagged(es, tags, v, vPrev, n)| ==>
      OtherTagged(es, tags, v, vPrev, n)[j] < OtherTagged(es, tags, v, vPrev, n)[k]
  {
    if n > 0 {
      OtherTaggedSound(es, tags, v, vPrev, n - 1);
    }
  }

  /** Every qualifying edge among the first `n` is listed by `OtherTagged`. */
  lemma {:induction false} OtherTaggedComplete(es: seq<Edge>, tags: set<nat>, v: nat, vPrev: nat, n: nat, e: nat)
    requires n <= |es| && e < n && IsOtherTagged(es, tags, v, vPrev, e)
    ensures e in OtherTagged(es, tags, v, vPrev, n)
  {
    if e < n - 1 {
      OtherTaggedComplete(es, tags, v, vPrev, n - 1, e);
    }
  }

  /** The last edge `OtherTagged` lists qualifies. */
  lemma {:induction false} OtherTaggedLast(es: seq<Edge>, tags: set<nat>, v: nat, vPrev: nat, n: nat)
    requires n <= |es| && OtherTagged(es, tags, v, vPrev, n) != []
    ensures Last(OtherTagged(es, tags, v, vPrev, n)) < n
    ensures IsOtherTagged(es, tags, v, vPrev, Last(OtherTagged(es, tags, v, vPrev, n)))
  {
    if !IsOtherTagged(es, tags, v, vPrev, n - 1) {
      OtherTaggedLast(es, tags, v, vPrev, n - 1);
    }
  }

  /**
   * `BM_edge_exists`: the first edge joining `a` and `b` from edge `from`
   * on, or -1 when there is none.
   */
  function EdgeBetween(es: seq<Edge>, a: nat, b: nat, from: nat): (r: int)
    requires from <= |es|
    decreases |es| - from
    ensures r == -1 <==> forall e :: from <= e < |es| ==> !Joins(es[e], a, b)
    ensures r != -1 ==> from <= r < |es| && Joins(es[r], a, b)
    ensures r != -1 ==> forall e :: from <= e < r ==> !Joins(es[e], a, b)
  {
    if from == |es| then -1
    else if Joins(es[from], a, b) then from
    else EdgeBetween(es, a, b, from + 1)
  }

  /** Consecutive vertices of a walk always have an edge between them. */
  lemma {:induction false} WalkEdgesExist(es: seq<Edge>, walk: seq<nat>, via: seq<nat>, allowed: set<nat>, k: nat)
    requires PathVia(es, walk, via, allowed) && k + 1 < |walk|
    ensures EdgeBetween(es, walk[k], walk[k + 1], 0) != -1
  {
    assert Joins(es[via[k]], walk[k], walk[k + 1]);
  }

  /** The mesh. */
  class BMesh {
    const vertCount: nat
    const edges: seq<Edge>

    /** `BM_ELEM_INTERNAL_TAG` of the vertices and of the edges. */
    var vertTag: set<nat>
    var edgeTag: set<nat>
    /** `BM_elem_index_get` of every vertex. */
    var vertIndex: seq<int>
    /** `v->e`: an edge of the vertex, or -1 for none. */
    var vertEdge: seq<int>

    ghost predicate Valid()
      reads this
    {
      (forall e :: 0 <= e < |edges| ==>
        edges[e].v1 < vertCount && edges[e].v2 < vertCount && edges[e].v1 != edges[e].v2) &&
      (forall v :: v in vertTag ==> v < vertCount) &&
      (forall e :: e in edgeTag ==> e < |edges|) &&
      |vertIndex| == vertCount && |vertEdge| == vertCount &&
      (forall v :: 0 <= v < vertCount ==>
        vertEdge[v] == -1 || (0 <= vertEdge[v] < |edges| && InEdge(edges[vertEdge[v]], v)))
    }

    constructor (vertCount: nat, edges: seq<Edge>)
      requires forall e :: 0 <= e < |edges| ==>
        edges[e].v1 < vertCount && edges[e].v2 < vertCount && edges[e].v1 != edges[e].v2
      ensures Valid() && this.vertCount == vertCount && this.edges == edges
      ensures vertTag == {} && edgeTag == {}
    {
      this.vertCount := vertCount;
      this.edges := edges;
      vertTag := {};
      edgeTag := {};
      vertIndex := seq(vertCount, _ => 0);
      vertEdge := seq(vertCount, _ => -1);
    }
  }
}
