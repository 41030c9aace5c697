/**
 * The operations on one stored edge loop: copy, build from an array of
 * vertices, the loop's edges, flip, the non-splitting expand and the
 * overlap test between two loops.
 */
module BMeshLoopStore {
  import opened BMeshGraph
  import opened BMeshEdgeLoop

  /** `BM_edgeloop_copy`: a new store with the same vertices, flags and length. */
  method Copy(store: EdgeLoopStore) returns (c: EdgeLoopStore)
    ensures fresh(c)
    ensures c.verts == store.verts && c.flag == store.flag && c.len == store.len
  {
    c := new EdgeLoopStore();
    c.verts, c.flag, c.len := store.verts, store.flag, store.len;
  }

  /**
   * `BM_edgeloop_from_verts`: a new store holding the first `tot` vertices of
   * `vArr` in order, closed exactly when `isClosed`.
   */
  method FromVerts(vArr: array<nat>, tot: nat, isClosed: bool) returns (store: EdgeLoopStore)
    requires tot <= vArr.Length
    ensures fresh(store) && store.Valid()
    ensures store.verts == vArr[..tot] && store.LengthGet() == tot
    ensures store.IsClosed() <==> isClosed
    ensures store.flag & !IS_CLOSED == 0
  {
    var verts: seq<nat> := [];
    var i := 0;
    while i < tot
      invariant 0 <= i <= tot
      invariant verts == vArr[..i]
    {
      verts := verts + [vArr[i]];
      i := i + 1;
    }
    store := new EdgeLoopStore();
    store.verts, store.len := verts, tot;
    if isClosed {
      store.flag := store.flag | IS_CLOSED;
    }
  }

  /** The edges between consecutive vertices of a loop (-1 where none exists). */
  function ChainEdges(es: seq<Edge>, verts: seq<nat>): seq<int>
    requires verts != []
  {
    seq(|verts| - 1, k requires 0 <= k < |verts| - 1 => EdgeBetween(es, verts[k], verts[k + 1], 0))
  }

  /** The edge that closes a loop: between its first and its last vertex. */
  function ClosingEdge(es: seq<Edge>, verts: seq<nat>): int
    requires verts != []
  {
    EdgeBetween(es, verts[0], Last(verts), 0)
  }

  /** What `BM_edgeloop_edges_get` writes: the chain edges, then the closing edge of a closed loop. */
  function LoopEdges(es: seq<Edge>, verts: seq<nat>, closed: bool): seq<int>
    requires verts != []
  {
    ChainEdges(es, verts) + (if closed then [ClosingEdge(es, verts)] else [])
  }

  /** `BM_edgeloop_edges_get`. */
  method EdgesGet(mesh: BMesh, store: EdgeLoopStore) returns (eArr: seq<int>)
    requires store.Valid() && store.verts != []
    ensures eArr == LoopEdges(mesh.edges, store.verts, store.IsClosed())
  {
    var es, verts := mesh.edges, store.verts;
    eArr := [];
    var i := 0;
    while i + 1 < |verts|
      invariant 0 <= i < |verts|
      invariant |eArr| == i
      invariant forall k :: 0 <= k < i ==> eArr[k] == EdgeBetween(es, verts[k], verts[k + 1], 0)
    {
      eArr := eArr + [EdgeBetween(es, verts[i], verts[i + 1], 0)];
      i := i + 1;
    }
    if store.flag & IS_CLOSED != 0 {
      eArr := eArr + [EdgeBetween(es, verts[0], Last(verts), 0)];
    }
  }

  /** The first edge joining two vertices does not depend on their order. */
  lemma {:induction false} EdgeBetweenSymmetric(es: seq<Edge>, a: nat, b: nat, from: nat)
    requires from <= |es|
    decreases |es| - from
    ensures EdgeBetween(es, a, b, from) == EdgeBetween(es, b, a, from)
  {
    if from < |es| {
      EdgeBetweenSymmetric(es, a, b, from + 1);
    }
  }

  /**
   * A loop walked along mesh edges has all its edges: each entry is an edge
   * joining its two vertices, the closing one included when the walk closes.
   */
  lemma {:induction false} WalkLoopEdges(es: seq<Edge>, walk: seq<nat>, via: seq<nat>, allowed: set<nat>, closed: bool, closeEdge: nat)
    requires PathVia(es, walk, via, allowed) && walk != []
    requires closed ==> closeEdge < |es| && Joins(es[closeEdge], Last(walk), walk[0])
    ensures |LoopEdges(es, walk, closed)| == |walk| - 1 + (if closed then 1 else 0)
    ensures forall k :: 0 <= k < |walk| - 1 ==>
      0 <= LoopEdges(es, walk, closed)[k] < |es| && Joins(es[LoopEdges(es, walk, closed)[k]], walk[k], walk[k + 1])
    ensures closed ==>
      0 <= ClosingEdge(es, walk) < |es| && Joins(es[ClosingEdge(es, walk)], walk[0], Last(walk))
  {
    var r := LoopEdges(es, walk, closed);
    forall k | 0 <= k < |walk| - 1
      ensures 0 <= r[k] < |es| && Joins(es[r[k]], walk[k], walk[k + 1])
    {
      WalkEdgesExist(es, walk, via, allowed, k);
    }
    if closed {
      assert Joins(es[closeEdge], walk[0], Last(walk));
    }
  }

  /** `BM_edgeloop_flip`: the vertex list reversed; flags and length unchanged. */
  method Flip(store: EdgeLoopStore)
    modifies store
    ensures store.verts == Reversed(old(store.verts))
    ensures store.flag == old(store.flag) && store.len == old(store.len)
  {
    store.verts := Reversed(store.verts);
  }

  /**
   * A flipped loop has the same edges in reverse order and the same closing
   * edge; flipping twice restores the loop (`ReversedInvolution`).
   */
  lemma {:induction false} FlipReversesEdges(es: seq<Edge>, verts: seq<nat>)
    requires verts != []
    ensures ChainEdges(es, Reversed(verts)) == Reversed(ChainEdges(es, verts))
    ensures ClosingEdge(es, Reversed(verts)) == ClosingEdge(es, verts)
  {
    var n := |verts|;
    var rv := Reversed(verts);
    var c := ChainEdges(es, verts);
    forall k | 0 <= k < n - 1
      ensures ChainEdges(es, rv)[k] == Reversed(c)[k]
    {
      ReversedAt(verts, k);
      ReversedAt(verts, k + 1);
      ReversedAt(c, k);
      EdgeBetweenSymmetric(es, verts[n - 1 - k], verts[n - 2 - k], 0);
    }
    ReversedAt(verts, 0);
    ReversedAt(verts, n - 1);
    EdgeBetweenSymmetric(es, verts[0], verts[n - 1], 0);
  }

  /** Positions `p` to duplicate in a sequence of length `n`: strictly increasing, in range. */
  ghost predicate Picks(p: seq<nat>, n: nat) {
    (forall k :: 0 <= k < |p| ==> p[k] < n) &&
    (forall j, k :: 0 <= j < k < |p| ==> p[j] < p[k])
  }

  /** `0, 1, ..., n - 1`. */
  function Range(n: nat): (r: seq<nat>)
    ensures |r| == n && Picks(r, n)
  {
    if n == 0 then [] else Range(n - 1) + [n - 1]
  }

  /** Dropping the last pick leaves picks below it. */
  lemma PicksInit(p: seq<nat>, n: nat)
    requires Picks(p, n) && p != []
    ensures Last(p) < n && Picks(p[..|p| - 1], Last(p))
  {
  }

  /**
   * `s` with a copy of the element at each picked position inserted right
   * after it (the non-splitting node copy of `BM_edgeloop_expand`).
   */
  function Spread(s: seq<nat>, p: seq<nat>): (r: seq<nat>)
    requires Picks(p, |s|)
    decreases |p|
    ensures |r| == |s| + |p|
  {
    if p == [] then s
    else
      var q := Last(p);
      PicksInit(p, |s|);
      Spread(s[..q + 1], p[..|p| - 1]) + [s[q]] + s[q + 1..]
  }

  /** Inserting copies inside a prefix leaves the rest of the sequence as it was. */
  lemma {:induction false} SpreadAppend(t: seq<nat>, u: seq<nat>, p: seq<nat>)
    requires Picks(p, |t|)
    ensures Spread(t + u, p) == Spread(t, p) + u
  {
    if p != [] {
      var q := Last(p);
      var p' := p[..|p| - 1];
      var w := t + u;
      PicksInit(p, |t|);
      assert w[..q + 1] == t[..q + 1] && w[q] == t[q] && w[q + 1..] == t[q + 1..] + u;
      var x := Spread(t[..q + 1], p');
      assert Spread(w, p) == x + [t[q]] + w[q + 1..];
      assert Spread(t, p) == x + [t[q]] + t[q + 1..];
    }
  }

  /**
   * One more pick at `q`, past all earlier picks (which lie below `lo`): the
   * prefix through `q` is the spread prefix up to `lo`, the untouched nodes
   * from `lo` through `q`, and the copy of node `q`.
   */
  lemma {:induction false} SpreadExtend(s: seq<nat>, p: seq<nat>, lo: nat, q: nat)
    requires Picks(p, lo) && lo <= q < |s|
    ensures Picks(p + [q], q + 1)
    ensures Spread(s[..q + 1], p + [q]) == Spread(s[..lo], p) + s[lo..q + 1] + [s[q]]
  {
    var t := s[..q + 1];
    var p' := p + [q];
    assert p'[..|p|] == p && Last(p') == q;
    assert t[..q + 1] == t && t[q + 1..] == [] && t[q] == s[q];
    assert Spread(t, p') == Spread(t, p) + [s[q]] + [];
    SpreadAppend(s[..lo], s[lo..q + 1], p);
    assert s[..lo] + s[lo..q + 1] == t;
  }

  /** One step of the doubling pass: node `i` and its copy follow the doubled prefix. */
  lemma {:induction false} DoubleStep(s: seq<nat>, i: nat)
    requires i < |s|
    ensures Spread(s[..i + 1], Range(i + 1)) == Spread(s[..i], Range(i)) + [s[i], s[i]]
  {
    SpreadExtend(s, Range(i), i, i);
    assert s[i..i + 1] == [s[i]];
  }

  /** One step of the sparse pass: the nodes up to pick `k`, then its copy, follow the spread prefix. */
  lemma {:induction false} SparseStep(s: seq<nat>, picks: seq<nat>, k: nat, lo: nat)
    requires Picks(picks, |s|) && k < |picks|
    requires Picks(picks[..k], lo) && lo <= picks[k]
    ensures Picks(picks[..k + 1], picks[k] + 1)
    ensures k + 1 < |picks| ==> picks[k] + 1 <= picks[k + 1]
    ensures Spread(s[..picks[k] + 1], picks[..k + 1]) == Spread(s[..lo], picks[..k]) + s[lo..picks[k] + 1] + [s[picks[k]]]
  {
    assert picks[..k + 1] == picks[..k] + [picks[k]];
    SpreadExtend(s, picks[..k], lo, picks[k]);
  }

  /** After the last pick the rest of the nodes follow unchanged. */
  lemma {:induction false} SparseFinish(s: seq<nat>, picks: seq<nat>, k: nat, lo: nat)
    requires k == |picks| && lo <= |s| && Picks(picks[..k], lo)
    ensures Spread(s, picks) == Spread(s[..lo], picks[..k]) + s[lo..]
  {
    assert picks[..k] == picks;
    assert s == s[..lo] + s[lo..];
    SpreadAppend(s[..lo], s[lo..], picks);
  }

  /**
   * `BLI_FOREACH_SPARSE_RANGE(src, n, i)`: `sparse(src, n)` gives the `n`
   * positions it visits among `src`, in increasing order.
   */
  ghost predicate SparseRange(sparse: (nat, nat) -> seq<nat>) {
    forall src: nat, n: nat :: n <= src ==> |sparse(src, n)| == n && Picks(sparse(src, n), src)
  }

  /**
   * The vertex list after `BM_edgeloop_expand` without splitting: doubled
   * while less than half the target, then topped up at sparse positions.
   */
  function Expanded(s: seq<nat>, target: int, sparse: (nat, nat) -> seq<nat>): (r: seq<nat>)
    requires SparseRange(sparse)
    requires |s| <= target && (s == [] ==> target == 0)
    decreases target - |s|
    ensures |r| == target
  {
    if |s| * 2 < target then Expanded(Spread(s, Range(|s|)), target, sparse)
    else if |s| < target then Spread(s, sparse(|s|, target - |s|))
    else s
  }

  /** The doubling pass: every node followed by its copy. */
  method DoublePass(s: seq<nat>) returns (r: seq<nat>)
    ensures r == Spread(s, Range(|s|))
  {
    r := [];
    var i := 0;
    while i < |s|
      invariant 0 <= i <= |s|
      invariant r == Spread(s[..i], Range(i))
    {
      DoubleStep(s, i);
      r := r + [s[i], s[i]];
      i := i + 1;
    }
    assert s[..i] == s;
  }

  /** The sparse pass: a copy after each picked node, walking forward to it. */
  method SparsePass(s: seq<nat>, picks: seq<nat>) returns (r: seq<nat>)
    requires Picks(picks, |s|)
    ensures r == Spread(s, picks)
  {
    r := [];
    var iterPrev := 0;
    var k := 0;
    while k < |picks|
      invariant 0 <= k <= |picks| && iterPrev <= |s|
      invariant k < |picks| ==> iterPrev <= picks[k]
      invariant Picks(picks[..k], iterPrev)
      invariant r == Spread(s[..iterPrev], picks[..k])
    {
      var iter := picks[k];
      SparseStep(s, picks, k, iterPrev);
      r := r + s[iterPrev..iter + 1] + [s[iter]];
      iterPrev := iter + 1;
      k := k + 1;
    }
    SparseFinish(s, picks, k, iterPrev);
    r := r + s[iterPrev..];
  }

  /**
   * `BM_edgeloop_expand` with `split == false`: grows the loop to `target`
   * vertices by duplicating nodes in place; flags stay.
   */
  method Expand(store: EdgeLoopStore, target: int, sparse: (nat, nat) -> seq<nat>)
    requires store.Valid() && SparseRange(sparse)
    requires |store.verts| <= target && (store.verts == [] ==> target == 0)
    modifies store
    ensures store.Valid() && store.LengthGet() == target
    ensures store.verts == Expanded(old(store.verts), target, sparse)
    ensures store.flag == old(store.flag)
  {
    var verts := store.verts;
    while |verts| * 2 < target
      invariant |verts| <= target && (verts == [] ==> target == 0)
      invariant Expanded(verts, target, sparse) == Expanded(old(store.verts), target, sparse)
      invariant unchanged(store)
      decreases target - |verts|
    {
      verts := DoublePass(verts);
    }
    if |verts| < target {
      verts := SparsePass(verts, sparse(|verts|, target - |verts|));
    }
    store.verts, store.len := verts, |verts|;
  }

  /** `s` with each run of equal neighbours collapsed to one element. */
  function Destutter(s: seq<nat>): seq<nat> {
    if |s| <= 1 then s
    else if s[|s| - 1] == s[|s| - 2] then Destutter(s[..|s| - 1])
    else Destutter(s[..|s| - 1]) + [s[|s| - 1]]
  }

  /** No two neighbours are equal. */
  predicate NoStutter(s: seq<nat>) {
    forall k :: 0 <= k < |s| - 1 ==> s[k] != s[k + 1]
  }

  lemma {:induction false} DestutterNoStutter(s: seq<nat>)
    requires NoStutter(s)
    ensures Destutter(s) == s
  {
    if |s| > 1 {
      var s' := s[..|s| - 1];
      assert NoStutter(s') by {
        forall k | 0 <= k < |s'| - 1 ensures s'[k] != s'[k + 1] {
          assert s[k] != s[k + 1];
        }
      }
      DestutterNoStutter(s');
      assert s[|s| - 1] != s[|s| - 2];
      assert s' + [s[|s| - 1]] == s;
    }
  }

  /** Appending one element: it is absorbed when it repeats the last one. */
  lemma DestutterSnoc(a: seq<nat>, x: nat)
    ensures Destutter(a + [x]) == if a != [] && Last(a) == x then Destutter(a) else Destutter(a) + [x]
  {
    var b := a + [x];
    assert b[..|b| - 1] == a;
    if a == [] {
      assert b == [x];
    }
  }

  /** What follows a prefix collapses the same way after any prefix with the same collapse and last element. */
  lemma {:induction false} DestutterCongruence(a: seq<nat>, a': seq<nat>, c: seq<nat>)
    requires a != [] && a' != []
    requires Destutter(a) == Destutter(a') && Last(a) == Last(a')
    ensures Destutter(a + c) == Destutter(a' + c)
  {
    if c == [] {
      assert a + c == a && a' + c == a';
    } else {
      var c' := c[..|c| - 1];
      var x := c[|c| - 1];
      DestutterCongruence(a, a', c');
      assert a + c == (a + c') + [x] && a' + c == (a' + c') + [x];
      assert Last(a + c') == Last(a' + c');
      DestutterSnoc(a + c', x);
      DestutterSnoc(a' + c', x);
    }
  }

  lemma {:induction false} SpreadLast(s: seq<nat>, p: seq<nat>)
    requires s != [] && Picks(p, |s|)
    ensures Last(Spread(s, p)) == Last(s)
  {
    if p != [] {
      var q := Last(p);
      PicksInit(p, |s|);
      var x := Spread(s[..q + 1], p[..|p| - 1]);
      assert Spread(s, p) == x + [s[q]] + s[q + 1..];
    }
  }

  /** Inserting copies right after their originals changes nothing once runs are collapsed. */
  lemma {:induction false} SpreadDestutter(s: seq<nat>, p: seq<nat>)
    requires Picks(p, |s|)
    decreases |p|
    ensures Destutter(Spread(s, p)) == Destutter(s)
  {
    if p != [] {
      var q := Last(p);
      var p' := p[..|p| - 1];
      PicksInit(p, |s|);
      var t, c := s[..q + 1], s[q + 1..];
      var x := Spread(t, p');
      var a := x + [s[q]];
      assert Spread(s, p) == a + c;
      assert t + c == s;
      assert Destutter(a) == Destutter(t) && Last(a) == Last(t) by {
        SpreadDestutter(t, p');
        SpreadLast(t, p');
        DestutterSnoc(x, s[q]);
      }
      DestutterCongruence(a, t, c);
    }
  }

  lemma {:induction false} ExpandedDestutter(s: seq<nat>, target: int, sparse: (nat, nat) -> seq<nat>)
    requires SparseRange(sparse)
    requires |s| <= target && (s == [] ==> target == 0)
    decreases target - |s|
    ensures Destutter(Expanded(s, target, sparse)) == Destutter(s)
  {
    if |s| * 2 < target {
      SpreadDestutter(s, Range(|s|));
      ExpandedDestutter(Spread(s, Range(|s|)), target, sparse);
    } else if |s| < target {
      SpreadDestutter(s, sparse(|s|, target - |s|));
    }
  }

  /** The vertices of a walk along edges of distinct ends never repeat back to back. */
  lemma {:induction false} WalkNoStutter(es: seq<Edge>, walk: seq<nat>, via: seq<nat>, allowed: set<nat>)
    requires PathVia(es, walk, via, allowed)
    requires forall e :: 0 <= e < |es| ==> es[e].v1 != es[e].v2
    ensures NoStutter(walk)
  {
    forall k | 0 <= k < |walk| - 1
      ensures walk[k] != walk[k + 1]
    {
      assert Joins(es[via[k]], walk[k], walk[k + 1]);
    }
  }

  /**
   * Expanding a loop walked along mesh edges only repeats vertices in place:
   * collapsing repeated neighbours gives the loop back.
   */
  lemma {:induction false} ExpandedCollapsesToWalk(es: seq<Edge>, walk: seq<nat>, via: seq<nat>, allowed: set<nat>,
                                target: int, sparse: (nat, nat) -> seq<nat>)
    requires PathVia(es, walk, via, allowed)
    requires forall e :: 0 <= e < |es| ==> es[e].v1 != es[e].v2
    requires SparseRange(sparse)
    requires |walk| <= target && (walk == [] ==> target == 0)
    ensures Destutter(Expanded(walk, target, sparse)) == walk
  {
    ExpandedDestutter(walk, target, sparse);
    WalkNoStutter(es, walk, via, allowed);
    DestutterNoStutter(walk);
  }

  /** The two vertex lists have a vertex in common. */
  predicate Shares(a: seq<nat>, b: seq<nat>) {
    exists x :: x in a && x in b
  }

  /** Some vertex occurs twice in the list. */
  predicate HasRepeat(a: seq<nat>) {
    exists i, j :: 0 <= i < j < |a| && a[i] == a[j]
  }

  /** Tags every vertex of `s`. */
  method TagVerts(tags: set<nat>, s: seq<nat>) returns (r: set<nat>)
    ensures r == tags + Elems(s)
  {
    r := tags;
    var i := 0;
    while i < |s|
      invariant 0 <= i <= |s|
      invariant r == tags + Elems(s[..i])
    {
      assert Elems(s[..i + 1]) == Elems(s[..i]) + {s[i]};
      r := r + {s[i]};
      i := i + 1;
    }
    assert s[..i] == s;
  }

  /** Clears the tag of every vertex of `s`. */
  method UntagVerts(tags: set<nat>, s: seq<nat>) returns (r: set<nat>)
    ensures r == tags - Elems(s)
  {
    r := tags;
    var i := 0;
    while i < |s|
      invariant 0 <= i <= |s|
      invariant r == tags - Elems(s[..i])
    {
      assert Elems(s[..i + 1]) == Elems(s[..i]) + {s[i]};
      r := r - {s[i]};
      i := i + 1;
    }
    assert s[..i] == s;
  }

  /**
   * The scan of `BM_edgeloop_overlap_check` over the smaller loop `a`, as
   * written: the tag of each vertex is cleared as it is visited, so a vertex
   * that comes back later in `a` also reads as shared.
   */
  method OverlapScan(tags0: set<nat>, a: seq<nat>, b: seq<nat>) returns (overlap: bool, tags: set<nat>)
    ensures overlap <==> Shares(a, b) || HasRepeat(a)
    ensures tags == tags0 - Elems(a) - Elems(b)
  {
    tags := TagVerts(tags0, a);
    tags := UntagVerts(tags, b);
    var i := 0;
    while i < |a|
      invariant 0 <= i <= |a|
      invariant tags == tags0 + Elems(a) - Elems(b) - Elems(a[..i])
      invariant forall k :: 0 <= k < i ==> a[k] !in b && a[k] !in a[..k]
    {
      if a[i] !in tags {
        if a[i] in b {
          assert a[i] in a && a[i] in b;
        } else {
          var j :| 0 <= j < i && a[j] == a[i];
        }
        assert Elems(a) == Elems(a[..i]) + {a[i]} + Elems(a[i + 1..]) by {
          assert a == a[..i] + [a[i]] + a[i + 1..];
        }
        tags := UntagVerts(tags, a[i + 1..]);
        overlap := true;
        return;
      }
      assert Elems(a[..i + 1]) == Elems(a[..i]) + {a[i]};
      assert a[..i + 1][..i] == a[..i];
      tags := tags - {a[i]};
      i := i + 1;
    }
    assert a[..i] == a;
    overlap := false;
    assert !HasRepeat(a) by {
      forall i, j | 0 <= i < j < |a| ensures a[i] != a[j] {
        assert a[i] in a[..j];
      }
    }
  }

  /**
   * `BM_edgeloop_overlap_check`, as written: scans the shorter loop (the
   * first on a tie) against the other and leaves the vertices of both untagged.
   */
  method OverlapCheck(mesh: BMesh, storeA: EdgeLoopStore, storeB: EdgeLoopStore) returns (overlap: bool)
    requires mesh.Valid()
    modifies mesh`vertTag
    ensures mesh.Valid()
    ensures overlap <==>
      if storeA.len > storeB.len then Shares(storeB.verts, storeA.verts) || HasRepeat(storeB.verts)
      else Shares(storeA.verts, storeB.verts) || HasRepeat(storeA.verts)
    ensures mesh.vertTag == old(mesh.vertTag) - Elems(storeA.verts) - Elems(storeB.verts)
  {
    var small, big := storeA.verts, storeB.verts;
    if storeA.len > storeB.len {
      small, big := big, small;
    }
    var tags;
    overlap, tags := OverlapScan(mesh.vertTag, small, big);
    mesh.vertTag := tags;
  }

  /** The repeated vertex the scan as written reports as shared: `[0, 0]` against `[1, 2]`. */
  lemma {:induction false} OverlapScanRepeatCounterexample()
    ensures !Shares([0, 0], [1, 2]) && HasRepeat([0, 0])
  {
    var a: seq<nat> := [0, 0];
    assert a[0] == a[1];
  }

  /**
   * The overlap test as evidently intended: every vertex of `a` is tested
   * against the tags before any tag of `a` is cleared.
   */
  method OverlapScanCorrected(tags0: set<nat>, a: seq<nat>, b: seq<nat>) returns (overlap: bool, tags: set<nat>)
    ensures overlap <==> Shares(a, b)
    ensures tags == tags0 - Elems(a) - Elems(b)
  {
    tags := TagVerts(tags0, a);
    tags := UntagVerts(tags, b);
    overlap := false;
    var i := 0;
    while i < |a| && !overlap
      invariant 0 <= i <= |a|
      invariant tags == tags0 + Elems(a) - Elems(b)
      invariant !overlap ==> forall k :: 0 <= k < i ==> a[k] !in b
      invariant overlap ==> Shares(a, b)
    {
      assert a[i] in Elems(a);
      if a[i] !in tags {
        assert a[i] in a && a[i] in b;
        overlap := true;
      }
      i := i + 1;
    }
    tags := UntagVerts(tags, a);
  }

  /** `BM_edgeloop_overlap_check` corrected: true exactly when the loops share a vertex. */
  method OverlapCheckCorrected(mesh: BMesh, storeA: EdgeLoopStore, storeB: EdgeLoopStore) returns (overlap: bool)
    requires mesh.Valid()
    modifies mesh`vertTag
    ensures mesh.Valid()
    ensures overlap <==> Shares(storeA.verts, storeB.verts)
    ensures mesh.vertTag == old(mesh.vertTag) - Elems(storeA.verts) - Elems(storeB.verts)
  {
    var small, big := storeA.verts, storeB.verts;
    if storeA.len > storeB.len {
      small, big := big, small;
    }
    var tags;
    overlap, tags := OverlapScanCorrected(mesh.vertTag, small, big);
    mesh.vertTag := tags;
  }
}
