# Blender core pieces in Dafny

This project models six self-contained pieces of Blender's C++ sources and proves
properties of them:

- **BMesh edge loops** (`bmesh_graph.dfy`, `bmesh_edgeloop.dfy`,
  `bmesh_edgeloop_path.dfy`, `bmesh_edgeloop_store.dfy`). A mesh is modelled by
  the parts the edge-loop code sees: numbered vertices, edges as vertex pairs,
  the internal tag of every vertex and edge, and each vertex's integer index
  and edge pointer `v->e`. It covers:
  - walking chains of tagged edges into loop stores (`bm_loop_build`,
    `BM_mesh_edgeloops_find`);
  - the two-sided breadth-first search for a path between two vertices
    (`vs_add`, `bm_loop_path_build_step`, `BM_mesh_edgeloops_find_path`);
  - the operations on one stored loop: copy, from-array, closed test, length,
    edges, flip, the non-splitting expand and the overlap test.

  Every walk `bm_loop_build` takes is proved equal to a reference walk
  (`ChainFrom`) fixed by the tags on entry. The walks are proved to follow
  tagged mesh edges (`PathVia`), so the vertices, length, closedness and success
  of each loop, and which loops are kept, follow from the mesh and the test.
  The tag sets are proved clean on return. The path search reports success
  exactly when some walk along the allowed edges joins the two vertices.
- **Offset indices** (`offset_indices.dfy`): `OffsetIndices` and `GroupedSpan`
  over a sorted offsets sequence. It also covers the documented contracts of
  `accumulate_counts_to_offsets`, `fill_constant_group_size` and
  `build_reverse_map`.
- **Draw resource handles** (`draw_handle.dfy`): a 31-bit resource index and a
  handedness bit packed in one `bv32`, handle ranges, and `ObjectRef::is_dupli`.
- **Depsgraph operation node** (`deg_node_operation.dfy`): the `OperationFlag`
  bitmask algebra and the operation-node record: the no-op test,
  entry and exit operations, the pending in-link counter and the scheduled flag.
- **Freestyle polygon** (`polygon.dfy`): the constructors, `setVertices`,
  `setId`/`getId`, `setNormal`/`getNormal` and the per-dimension min/max scan of
  `computeBBox`, proved to compute the bounding box.
- **Palette RNA accessors** (`palette.dfy`): the active colour and its list
  index, and the editability guards and membership check of `new`, `remove` and
  `clear`.

Code that updates state in place is modelled as classes with `modifies`
clauses: mesh tags, loop stores, operation nodes, polygons and palettes. The
pure accessors are functions over datatypes. The longer loops of the edge-loop
code run over local copies of the fields, in small value-level methods. Each
such method is proved against a specification function. The calling method
writes the result back to the object.

## Model

| member | source | states |
|---|---|---|
| BMeshGraph.OtherTaggedSound | source/blender/bmesh/intern/bmesh_edgeloop.cc:39-58 | every edge `bm_vert_other_tag` counts is tagged, touches `v` and does not lead back to `v_prev`; they come in iteration order |
| BMeshGraph.OtherTaggedComplete | source/blender/bmesh/intern/bmesh_edgeloop.cc:39-58 | every tagged edge of `v` that does not lead to `v_prev` is counted |
| BMeshGraph.EdgeBetween | source/blender/bmesh/intern/bmesh_edgeloop.cc:556-563 | `BM_edge_exists`: -1 exactly when no edge joins the two vertices, otherwise the first edge that does |
| BMeshGraph.WalkEdgesExist | source/blender/bmesh/intern/bmesh_edgeloop.cc:556-559 | consecutive vertices of a loop walked along edges always have an edge between them |
| BMeshGraph.ReversedInvolution | source/blender/bmesh/intern/bmesh_edgeloop.cc:671-675 | reversing a vertex list twice restores it, so flipping a loop twice restores its order |
| BMeshEdgeLoop.VertOtherTag | source/blender/bmesh/intern/bmesh_edgeloop.cc:39-58 | returns how many other tagged edges `v` has, and the last of them or -1 when there are none |
| BMeshEdgeLoop.ChainFromOne | source/blender/bmesh/intern/bmesh_edgeloop.cc:84-92 | with exactly one other tagged edge, the walk follows it: it closes when that edge leads back to the start, and otherwise goes on from the edge's other end without that edge |
| BMeshEdgeLoop.ChainFromStop | source/blender/bmesh/intern/bmesh_edgeloop.cc:93-101 | with no other tagged edge the walk stops open at `w`, with two or more it fails there |
| BMeshEdgeLoop.ChainFromSound | source/blender/bmesh/intern/bmesh_edgeloop.cc:76-104 | the reference walk starts at `v` and follows tagged edges, each once; a closed walk ends next to `v` over a further tagged edge; a failed walk ends where two or more other tagged edges are left; an open walk ends where none is left |
| BMeshEdgeLoop.ChainStep | source/blender/bmesh/intern/bmesh_edgeloop.cc:84-101 | one vertex of the walk: it stops exactly where the reference walk ends, with the same result and closing edge; otherwise it takes the tagged edge the reference walk takes next |
| BMeshEdgeLoop.WalkChain | source/blender/bmesh/intern/bmesh_edgeloop.cc:76-104 | the vertices, edges, result, closedness and closing edge are exactly those of the reference walk `ChainFrom` over the tags on entry; the store gains the walk at the head or tail by `dir`, and `len` grows by its length; walked vertices, walked edges and the closing edge are untagged; the closed flag is set exactly when the walk closed |
| BMeshEdgeLoop.LoopBuild | source/blender/bmesh/intern/bmesh_edgeloop.cc:63-107 | an untagged start adds nothing and succeeds; from a tagged one the walk is exactly `ChainFrom` on the mesh's tags, with the tags it leaves and the reasons it stopped spelled out (`Walked`); the store gains that walk on the side `dir` names, `len` grows by its length, and the closed flag is added exactly when it closed |
| BMeshEdgeLoop.TestedEdgesSound | source/blender/bmesh/intern/bmesh_edgeloop.cc:122-141 | the collected edge array holds only edges passing the test, in mesh order |
| BMeshEdgeLoop.TestedEdgesComplete | source/blender/bmesh/intern/bmesh_edgeloop.cc:122-141 | every edge passing the test is in the collected array |
| BMeshEdgeLoop.EndsIff | source/blender/bmesh/intern/bmesh_edgeloop.cc:127-129 | a vertex is among the ends of the collected edges exactly when some collected edge has it as `v1` or `v2` |
| BMeshEdgeLoop.EdgeLoopStore.IsClosed | source/blender/bmesh/intern/bmesh_edgeloop.cc:522-525 | true exactly when the closed flag is set |
| BMeshEdgeLoop.EdgeLoopStore.LengthGet | source/blender/bmesh/intern/bmesh_edgeloop.cc:532-535 | for a valid store, the number of its vertices |
| BMeshEdgeLoop.BothWays | source/blender/bmesh/intern/bmesh_edgeloop.cc:148-150 | the walk from `v2` reversed, then edge `e`, then the walk from `v1` is one walk along the tagged edges |
| BMeshEdgeLoop.ClearVertTags | source/blender/bmesh/intern/bmesh_edgeloop.cc:119-121 | afterwards no vertex is tagged |
| BMeshEdgeLoop.TagTested | source/blender/bmesh/intern/bmesh_edgeloop.cc:123-141 | tags exactly the tested edges, collects them in mesh order, and the tagged vertices are exactly their ends |
| BMeshEdgeLoop.BuildLoops | source/blender/bmesh/intern/bmesh_edgeloop.cc:143-159 | the collected edges are attempted in order, each from the tags the previous attempt left, and each attempt is fixed by those tags; the stores returned are, in order, exactly those of the kept attempts, each with `len > 1`, the vertices and flag its attempt built, and a walk along tested edges; the count is their number |
| BMeshEdgeLoop.LoopFromEdge | source/blender/bmesh/intern/bmesh_edgeloop.cc:144-157 | one still-tagged edge gives a fresh store; both walks are the reference walks on the tags each starts from, so the attempt is determined by the tags; the store holds the walk from `v2` reversed followed by the walk from `v1`, the second walk made only when the first succeeds; it is closed exactly when either walk closed; it is kept exactly when both walks succeed and it holds more than one vertex, and then it walks along tested edges |
| BMeshEdgeLoop.TryEdge | source/blender/bmesh/intern/bmesh_edgeloop.cc:144-157 | an edge that is no longer tagged changes no tag and keeps nothing; a tagged one is the `LoopFromEdge` attempt, with both walks fixed by the tags; a store is returned exactly when it is kept |
| BMeshEdgeLoop.AttemptNext | source/blender/bmesh/intern/bmesh_edgeloop.cc:143-158 | one pass of the third phase's loop adds one more attempt, made from the tags the attempts before it left; the kept list grows by that attempt exactly when it is kept |
| BMeshEdgeLoop.AttemptedClosed | source/blender/bmesh/intern/bmesh_edgeloop.cc:144-150 | a kept store has more than one vertex; when the first walk closed, its closing edge was tagged and joins the store's first vertex to the edge's `v2` |
| BMeshEdgeLoop.ClearTested | source/blender/bmesh/intern/bmesh_edgeloop.cc:161-166 | no edge and no vertex is left tagged |
| BMeshEdgeLoop.Find | source/blender/bmesh/intern/bmesh_edgeloop.cc:109-170 | the tagging leaves exactly the tested edges and their ends tagged; the attempts over the tested edges in mesh order are each fixed by the tags they start from; the stores returned are exactly those of the kept attempts, each fresh with `len > 1`, `len` equal to its vertex count, the vertices and flag its attempt built, and a walk along edges passing the test; the count is their number; no tag is left |
| BMeshEdgeLoopPath.ChainReach | source/blender/bmesh/intern/bmesh_edgeloop.cc:220-228 | stepping to an unreached neighbour keeps every reached vertex linked back along allowed edges to its side's start, one step nearer per index |
| BMeshEdgeLoopPath.VertStepAdd | source/blender/bmesh/intern/bmesh_edgeloop.cc:184-200 | `vs_add`: appends the vertex to the front list and records its step index and back edge |
| BMeshEdgeLoopPath.SettledReach | source/blender/bmesh/intern/bmesh_edgeloop.cc:220-228 | untagging an edge to an unreached vertex, which then joins the side it was reached from, keeps every untagged allowed edge between two vertices of one side |
| BMeshEdgeLoopPath.SettledSame | source/blender/bmesh/intern/bmesh_edgeloop.cc:230-232 | untagging an edge between two vertices of the same side keeps every untagged allowed edge between two vertices of one side |
| BMeshEdgeLoopPath.SpentStep | source/blender/bmesh/intern/bmesh_edgeloop.cc:202-259 | a round without a match that left its front with no tagged edge, and put every newly reached vertex into its next front, leaves every reached vertex of either side outside its front with no tagged edge |
| BMeshEdgeLoopPath.SideClosedAt | source/blender/bmesh/intern/bmesh_edgeloop.cc:318-337 | when a side has no tagged edge left at any vertex it reached, every allowed walk that starts on that side stays on it |
| BMeshEdgeLoopPath.NoWalkBetween | source/blender/bmesh/intern/bmesh_edgeloop.cc:318-337 | when either side has no tagged edge left and every untagged allowed edge joins two vertices of one side, no allowed walk joins `v_src` to `v_dst` |
| BMeshEdgeLoopPath.VisitEdges | source/blender/bmesh/intern/bmesh_edgeloop.cc:220-247 | keeps the back-link invariant; a match joins a source-side and a target-side vertex by an allowed edge; otherwise `v` has no tagged edge left, every newly reached vertex is in the next front, which has been reached from this side, and every untagged allowed edge still joins two vertices of one side |
| BMeshEdgeLoopPath.PathBuildStep | source/blender/bmesh/intern/bmesh_edgeloop.cc:202-259 | one search round: either a match, or the next front, with `more` exactly when it is non-empty; without a match every vertex of the old front has no tagged edge left, every newly reached vertex is in the next front and every untagged allowed edge joins two vertices of one side; every round that goes on untags at least one edge |
| BMeshEdgeLoopPath.Search | source/blender/bmesh/intern/bmesh_edgeloop.cc:318-337 | from the fronts primed with `v_src` and `v_dst`, alternates source and target rounds until a match or an empty front; a match is an allowed edge between a source-side and a target-side vertex; without a match one side has no tagged edge left at any vertex it reached, one front is empty, and no allowed walk joins `v_src` to `v_dst` |
| BMeshEdgeLoopPath.AddTowardSource | source/blender/bmesh/intern/bmesh_edgeloop.cc:345-356 | following back edges from the source-side match prepends a walk from `v_src` to it |
| BMeshEdgeLoopPath.AddTowardTarget | source/blender/bmesh/intern/bmesh_edgeloop.cc:358-368 | following back edges from the target-side match appends a walk from it to `v_dst` |
| BMeshEdgeLoopPath.ResetVerts | source/blender/bmesh/intern/bmesh_edgeloop.cc:274-281 | every vertex index becomes 0 and every vertex tag is cleared |
| BMeshEdgeLoopPath.TagAll | source/blender/bmesh/intern/bmesh_edgeloop.cc:305-316 | without a test every edge is tagged and collected in mesh order, and the tagged vertices are exactly their ends |
| BMeshEdgeLoopPath.PrepareTags | source/blender/bmesh/intern/bmesh_edgeloop.cc:274-316 | every vertex index is 0; the collected edges are those passing the test in mesh order (every edge without one); exactly they are tagged, and the tagged vertices are exactly their ends |
| BMeshEdgeLoopPath.InitialChain | source/blender/bmesh/intern/bmesh_edgeloop.cc:326-327 | priming `v_src` with index 1 and `v_dst` with -1 establishes the search invariant |
| BMeshEdgeLoopPath.BuildPath | source/blender/bmesh/intern/bmesh_edgeloop.cc:341-368 | the rebuilt loop is fresh, open, starts at `v_src`, ends at `v_dst` and walks along allowed edges |
| BMeshEdgeLoopPath.SearchAndBuild | source/blender/bmesh/intern/bmesh_edgeloop.cc:318-371 | primes both fronts and searches; it finds a loop exactly when some allowed walk joins `v_src` to `v_dst`, and then returns a fresh open store from `v_src` to `v_dst` along allowed edges, otherwise none; only edge tags are consumed |
| BMeshEdgeLoopPath.FindPath | source/blender/bmesh/intern/bmesh_edgeloop.cc:261-385 | needs `v_src != v_dst`; reports success exactly when it returns a loop, and exactly when some walk along edges passing the test (all edges without one) joins `v_src` to `v_dst`; that loop is open and runs from `v_src` to `v_dst` along such edges; no tag is left |
| BMeshLoopStore.Copy | source/blender/bmesh/intern/bmesh_edgeloop.cc:490-497 | a fresh store with the same vertices, flags and length |
| BMeshLoopStore.FromVerts | source/blender/bmesh/intern/bmesh_edgeloop.cc:499-514 | stores the array prefix in order; `len` is the count; closed exactly when asked; no other flag set |
| BMeshLoopStore.EdgesGet | source/blender/bmesh/intern/bmesh_edgeloop.cc:550-566 | the edges between consecutive vertices, then for a closed loop the edge between the first and last vertex |
| BMeshLoopStore.EdgeBetweenSymmetric | source/blender/bmesh/intern/bmesh_edgeloop.cc:562 | looking up the edge between two vertices does not depend on their order |
| BMeshLoopStore.WalkLoopEdges | source/blender/bmesh/intern/bmesh_edgeloop.cc:550-566 | for a loop walked along edges, `len - 1` edges are written for an open loop and `len` for a closed one; each joins its two vertices and none is missing |
| BMeshLoopStore.Flip | source/blender/bmesh/intern/bmesh_edgeloop.cc:671-675 | the vertex list is reversed; flags and length stay |
| BMeshLoopStore.FlipReversesEdges | source/blender/bmesh/intern/bmesh_edgeloop.cc:671-675 | a flipped loop's edges are the original edges in reverse order, with the same closing edge |
| BMeshLoopStore.Spread | source/blender/bmesh/intern/bmesh_edgeloop.cc:704-707 | inserting one copy after each picked node grows the list by the number of picks |
| BMeshLoopStore.Expanded | source/blender/bmesh/intern/bmesh_edgeloop.cc:700-765 | doubling while below half the target, then topping up at sparse positions, reaches exactly the target length |
| BMeshLoopStore.DoublePass | source/blender/bmesh/intern/bmesh_edgeloop.cc:700-707 | each node is followed by its copy |
| BMeshLoopStore.SparsePass | source/blender/bmesh/intern/bmesh_edgeloop.cc:727-742 | walking forward to each picked position and copying the node there inserts the copies after exactly the picked nodes |
| BMeshLoopStore.Expand | source/blender/bmesh/intern/bmesh_edgeloop.cc:677-766 | without splitting, `len` ends at `el_store_len` (the closing assertion) and the vertex list is the expanded one; flags stay |
| BMeshLoopStore.SpreadDestutter | source/blender/bmesh/intern/bmesh_edgeloop.cc:704-707 | each inserted node duplicates the node before it: collapsing runs of equal neighbours gives the same list as before |
| BMeshLoopStore.ExpandedDestutter | source/blender/bmesh/intern/bmesh_edgeloop.cc:700-765 | the whole expansion only repeats nodes in place |
| BMeshLoopStore.ExpandedCollapsesToWalk | source/blender/bmesh/intern/bmesh_edgeloop.cc:677-766 | an expanded loop, walked along mesh edges, collapses back to the original loop |
| BMeshLoopStore.TagVerts | source/blender/bmesh/intern/bmesh_edgeloop.cc:776-778 | tags every vertex of the list |
| BMeshLoopStore.UntagVerts | source/blender/bmesh/intern/bmesh_edgeloop.cc:779-781 | untags every vertex of the list |
| BMeshLoopStore.OverlapScan | source/blender/bmesh/intern/bmesh_edgeloop.cc:775-794 | as written: true exactly when the loops share a vertex or the scanned loop repeats one; all vertices of both loops end untagged |
| BMeshLoopStore.OverlapCheck | source/blender/bmesh/intern/bmesh_edgeloop.cc:768-795 | as written, scanning the shorter loop (the first on a tie): the result `OverlapScan` states for it; every vertex of both loops ends untagged, other tags stay |
| BMeshLoopStore.OverlapScanRepeatCounterexample | source/blender/bmesh/intern/bmesh_edgeloop.cc:783-792 | `[0, 0]` against `[1, 2]` share no vertex, yet the scan as written reports an overlap |
| BMeshLoopStore.OverlapScanCorrected | source/blender/bmesh/intern/bmesh_edgeloop.cc:775-794 | corrected: true exactly when the loops share a vertex; all vertices of both loops end untagged |
| BMeshLoopStore.OverlapCheckCorrected | source/blender/bmesh/intern/bmesh_edgeloop.cc:768-795 | corrected: true exactly when the two loops share a vertex, whichever is shorter; every vertex of both ends untagged |
| OffsetIndices.FromBeginEnd | source/blender/blenlib/BLI_offset_indices.hh:83-85 | the range starts at `begin`, ends at `end` and contains exactly the indices between them |
| OffsetIndices.OffsetIndices.TotalSize | source/blender/blenlib/BLI_offset_indices.hh:55-58 | 0 with fewer than two offsets; for sorted offsets non-negative and the sum of the group sizes |
| OffsetIndices.OffsetIndices.Size | source/blender/blenlib/BLI_offset_indices.hh:64-67 | one less than the number of offsets, 0 when there are none |
| OffsetIndices.OffsetIndices.IsEmpty | source/blender/blenlib/BLI_offset_indices.hh:69-72 | empty exactly when there is at most one offset |
| OffsetIndices.OffsetIndices.Group | source/blender/blenlib/BLI_offset_indices.hh:79-86 | for `0 <= i < |offsets| - 1`, the range `[offsets[i], offsets[i+1])` |
| OffsetIndices.DiffsAt | source/blender/blenlib/BLI_offset_indices.hh:79-86 | the size of group `i` is `offsets[i+1] - offsets[i]` |
| OffsetIndices.OffsetIndices.Groups | source/blender/blenlib/BLI_offset_indices.hh:88-93 | the range from `offsets[start]` to `offsets[one_after_last]`, whose size is the sum of the groups it spans |
| OffsetIndices.OffsetIndices.Slice | source/blender/blenlib/BLI_offset_indices.hh:100-104 | has `range.size` groups, stays sorted, its group `j` is group `range.start + j`, and its total size is that of the spanned groups |
| OffsetIndices.TelescopingSum | source/blender/blenlib/BLI_offset_indices.hh:55-58 | the group sizes add up to `last - first` |
| OffsetIndices.GroupSizesNonNegative | source/blender/blenlib/BLI_offset_indices.hh:42-45 | with sorted offsets no group has negative size |
| OffsetIndices.GroupOfIndex | source/blender/blenlib/BLI_offset_indices.hh:79-86 | every element index covered by the offsets lies in exactly one group |
| OffsetIndices.GroupedSpan.Get | source/blender/blenlib/BLI_offset_indices.hh:130-133 | group `i` is the data slice over `offsets[i]`, element by element |
| OffsetIndices.GetIsSlice | source/blender/blenlib/BLI_offset_indices.hh:130-133 | for valid spans, group `i` is exactly `data[offsets[i]..offsets[i+1]]`, and both offsets lie inside the data |
| OffsetIndices.GroupedSpan.Size | source/blender/blenlib/BLI_offset_indices.hh:135-138 | the number of groups of the offsets |
| OffsetIndices.AllGroups | source/blender/blenlib/BLI_offset_indices.hh:130-138 | one entry per group, each the group's data slice |
| OffsetIndices.GroupsPrefix | source/blender/blenlib/BLI_offset_indices.hh:125-133 | the first `n` groups concatenated are the data up to `offsets[n]` |
| OffsetIndices.GroupsPartitionData | source/blender/blenlib/BLI_offset_indices.hh:125-133 | the groups concatenated are exactly the data |
| OffsetIndices.IsEmptyIffAllGroupsEmpty | source/blender/blenlib/BLI_offset_indices.hh:145-148 | `is_empty` (no data) holds exactly when every group is empty |
| OffsetIndices.GroupedSpan.IsEmpty | source/blender/blenlib/BLI_offset_indices.hh:145-148 | true exactly when there is no data |
| OffsetIndices.ConstructorCheckAdmitsOutOfRangeGroup | source/blender/blenlib/BLI_offset_indices.hh:125-128 | the constructor's assertion admits offsets `[1, 2]` over one element, whose group 0 reaches past the data |
| OffsetIndices.Accumulate | source/blender/blenlib/BLI_offset_indices.hh:151-155 | one more offset than counts, starting at `start_offset` and ending at `start_offset` plus the sum of the counts |
| OffsetIndices.AccumulateAt | source/blender/blenlib/BLI_offset_indices.hh:151-155 | offset `k` is `start_offset` plus the sum of the first `k` counts |
| OffsetIndices.AccumulateDiffs | source/blender/blenlib/BLI_offset_indices.hh:151-155 | consecutive differences of the offsets give back the counts |
| OffsetIndices.AccumulateSorted | source/blender/blenlib/BLI_offset_indices.hh:151-155 | non-negative counts give sorted offsets whose total size is the sum of the counts |
| OffsetIndices.AccumulateCountsToOffsets | source/blender/blenlib/BLI_offset_indices.hh:151-155 | the array's counts are replaced in place by their accumulated offsets, which are returned |
| OffsetIndices.FillConstantGroupSize | source/blender/blenlib/BLI_offset_indices.hh:160-161 | offset `i` is `start + i * size`, so every group has size `size` |
| OffsetIndices.BuildReverseMap | source/blender/blenlib/BLI_offset_indices.hh:186-190 | every index of group `i` maps to `i`; indices outside all groups are left as they were |
| DrawHandle.ResourceHandle.HasInvertedHandedness | source/blender/draw/intern/draw_handle.hh:43-46 | true exactly when the raw word is at least 2^31, its top bit |
| DrawHandle.ResourceHandle.ResourceIndex | source/blender/draw/intern/draw_handle.hh:48-51 | always below 2^31, with the handedness bit clear |
| DrawHandle.MakeHandle | source/blender/draw/intern/draw_handle.hh:37-41 | the handedness is the one asked for; the index is the low 31 bits of the one given |
| DrawHandle.MakeHandleKeepsIndex | source/blender/draw/intern/draw_handle.hh:37-51 | an index below 2^31 is returned unchanged by `resource_index` |
| DrawHandle.SetBitRestoresRaw | source/blender/draw/intern/draw_handle.hh:37-51 | index bits plus the set bit rebuild a raw value with the bit set |
| DrawHandle.ClearBitRestoresRaw | source/blender/draw/intern/draw_handle.hh:37-51 | index bits with the bit cleared rebuild a raw value with the bit clear |
| DrawHandle.RebuildFromParts | source/blender/draw/intern/draw_handle.hh:35-51 | building from `resource_index()` and `has_inverted_handedness()` gives the same handle |
| DrawHandle.HandleDeterminedByParts | source/blender/draw/intern/draw_handle.hh:43-51 | two handles are equal exactly when index and handedness agree |
| DrawHandle.InvertedSortLast | source/blender/draw/intern/draw_handle.hh:30-46 | every inverted handle's raw value exceeds every non-inverted one |
| DrawHandle.InvertedRawIsIndexPlusBit | source/blender/draw/intern/draw_handle.hh:43-51 | an inverted handle's raw value is its index plus 2^31 |
| DrawHandle.PlainRawIsIndex | source/blender/draw/intern/draw_handle.hh:43-51 | a non-inverted handle's raw value is its index |
| DrawHandle.ResourceHandleRange.IndexRange | source/blender/draw/intern/draw_handle.hh:67-70 | starts at `handle_first.raw` and has `count` elements |
| DrawHandle.ResourceHandleRange.AsHandle | source/blender/draw/intern/draw_handle.hh:74-77 | converts to `handle_first` |
| DrawHandle.SingleRange | source/blender/draw/intern/draw_handle.hh:64 | a range of the one handle with count 1 |
| DrawHandle.MakeRange | source/blender/draw/intern/draw_handle.hh:65 | a range from the handle with count `len` |
| DrawHandle.ObjectRef.IsDupli | source/blender/draw/intern/draw_handle.hh:95-98 | true exactly when `dupli_object` is set |
| DepsgraphOperation.FlagsAreDistinctBits | source/blender/depsgraph/intern/node/deg_node_operation.hh:220-239 | the six operation flags are distinct single bits |
| DepsgraphOperation.FlushWithinClearOnEval | source/blender/depsgraph/intern/node/deg_node_operation.hh:241-246 | FLUSH is exactly USER_MODIFIED and lies within CLEAR_ON_EVAL, which excludes PINNED, AFFECTS_VISIBILITY and MUTE |
| DepsgraphOperation.ClearedOnEval | source/blender/depsgraph/intern/node/deg_node_operation.hh:244-246 | clearing unsets NEEDS_UPDATE, DIRECTLY_MODIFIED and USER_MODIFIED, keeps PINNED, AFFECTS_VISIBILITY and MUTE, and touches nothing else |
| DepsgraphOperation.ClearedOnEvalIdempotent | source/blender/depsgraph/intern/node/deg_node_operation.hh:244-246 | clearing twice is clearing once, and leaves nothing to flush |
| DepsgraphOperation.OperationNode.constructor | source/blender/depsgraph/intern/node/deg_node_operation.hh:252-295 | a new node has the given owner, opcode, name tag and callback, no flags, nothing pending and is not scheduled (the initial values are assumed; see Left out) |
| DepsgraphOperation.OperationNode.IsNoop | source/blender/depsgraph/intern/node/deg_node_operation.hh:262-265 | true exactly when no evaluation callback is set |
| DepsgraphOperation.OperationNode.GetEntryOperation | source/blender/depsgraph/intern/node/deg_node_operation.hh:267-270 | the node itself |
| DepsgraphOperation.OperationNode.GetExitOperation | source/blender/depsgraph/intern/node/deg_node_operation.hh:271-274 | the node itself, the same as its entry operation |
| DepsgraphOperation.OperationNode.ResetPending | source/blender/depsgraph/intern/node/deg_node_operation.hh:286-288 | the counter is the number of in-links to await; ready exactly when there are none |
| DepsgraphOperation.OperationNode.InLinkSatisfied | source/blender/depsgraph/intern/node/deg_node_operation.hh:286-288 | one satisfied in-link lowers the counter by one; ready exactly when none is awaited |
| DepsgraphOperation.OperationNode.TrySchedule | source/blender/depsgraph/intern/node/deg_node_operation.hh:286-288 | dispatches exactly when ready and not yet scheduled, and then marks it scheduled |
| DepsgraphOperation.OperationNode.ReadyToEvaluate | source/blender/depsgraph/intern/node/deg_node_operation.hh:285-286 | for a valid node, ready exactly when no in-link is still awaited |
| DepsgraphOperation.OperationNode.MayBeRemoved | source/blender/depsgraph/intern/node/deg_node_operation.hh:230-233 | the reading of the PINNED comment: a PINNED node is never removable; a removable node is a no-op without outgoing relations; a non-PINNED no-op without outgoing relations is removable |
| DepsgraphOperation.OperationNode.ClearFlagsOnEval | source/blender/depsgraph/intern/node/deg_node_operation.hh:230-246 | the flags become their clear-on-eval image; whether the node may be removed does not change, so a PINNED node stays unremovable after evaluation |
| FreestylePolygon.MinCoordIsLeast | source/blender/freestyle/intern/geometry/Polygon.h:130-141 | the running minimum is at most every coordinate seen and equals one of them |
| FreestylePolygon.MaxCoordIsGreatest | source/blender/freestyle/intern/geometry/Polygon.h:130-141 | the running maximum is at least every coordinate seen and equals one of them |
| FreestylePolygon.BBoxBounds | source/blender/freestyle/intern/geometry/Polygon.h:124-143 | in every dimension the box bounds every vertex, and each bound is some vertex's coordinate |
| FreestylePolygon.ScanBox | source/blender/freestyle/intern/geometry/Polygon.h:130-142 | the nested scan over vertices and dimensions yields the bounding box |
| FreestylePolygon.Polygon.Empty | source/blender/freestyle/intern/geometry/Polygon.h:27-32 | no vertices, id 0, no user data |
| FreestylePolygon.Polygon.FromVertices | source/blender/freestyle/intern/geometry/Polygon.h:34-41 | stores the vertices, computes the box, id 0, no user data |
| FreestylePolygon.Polygon.Copy | source/blender/freestyle/intern/geometry/Polygon.h:43-58 | copies vertices, id and box; user data reset to null |
| FreestylePolygon.Polygon.GetBBox | source/blender/freestyle/intern/geometry/Polygon.h:71-75 | the stored box, which bounds every vertex |
| FreestylePolygon.Polygon.GetId | source/blender/freestyle/intern/geometry/Polygon.h:94-97 | the stored id |
| FreestylePolygon.Polygon.SetId | source/blender/freestyle/intern/geometry/Polygon.h:115-118 | `getId` then returns the new id |
| FreestylePolygon.Polygon.ComputeBBox | source/blender/freestyle/intern/geometry/Polygon.h:124-143 | the box becomes the bounding box; an empty vertex list leaves it unchanged |
| FreestylePolygon.Polygon.SetVertices | source/blender/freestyle/intern/geometry/Polygon.h:103-113 | the vertices become the input in order and the box is recomputed |
| FreestylePolygon.Polygon3r.Empty | source/blender/freestyle/intern/geometry/Polygon.h:164 | an empty 3D polygon |
| FreestylePolygon.Polygon3r.FromVertices | source/blender/freestyle/intern/geometry/Polygon.h:166-169 | stores the vertices and the normal |
| FreestylePolygon.Polygon3r.Copy | source/blender/freestyle/intern/geometry/Polygon.h:171 | copies the polygon and the normal |
| FreestylePolygon.Polygon3r.GetNormal | source/blender/freestyle/intern/geometry/Polygon.h:180-183 | the stored normal |
| FreestylePolygon.Polygon3r.SetNormal | source/blender/freestyle/intern/geometry/Polygon.h:175-183 | `getNormal` then returns the new normal |
| RnaPalette.FindIndex | source/blender/makesrna/intern/rna_palette.cc:88-90 | `BLI_findindex`: -1 exactly when the colour is absent, otherwise the position of its first occurrence |
| RnaPalette.ColorAt | source/blender/makesrna/intern/rna_palette.cc:68 | `BLI_findlink`: null exactly when the index names no element |
| RnaPalette.FindIndexThenColorAt | source/blender/makesrna/intern/rna_palette.cc:63-90 | looking up the found index gives the colour back |
| RnaPalette.ColorAtThenFindIndex | source/blender/makesrna/intern/rna_palette.cc:63-90 | finding the colour at a valid index gives the index back; -1 names no colour |
| RnaPalette.RemoveAt | source/blender/makesrna/intern/rna_palette.cc:49 | removal drops exactly the element at the index |
| RnaPalette.RemoveAtRemoves | source/blender/makesrna/intern/rna_palette.cc:49 | removing a present colour removes it and keeps every other colour |
| RnaPalette.Palette.ColorNew | source/blender/makesrna/intern/rna_palette.cc:25-33 | null and no change on a non-editable or override palette; otherwise a fresh colour appended |
| RnaPalette.Palette.ColorRemove | source/blender/makesrna/intern/rna_palette.cc:35-52 | no change when not editable; an absent colour reports an error and changes nothing; a present one is removed |
| RnaPalette.Palette.ColorClear | source/blender/makesrna/intern/rna_palette.cc:54-61 | empties the list unless the guard refuses |
| RnaPalette.Palette.ActiveColorGet | source/blender/makesrna/intern/rna_palette.cc:63-75 | the colour at `active_color`, or null when that index names none |
| RnaPalette.Palette.ActiveColorSet | source/blender/makesrna/intern/rna_palette.cc:77-91 | null stores -1; a colour stores its position, or -1 when absent |
| RnaPalette.GetThenSetKeepsIndex | source/blender/makesrna/intern/rna_palette.cc:63-90 | setting the active colour to the one just got keeps the index |

## Left out

- Mesh edges around a vertex (its disk cycle) are visited in ascending edge number. The real order depends on how the mesh was built. `bm_vert_other_tag`'s choice among several edges, `BM_edge_exists`'s choice and the search order follow from this.
- The `test_fn` callbacks and their user data are a function from edge number to `bool`. `find_path`'s null callback is `None`.
- Allocation is not modelled: `MEM_*`, `BLI_mempool`, `BLI_stack` and freeing of stores. Lists are sequences and new stores are fresh objects.
- `BLI_listbase_reverse` is a call into code that is not part of this model. `Flip` states its effect as a reversed sequence.
- Float numerics in the edge-loop code are not modelled: `calc_center`, `calc_normal`, `calc_normal_aligned`, `calc_order`, the stored centre and normal (and the normal's negation in flip), and `EDGELOOP_EPS`.
- The `split == true` branch of `BM_edgeloop_expand` is left out. It calls `BM_edge_split`, which is not part of this model.
- `BLI_FOREACH_SPARSE_RANGE` is not part of this model. `Expand` takes the positions it visits as a parameter and requires them to be in range and increasing.
- Expand: requires the target to be at least the current length, and a non-empty loop unless the target is 0. The closing assertion fails otherwise, and the doubling loop does not end on an empty loop.
- Expand: the list is rebuilt as a new sequence rather than by linking nodes in place. Node identity and aliasing are not modelled.
- The mesh's `elem_index_dirty` flag, which `BM_mesh_edgeloops_find_path` sets for vertices when it rewrites their indices, is not modelled. It only records that the indices need recomputing.
- FindPath: the vertex indices and edge pointers it writes are left as the search left them, as in the source. Its contract does not describe their final values.
- Find: the reject branch's freeing of a failed store is not modelled. The store is simply not returned.
- `BM_edgeloop_free`, `verts_get`, `normal_get` and `center_get` are accessors with no logic beyond the fields. They are not modelled separately.
- The edge-loop store's `len` is an unbounded integer. The source's `int` overflow is not modelled.
- OffsetIndices: `T` is modelled as unbounded `int` and sizes as `nat`. `int64_t` overflow is not modelled.
- The `IndexMask`-based functions of `BLI_offset_indices.hh` and `build_reverse_offsets` are not modelled: their bodies and `IndexMask` are not part of this model.
- The bodies of `accumulate_counts_to_offsets`, `fill_constant_group_size` and `build_reverse_map` are not part of this model. Their methods implement the documented contracts.
- The `NoSortCheck` constructor of `OffsetIndices` is not modelled separately. It differs only in skipping the debug check.
- The draw handle's `uint` arguments are `bv32`. `ObjectRef`'s constructors are declarations only and are not modelled.
- Depsgraph: `tag_update`, `set_as_entry`/`set_as_exit`, identifiers and `operationCodeAsString` are not modelled: their bodies are not part of this model.
- OperationNode constructor: the body of `OperationNode()` is not part of this model. The initial values (no flags, nothing pending, not scheduled) are assumed, not taken from the source.
- Depsgraph: `MayBeRemoved` is the model's reading of the comment on PINNED. The clean-up pass that removes nodes is not part of this model.
- Depsgraph: the counter methods (`ResetPending`, `InLinkSatisfied`, `TrySchedule`) model only what the field comments state. Parallel dispatch and atomic updates are not modelled.
- Freestyle polygon: coordinates are `real`. `getCenter` and `getBBoxCenter` (float division) and `rayIntersect` (calls `GeomUtils::intersectRayTriangle`) are left out.
- Palette: `BKE_palette_color_add`/`_remove`/`BKE_palette_clear` are calls into code that is not part of this model. They are modelled as list append, removal and clearing. Any effect they have on `active_color` is not modelled: `ColorRemove` and `ColorClear` change only the colour list.
- Palette: RNA property registration (`rna_def_*`) and `PointerRNA` invalidation are left out.
- The other files in the source tree are out of scope: declarations only (`COM_node_operation.hh`, `viewport.h`), shader and texture node registration, a foreign C API, USD export and Python examples.

## Findings

| source | as written | input that shows it | evidently intended | confidence | as-written member | corrected member |
|---|---|---|---|---|---|---|
| source/blender/bmesh/intern/bmesh_edgeloop.cc:783-792 | each vertex of the scanned loop is untagged as it is visited, so a vertex repeated in that loop reads as untagged the second time and the check reports an overlap | loops `[0, 0]` and `[1, 2]`: no shared vertex, yet the check returns true | true exactly when the two loops share a vertex | not executed; medium (loops normally have distinct vertices, but a non-splitting expand repeats them) | BMeshLoopStore.OverlapScan | BMeshLoopStore.OverlapScanCorrected |
| source/blender/blenlib/BLI_offset_indices.hh:125-128 | the constructor asserts only sorted offsets with `total_size == data.size()` | offsets `[1, 2]` over one element pass the check, yet group 0 is `[1, 2)`, past the data | the groups lie inside the data, i.e. the offsets also start at 0 | not executed; low (a debug check, and callers build offsets from 0) | OffsetIndices.ConstructorCheckAdmitsOutOfRangeGroup | OffsetIndices.GroupedSpan.Get |
