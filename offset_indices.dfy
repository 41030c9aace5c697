/**
 * Offset indices: a sorted array of offsets that encodes consecutive index
 * ranges ("groups"), group `i` being `[offsets[i], offsets[i + 1])`, and a
 * grouped span that slices a data array by those groups.
 *
 * Integer widths (the element type `T` and the 64-bit sizes) are modelled
 * by unbounded integers.
 */
module OffsetIndices {

  /** A contiguous range of indices `[start, start + size)`. */
  datatype IndexRange = IndexRange(start: int, size: nat) {
    function OneAfterLast(): int { start + size }
    predicate IsEmpty() { size == 0 }
    predicate Contains(i: int) { start <= i < start + size }
  }

  /** `IndexRange::from_begin_end`, which demands `begin <= end`. */
  function FromBeginEnd(begin: int, end: int): (r: IndexRange)
    requires begin <= end
    ensures r.start == begin && r.OneAfterLast() == end
    ensures forall i :: r.Contains(i) <==> begin <= i < end
  {
    IndexRange(begin, end - begin)
  }

  ghost predicate Sorted(s: seq<int>) {
    forall i, j :: 0 <= i <= j < |s| ==> s[i] <= s[j]
  }

  /** Sum of a sequence of integers, taken from the back. */
  function Sum(s: seq<int>): int {
    if s == [] then 0 else Sum(s[..|s| - 1]) + s[|s| - 1]
  }

  lemma SumSnoc(a: seq<int>, x: int)
    ensures Sum(a + [x]) == Sum(a) + x
  {
    assert (a + [x])[..|a|] == a;
  }

  /** Differences of consecutive elements: the group sizes encoded by `offs`, taken from the back. */
  function Diffs(offs: seq<int>): (d: seq<int>)
    ensures |d| == if |offs| > 0 then |offs| - 1 else 0
  {
    if |offs| <= 1 then [] else Diffs(offs[..|offs| - 1]) + [offs[|offs| - 1] - offs[|offs| - 2]]
  }

  /** Entry `i` of the differences is `offs[i + 1] - offs[i]`. */
  lemma {:induction false} DiffsAt(offs: seq<int>, i: nat)
    requires i + 1 < |offs|
    ensures Diffs(offs)[i] == offs[i + 1] - offs[i]
  {
    if i + 2 < |offs| {
      var init := offs[..|offs| - 1];
      DiffsAt(init, i);
    }
  }

  datatype OffsetIndices = OffsetIndices(offsets: seq<int>) {

    /** The constructor's assertion: fewer than two offsets, or sorted ones. */
    ghost predicate Valid() { Sorted(offsets) }

    /** `total_size`: the number of elements covered by all groups. */
    function TotalSize(): (r: int)
      ensures |offsets| <= 1 ==> r == 0
      ensures Valid() ==> r >= 0
      ensures Valid() && |offsets| > 0 ==> r == Sum(Diffs(offsets))
    {
      if |offsets| > 1 then
        TelescopingSum(offsets);
        offsets[|offsets| - 1] - offsets[0]
      else 0
    }

    /** `size`: the number of groups, one less than the number of offsets. */
    function Size(): (r: nat)
      ensures r == |Diffs(offsets)|
      ensures r + 1 == |offsets| || (r == 0 && offsets == [])
    {
      if |offsets| > 0 then |offsets| - 1 else 0
    }

    /** `is_empty`: there is no group, that is at most one offset. */
    function IsEmpty(): (r: bool)
      ensures r <==> |offsets| <= 1
    {
      Size() == 0
    }

    /** `operator[](int64_t)`: the index range of group `index`. */
    function Group(index: int): (r: IndexRange)
      requires Valid()
      requires 0 <= index < |offsets| - 1
      ensures r.start == offsets[index] && r.OneAfterLast() == offsets[index + 1]
      ensures r.size == Diffs(offsets)[index]
    {
      DiffsAt(offsets, index);
      FromBeginEnd(offsets[index], offsets[index + 1])
    }

    /** `operator[](IndexRange)`: the range covered by consecutive groups. */
    function Groups(indices: IndexRange): (r: IndexRange)
      requires Valid()
      requires 0 <= indices.start && indices.OneAfterLast() < |offsets|
      ensures r.start == offsets[indices.start]
      ensures r.OneAfterLast() == offsets[indices.OneAfterLast()]
      ensures r.size == Sum(Diffs(offsets)[indices.start..indices.OneAfterLast()])
    {
      var a, b := indices.start, indices.OneAfterLast();
      var sl := offsets[a..b + 1];
      assert sl[0] == offsets[a] && sl[|sl| - 1] == offsets[b];
      TelescopingSum(sl);
      DiffsOfSlice(offsets, a, b);
      assert offsets[a] <= offsets[b];
      FromBeginEnd(offsets[indices.start], offsets[indices.OneAfterLast()])
    }

    /**
     * `slice`: the offsets of the groups `range`, which keep their sizes and
     * order. The two assertions of the source (the last group of a non-empty
     * range exists; the offsets slice of `range.size + 1` values fits) come
     * down to `range.OneAfterLast() < |offsets|`.
     */
    function Slice(range: IndexRange): (r: OffsetIndices)
      requires 0 <= range.start && range.OneAfterLast() < |offsets|
      ensures r.Size() == range.size
      ensures Valid() ==> r.Valid()
      ensures Valid() ==> forall j :: 0 <= j < range.size ==> r.Group(j) == Group(range.start + j)
      ensures Valid() ==> r.TotalSize() == Groups(range).size
    {
      OffsetIndices(offsets[range.start..range.OneAfterLast() + 1])
    }
  }

  /** The group sizes of a slice of offsets are the matching slice of the group sizes. */
  lemma {:induction false} DiffsOfSlice(offs: seq<int>, a: nat, b: nat)
    requires a <= b < |offs|
    ensures Diffs(offs[a..b + 1]) == Diffs(offs)[a..b]
  {
    var s := offs[a..b + 1];
    var d := Diffs(offs)[a..b];
    forall k | 0 <= k < b - a
      ensures Diffs(s)[k] == d[k]
    {
      DiffsAt(s, k);
      DiffsAt(offs, a + k);
    }
    assert Diffs(s) == d;
  }

  /** The group sizes of sorted offsets telescope to last minus first. */
  lemma {:induction false} TelescopingSum(offs: seq<int>)
    requires |offs| > 0
    ensures Sum(Diffs(offs)) == offs[|offs| - 1] - offs[0]
  {
    if |offs| > 1 {
      var init := offs[..|offs| - 1];
      var x := offs[|offs| - 1] - offs[|offs| - 2];
      assert Diffs(offs) == Diffs(init) + [x];
      assert init[|init| - 1] == offs[|offs| - 2] && init[0] == offs[0];
      TelescopingSum(init);
      SumSnoc(Diffs(init), x);
    }
  }

  /** With sorted offsets every group size is non-negative. */
  lemma {:induction false} GroupSizesNonNegative(oi: OffsetIndices)
    requires oi.Valid()
    ensures forall i :: 0 <= i < oi.Size() ==> Diffs(oi.offsets)[i] >= 0
  {
    forall i | 0 <= i < oi.Size() ensures Diffs(oi.offsets)[i] >= 0 {
      DiffsAt(oi.offsets, i);
    }
  }

  /**
   * The groups tile `[first, last)`: every covered index lies in exactly one
   * group, and group `i` ends where group `i + 1` starts.
   */
  lemma {:induction false} GroupOfIndex(oi: OffsetIndices, x: int) returns (i: nat)
    requires oi.Valid() && |oi.offsets| > 1
    requires oi.offsets[0] <= x < oi.offsets[|oi.offsets| - 1]
    ensures i < oi.Size() && oi.Group(i).Contains(x)
    ensures forall j :: 0 <= j < oi.Size() && oi.Group(j).Contains(x) ==> j == i
  {
    i := 0;
    while oi.offsets[i + 1] <= x
      invariant 0 <= i < |oi.offsets| - 1
      invariant oi.offsets[i] <= x
      decreases |oi.offsets| - i
    {
      i := i + 1;
    }
  }

  /**
   * A span of data split into groups by offsets. The index `i` group is the
   * data slice over `offsets[i]`.
   */
  datatype GroupedSpan<T> = GroupedSpan(offsets: OffsetIndices, data: seq<T>) {

    /** The check the constructor asserts, as written. */
    ghost predicate ConstructorCheck() {
      offsets.Valid() && offsets.TotalSize() == |data|
    }

    /**
     * What the group accessor needs: besides the constructor's check, the
     * offsets start at zero, so every group lies inside `data`.
     */
    ghost predicate Valid() {
      ConstructorCheck() && (|offsets.offsets| > 0 ==> offsets.offsets[0] == 0)
    }

    /** `operator[]`: the data elements of group `index`, in order. */
    function Get(index: int): (r: seq<T>)
      requires Valid()
      requires 0 <= index < offsets.Size()
      ensures |r| == offsets.Group(index).size
      ensures forall k :: 0 <= k < |r| ==> r[k] == data[offsets.offsets[index] + k]
    {
      var range := offsets.Group(index);
      data[range.start..range.OneAfterLast()]
    }

    /** `size`: the number of groups. */
    function Size(): (r: nat)
      ensures r == offsets.Size()
    {
      offsets.Size()
    }

    /** `is_empty`: tests the data, not the number of groups. */
    function IsEmpty(): (r: bool)
      ensures r <==> data == []
    {
      |data| == 0
    }
  }

  /** Concatenation of a sequence of sequences. */
  function Flatten<T>(ss: seq<seq<T>>): seq<T> {
    if ss == [] then [] else Flatten(ss[..|ss| - 1]) + ss[|ss| - 1]
  }

  /** A prefix is a shorter prefix followed by the slice between them. */
  lemma {:induction false} PrefixSplit<T>(s: seq<T>, a: int, b: int)
    requires 0 <= a <= b <= |s|
    ensures s[..b] == s[..a] + s[a..b]
  {
  }

  /** Appending a part appends its elements. */
  lemma {:induction false} FlattenSnoc<T>(ss: seq<seq<T>>, s: seq<T>)
    ensures Flatten(ss + [s]) == Flatten(ss) + s
  {
    assert (ss + [s])[..|ss|] == ss;
  }

  /** The first `n` groups of a grouped span, in order. */
  function GroupsUpTo<T>(g: GroupedSpan<T>, n: nat): (r: seq<seq<T>>)
    requires g.Valid() && n <= g.Size()
    ensures |r| == n
    ensures forall i :: 0 <= i < n ==> r[i] == g.Get(i)
  {
    if n == 0 then [] else GroupsUpTo(g, n - 1) + [g.Get(n - 1)]
  }

  /** The groups of a grouped span, in order. */
  function AllGroups<T>(g: GroupedSpan<T>): (r: seq<seq<T>>)
    requires g.Valid()
    ensures |r| == g.Size()
    ensures forall i :: 0 <= i < |r| ==> r[i] == g.Get(i)
  {
    GroupsUpTo(g, g.Size())
  }

  /** Every offset of a valid grouped span is a position in its data. */
  lemma {:induction false} OffsetInData<T>(g: GroupedSpan<T>, n: nat)
    requires g.Valid() && n < |g.offsets.offsets|
    ensures 0 <= g.offsets.offsets[n] <= |g.data|
  {
    var offs := g.offsets.offsets;
    assert offs[0] <= offs[n] <= offs[|offs| - 1];
  }

  /** Group `i` of a valid grouped span is the data between offsets `i` and `i + 1`. */
  lemma {:induction false} GetIsSlice<T>(g: GroupedSpan<T>, i: nat)
    requires g.Valid() && i < g.Size()
    ensures 0 <= g.offsets.offsets[i] <= g.offsets.offsets[i + 1] <= |g.data|
    ensures g.Get(i) == g.data[g.offsets.offsets[i]..g.offsets.offsets[i + 1]]
  {
    OffsetInData(g, i + 1);
    var range := g.offsets.Group(i);
  }

  /** The first `n` groups, concatenated, are the data up to `offsets[n]`. */
  lemma {:induction false} GroupsPrefix<T>(g: GroupedSpan<T>, n: nat)
    requires g.Valid() && n < |g.offsets.offsets|
    ensures 0 <= g.offsets.offsets[n] <= |g.data|
    ensures Flatten(GroupsUpTo(g, n)) == g.data[..g.offsets.offsets[n]]
  {
    var offs := g.offsets.offsets;
    OffsetInData(g, n);
    if n > 0 {
      GroupsPrefix(g, n - 1);
      GetIsSlice(g, n - 1);
      var prev, last := GroupsUpTo(g, n - 1), g.Get(n - 1);
      assert GroupsUpTo(g, n) == prev + [last];
      FlattenSnoc(prev, last);
      PrefixSplit(g.data, offs[n - 1], offs[n]);
    }
  }

  /** A valid grouped span partitions its data: the groups concatenate to it. */
  lemma {:induction false} GroupsPartitionData<T>(g: GroupedSpan<T>)
    requires g.Valid()
    ensures Flatten(AllGroups(g)) == g.data
  {
    var offs := g.offsets.offsets;
    if |offs| == 0 {
      assert g.data == [];
    } else {
      GroupsPrefix(g, |offs| - 1);
      assert g.data[..offs[|offs| - 1]] == g.data;
    }
  }

  /** A grouped span is empty exactly when every one of its groups is. */
  lemma {:induction false} IsEmptyIffAllGroupsEmpty<T>(g: GroupedSpan<T>)
    requires g.Valid()
    ensures g.IsEmpty() <==> forall i :: 0 <= i < g.Size() ==> g.Get(i) == []
  {
    var offs := g.offsets.offsets;
    if g.IsEmpty() {
      forall i | 0 <= i < g.Size() ensures g.Get(i) == [] {
        assert offs[0] <= offs[i] <= offs[i + 1] <= offs[|offs| - 1];
      }
    } else {
      var i := GroupOfIndex(g.offsets, 0);
      assert |g.Get(i)| > 0;
    }
  }

  /**
   * The constructor's check alone does not keep the groups inside `data`:
   * offsets `[1, 2]` over one element pass it, yet group 0 is `[1, 2)`.
   */
  lemma {:induction false} ConstructorCheckAdmitsOutOfRangeGroup()
    ensures exists g: GroupedSpan<int> ::
      g.ConstructorCheck() && g.offsets.Size() == 1 && g.offsets.Group(0).OneAfterLast() > |g.data|
  {
    var g := GroupedSpan(OffsetIndices([1, 2]), [7]);
    assert g.offsets.Group(0).OneAfterLast() == 2;
    assert g.ConstructorCheck();
  }

  /** Offsets from sizes: `start` followed by the running sums of `counts`. */
  function Accumulate(counts: seq<int>, start: int): (r: seq<int>)
    ensures |r| == |counts| + 1 && r[0] == start
    ensures r[|counts|] == start + Sum(counts)
  {
    if counts == [] then [start]
    else
      var prev := Accumulate(counts[..|counts| - 1], start);
      prev + [prev[|counts| - 1] + counts[|counts| - 1]]
  }

  /** Each accumulated offset is `start` plus the sum of all previous sizes. */
  lemma {:induction false} AccumulateAt(counts: seq<int>, start: int, k: nat)
    requires k <= |counts|
    ensures Accumulate(counts, start)[k] == start + Sum(counts[..k])
  {
    if k < |counts| {
      var init := counts[..|counts| - 1];
      AccumulateAt(init, start, k);
      assert init[..k] == counts[..k];
    } else {
      assert counts[..k] == counts;
    }
  }

  /** Consecutive differences of accumulated offsets give back the counts. */
  lemma {:induction false} AccumulateDiffs(counts: seq<int>, start: int)
    ensures Diffs(Accumulate(counts, start)) == counts
  {
    var r := Accumulate(counts, start);
    forall i | 0 <= i < |counts| ensures Diffs(r)[i] == counts[i] {
      DiffsAt(r, i);
      AccumulateAt(counts, start, i);
      AccumulateAt(counts, start, i + 1);
      assert counts[..i + 1][..i] == counts[..i];
    }
  }

  /** Non-negative counts give sorted offsets, hence valid offset indices. */
  lemma {:induction false} AccumulateSorted(counts: seq<int>, start: int)
    requires forall i :: 0 <= i < |counts| ==> counts[i] >= 0
    ensures OffsetIndices(Accumulate(counts, start)).Valid()
    ensures OffsetIndices(Accumulate(counts, start)).TotalSize() == Sum(counts)
  {
    var r := Accumulate(counts, start);
    AccumulateDiffs(counts, start);
    forall i, j | 0 <= i <= j < |r| ensures r[i] <= r[j] {
      var k := i;
      while k < j
        invariant i <= k <= j && r[i] <= r[k]
      {
        DiffsAt(r, k);
        k := k + 1;
      }
    }
  }

  /** One more count: the next offset is the last one plus that count. */
  lemma {:induction false} AccumulateStep(counts: seq<int>, start: int, i: nat, done: seq<int>, offset: int)
    requires i < |counts| && done + [offset] == Accumulate(counts[..i], start)
    ensures done + [offset] + [offset + counts[i]] == Accumulate(counts[..i + 1], start)
  {
    var c := counts[..i + 1];
    assert c[..|c| - 1] == counts[..i];
  }

  /**
   * `accumulate_counts_to_offsets`: the array holds the counts of all groups
   * but the last slot; it is overwritten in place with the offsets.
   */
  method AccumulateCountsToOffsets(countsToOffsets: array<int>, start: int) returns (r: OffsetIndices)
    requires countsToOffsets.Length >= 1
    modifies countsToOffsets
    ensures countsToOffsets[..] == Accumulate(old(countsToOffsets[..countsToOffsets.Length - 1]), start)
    ensures r.offsets == countsToOffsets[..]
  {
    ghost var counts := countsToOffsets[..countsToOffsets.Length - 1];
    var n := countsToOffsets.Length - 1;
    var offset := start;
    var i := 0;
    while i < n
      invariant 0 <= i <= n
      invariant countsToOffsets[..i] + [offset] == Accumulate(counts[..i], start)
      invariant forall k :: i <= k < n ==> countsToOffsets[k] == counts[k]
    {
      var count := countsToOffsets[i];
      ghost var done := countsToOffsets[..i];
      AccumulateStep(counts, start, i, done, offset);
      countsToOffsets[i] := offset;
      assert countsToOffsets[..i + 1] == done + [offset];
      offset := offset + count;
      i := i + 1;
    }
    countsToOffsets[n] := offset;
    assert counts[..n] == counts;
    assert countsToOffsets[..] == countsToOffsets[..n] + [offset];
    r := OffsetIndices(countsToOffsets[..]);
  }

  /** `fill_constant_group_size`: offsets where every group has `size` elements. */
  method FillConstantGroupSize(size: int, start: int, offsets: array<int>)
    modifies offsets
    ensures forall i :: 0 <= i < offsets.Length ==> offsets[i] == start + i * size
    ensures forall i :: 0 <= i < offsets.Length - 1 ==> Diffs(offsets[..])[i] == size
  {
    for i := 0 to offsets.Length
      invariant forall k :: 0 <= k < i ==> offsets[k] == start + k * size
    {
      offsets[i] := start + i * size;
    }
    forall i | 0 <= i < offsets.Length - 1 ensures Diffs(offsets[..])[i] == size {
      DiffsAt(offsets[..], i);
    }
  }

  /** Writes `value` into the slots `[lo, hi)` of `m`; other slots keep their values. */
  method FillGroup(m: array<int>, lo: int, hi: int, value: int)
    requires 0 <= lo <= hi <= m.Length
    modifies m
    ensures forall x :: lo <= x < hi ==> m[x] == value
    ensures forall x :: 0 <= x < m.Length && (x < lo || x >= hi) ==> m[x] == old(m[x])
  {
    for j := lo to hi
      invariant forall x :: lo <= x < j ==> m[x] == value
      invariant forall x :: 0 <= x < m.Length && (x < lo || x >= j) ==> m[x] == old(m[x])
    {
      m[j] := value;
    }
  }

  /**
   * `build_reverse_map`: for every element covered by group `i`, the map
   * holds `i`; other slots are left as they were.
   */
  method BuildReverseMap(oi: OffsetIndices, rMap: array<int>)
    requires oi.Valid()
    requires |oi.offsets| > 0 ==> 0 <= oi.offsets[0] && oi.offsets[|oi.offsets| - 1] <= rMap.Length
    modifies rMap
    ensures forall i, j :: 0 <= i < oi.Size() && oi.Group(i).Contains(j) ==> rMap[j] == i
    ensures forall j :: 0 <= j < rMap.Length && (oi.Size() == 0 || j < oi.offsets[0] || j >= oi.offsets[oi.Size()]) ==>
      rMap[j] == old(rMap[j])
  {
    var offs := oi.offsets;
    for i := 0 to oi.Size()
      invariant forall g, j :: 0 <= g < i && offs[g] <= j < offs[g + 1] ==> rMap[j] == g
      invariant forall j :: 0 <= j < rMap.Length && (i == 0 || j < offs[0] || j >= offs[i]) ==> rMap[j] == old(rMap[j])
    {
      assert offs[0] <= offs[i] <= offs[i + 1] <= offs[|offs| - 1];
      FillGroup(rMap, offs[i], offs[i + 1], i);
    }
  }
}
