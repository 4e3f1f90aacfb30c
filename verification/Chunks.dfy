/** Cutting a list of subspaces into chunks of limited total size. */
module Chunks {
  /** Number of values of every subspace. */
  type Sizes = map<int, nat>

  function SizeOf(sizes: Sizes, s: int): nat {
    if s in sizes then sizes[s] else 0
  }

  function TotalSize(sizes: Sizes, list: seq<int>): nat {
    if list == [] then 0 else TotalSize(sizes, list[..|list| - 1]) + SizeOf(sizes, list[|list| - 1])
  }

  ghost function Members(list: seq<int>): set<int> {
    set s | s in list
  }

  ghost function Flatten(parts: seq<seq<int>>): seq<int> {
    if parts == [] then [] else Flatten(parts[..|parts| - 1]) + parts[|parts| - 1]
  }

  /** A chunk stays below the limit unless it is a single subspace, and only its first subspace may be
      empty. */
  ghost predicate IsChunk(sizes: Sizes, part: seq<int>, limit: int) {
    && part != []
    && (|part| == 1 || TotalSize(sizes, part) < limit)
    && forall i :: 1 <= i < |part| ==> SizeOf(sizes, part[i]) > 0
  }

  /** A chunk ends only where the next subspace is empty or would reach the limit. */
  ghost predicate EndsBefore(sizes: Sizes, part: seq<int>, next: int, limit: int) {
    SizeOf(sizes, next) == 0 || TotalSize(sizes, part) + SizeOf(sizes, next) >= limit
  }

  ghost predicate AreChunks(sizes: Sizes, parts: seq<seq<int>>, limit: int) {
    && (forall i :: 0 <= i < |parts| ==> IsChunk(sizes, parts[i], limit))
    && forall i :: 1 <= i < |parts| ==> EndsBefore(sizes, parts[i - 1], parts[i][0], limit)
  }

  /** The parts as sets of subspaces. */
  ghost predicate AreSetsOf(chunks: seq<set<int>>, parts: seq<seq<int>>) {
    |chunks| == |parts| && forall i :: 0 <= i < |parts| ==> chunks[i] == Members(parts[i])
  }

  /** The chunks are the list, cut into pieces. */
  ghost predicate AreChunksOf(sizes: Sizes, list: seq<int>, limit: int, chunks: seq<set<int>>) {
    exists parts :: Flatten(parts) == list && AreSetsOf(chunks, parts) && AreChunks(sizes, parts, limit)
  }

  /** Takes subspaces from position start on until the chunk ends. */
  method NextChunk(sizes: Sizes, list: seq<int>, start: nat, limit: int) returns (chunk: set<int>, next: nat)
    requires start < |list|
    ensures start < next <= |list| && chunk == Members(list[start..next])
    ensures IsChunk(sizes, list[start..next], limit)
    ensures next < |list| ==> EndsBefore(sizes, list[start..next], list[next], limit)
  {
    chunk := {list[start]};
    next := start + 1;
    var chunkDataSize := SizeOf(sizes, list[start]);
    assert list[start..next][..0] == [];
    while next < |list| && SizeOf(sizes, list[next]) != 0 && chunkDataSize + SizeOf(sizes, list[next]) < limit
      invariant start < next <= |list| && chunk == Members(list[start..next])
      invariant chunkDataSize == TotalSize(sizes, list[start..next]) && IsChunk(sizes, list[start..next], limit)
    {
      assert list[start..next + 1] == list[start..next] + [list[next]];
      assert list[start..next + 1][..next - start] == list[start..next];
      chunkDataSize := chunkDataSize + SizeOf(sizes, list[next]);
      chunk := chunk + {list[next]};
      next := next + 1;
    }
  }

  method GetChunkedSubspaces(sizes: Sizes, list: seq<int>, limit: int) returns (chunks: seq<set<int>>)
    ensures AreChunksOf(sizes, list, limit, chunks)
  {
    chunks := [];
    ghost var parts: seq<seq<int>> := [];
    var it := 0;
    while it < |list|
      invariant it <= |list| && Flatten(parts) == list[..it] && AreSetsOf(chunks, parts)
                && AreChunks(sizes, parts, limit)
      invariant it < |list| && parts != [] ==> EndsBefore(sizes, parts[|parts| - 1], list[it], limit)
    {
      var chunk, next := NextChunk(sizes, list, it, limit);
      ghost var part := list[it..next];
      assert (parts + [part])[..|parts|] == parts;
      assert list[..it] + part == list[..next];
      parts := parts + [part];
      chunks := chunks + [chunk];
      it := next;
    }
    assert list[..|list|] == list;
  }

  lemma {:induction false} FlattenMembers(parts: seq<seq<int>>, s: int)
    ensures s in Flatten(parts) <==> exists i :: 0 <= i < |parts| && s in parts[i]
  {
    if parts != [] {
      var n := |parts| - 1;
      FlattenMembers(parts[..n], s);
      if s in Flatten(parts) && s in Flatten(parts[..n]) {
        var i :| 0 <= i < n && s in parts[..n][i];
        assert s in parts[i];
      }
    }
  }

  ghost predicate NoDuplicates(list: seq<int>) {
    forall i, j :: 0 <= i < j < |list| ==> list[i] != list[j]
  }

  /** No subspace is in two chunks, and every subspace is in one. */
  lemma {:induction false} ChunksAreDisjoint(parts: seq<seq<int>>, i: nat, j: nat)
    requires NoDuplicates(Flatten(parts)) && i < j < |parts|
    ensures Members(parts[i]) !! Members(parts[j])
  {
    var n := |parts| - 1;
    var front, last := Flatten(parts[..n]), parts[n];
    if j == n {
      forall s | s in parts[i]
        ensures s !in last
      {
        assert s in parts[..n][i];
        FlattenMembers(parts[..n], s);
        var a :| 0 <= a < |front| && front[a] == s;
        forall b | 0 <= b < |last|
          ensures last[b] != s
        {
          assert Flatten(parts)[a] == s && Flatten(parts)[|front| + b] == last[b];
        }
      }
    } else {
      forall a, b | 0 <= a < b < |front|
        ensures front[a] != front[b]
      {
        assert Flatten(parts)[a] == front[a] && Flatten(parts)[b] == front[b];
      }
      ChunksAreDisjoint(parts[..n], i, j);
    }
  }

  /** If the list is cut although it fits, the second chunk starts with an empty subspace. */
  lemma CutAtEmpty(sizes: Sizes, list: seq<int>, limit: int, parts: seq<seq<int>>)
    requires (|list| == 1 || TotalSize(sizes, list) < limit) && |parts| > 1
    requires Flatten(parts) == list && AreChunks(sizes, parts, limit)
    ensures 0 < |parts[0]| < |list| && SizeOf(sizes, list[|parts[0]|]) == 0
  {
    hide Flatten, SizeOf;
    var first, next := parts[0], parts[1][0];
    assert IsChunk(sizes, first, limit) && IsChunk(sizes, parts[1], limit);
    FlattenSecond(parts);
    var k := |first|;
    PrefixSize(sizes, list, k + 1);
    assert list[..k + 1] == first + [next] && (first + [next])[..k] == first;
    assert EndsBefore(sizes, parts[0], parts[1][0], limit);
  }

  /** A list that fits below the limit is one chunk if and only if no subspace but the first is empty. */
  lemma OneChunk(sizes: Sizes, list: seq<int>, limit: int, parts: seq<seq<int>>)
    requires list != [] && (|list| == 1 || TotalSize(sizes, list) < limit)
    requires Flatten(parts) == list && AreChunks(sizes, parts, limit)
    ensures |parts| == 1 <==> forall i :: 1 <= i < |list| ==> SizeOf(sizes, list[i]) > 0
  {
    FlattenFirst(parts);
    if |parts| == 1 {
      assert parts == [parts[0]] && parts[..0] == [] && Flatten(parts) == parts[0];
      assert IsChunk(sizes, parts[0], limit);
    } else {
      CutAtEmpty(sizes, list, limit, parts);
    }
  }

  /** Three subspaces of sizes 1, 0 and 1 are far below a limit of 10, and yet not one chunk. */
  lemma EmptySubspaceCuts(parts: seq<seq<int>>)
    requires Flatten(parts) == [0, 1, 2] && AreChunks(map[0 := 1, 1 := 0, 2 := 1], parts, 10)
    ensures TotalSize(map[0 := 1, 1 := 0, 2 := 1], [0, 1, 2]) == 2 && |parts| > 1
  {
    var sizes, list: seq<int> := map[0 := 1, 1 := 0, 2 := 1], [0, 1, 2];
    SizeOfThree(sizes, 0, 1, 2);
    OneChunk(sizes, list, 10, parts);
    assert list[1] == 1 && SizeOf(sizes, 1) == 0;
    assert Flatten([]) == [];
  }

  lemma SizeOfThree(sizes: Sizes, a: int, b: int, c: int)
    ensures TotalSize(sizes, [a, b, c]) == SizeOf(sizes, a) + SizeOf(sizes, b) + SizeOf(sizes, c)
  {
    assert [a, b, c][..2] == [a, b] && [a, b][..1] == [a] && [a][..0] == [];
    assert TotalSize(sizes, [a]) == TotalSize(sizes, []) + SizeOf(sizes, a);
    assert TotalSize(sizes, [a, b]) == TotalSize(sizes, [a]) + SizeOf(sizes, b);
  }

  /** A chunk, cut again in the same order, is one chunk. */
  lemma ChunkIsNotCutAgain(sizes: Sizes, part: seq<int>, limit: int, again: seq<seq<int>>)
    requires IsChunk(sizes, part, limit) && Flatten(again) == part && AreChunks(sizes, again, limit)
    ensures |again| == 1
  {
    OneChunk(sizes, part, limit, again);
  }

  lemma {:induction false} PrefixSize(sizes: Sizes, list: seq<int>, n: nat)
    requires n <= |list|
    ensures TotalSize(sizes, list[..n]) <= TotalSize(sizes, list)
  {
    if n < |list| {
      PrefixSize(sizes, list[..|list| - 1], n);
      assert list[..|list| - 1][..n] == list[..n];
    } else {
      assert list[..n] == list;
    }
  }

  lemma {:induction false} FlattenFirst(parts: seq<seq<int>>)
    requires Flatten(parts) != []
    ensures parts != [] && parts[0] <= Flatten(parts)
  {
    if |parts| > 1 && Flatten(parts[..|parts| - 1]) != [] {
      FlattenFirst(parts[..|parts| - 1]);
    } else if |parts| > 1 {
      FlattenEmpty(parts[..|parts| - 1], 0);
    } else {
      assert Flatten(parts[..0]) == [];
    }
  }

  lemma {:induction false} FlattenEmpty(parts: seq<seq<int>>, i: nat)
    requires Flatten(parts) == [] && i < |parts|
    ensures parts[i] == []
  {
    if i < |parts| - 1 {
      FlattenEmpty(parts[..|parts| - 1], i);
    }
  }

  lemma {:induction false} FlattenSecond(parts: seq<seq<int>>)
    requires |parts| > 1 && parts[1] != []
    ensures |parts[0]| < |Flatten(parts)| && Flatten(parts)[|parts[0]|] == parts[1][0]
            && Flatten(parts)[..|parts[0]|] == parts[0]
  {
    if |parts| == 2 {
      assert parts[..1] == [parts[0]] && Flatten([parts[0]]) == parts[0];
    } else {
      FlattenSecond(parts[..|parts| - 1]);
    }
  }
}
