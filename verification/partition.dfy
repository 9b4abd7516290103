/** The chunk partitioner and chunk address table of `src/search.rs`:
    `split_file`, `get_split`, `find_split` and the `max_split_len`
    computation of `FileSearch::new`. A boundary list `bs` holds the END
    offset of every chunk; chunk `i` covers `[Start(bs, i), bs[i])`. */
module Partition {
  import opened Wrappers
  import opened Bytes
  import opened Seqs

  /** Target chunk size used by the viewer (1 MiB). */
  const SPLIT_CHUNK_SIZE: nat := 1048576

  /** Offset where chunk `i` starts: 0 for the first chunk, otherwise the
      end of the previous one. */
  function Start(bs: seq<nat>, i: nat): nat
    requires i < |bs|
  {
    if i == 0 then 0 else bs[i - 1]
  }

  /** The byte after the first newline at or after `from` is `b`. */
  ghost predicate FoundAt(file: seq<byte>, from: nat, b: nat) {
    from < b <= |file| && file[b - 1] == NL && NoNewline(file, from, b - 1)
  }

  /** Where the scan for the `k`-th boundary of `found` starts, the whole
      scan having started at `start`. */
  function ScanFrom(found: seq<nat>, start: nat, chunkSize: nat, k: nat): nat
    requires k <= |found|
  {
    if k == 0 then start else found[k - 1] + chunkSize
  }

  /** `found` is what the scan started at `start` reports: each boundary is
      the first newline past the previous scan start, and the scan after the
      last one reaches the end of the file without a newline. */
  ghost predicate ScanOk(file: seq<byte>, chunkSize: nat, start: nat, found: seq<nat>) {
    && (forall k | 0 <= k < |found| :: FoundEntry(file, chunkSize, start, found, k))
    && NoNewline(file, ScanFrom(found, start, chunkSize, |found|), |file|)
  }

  /** Entry `k` of `found` is the boundary the scan finds from its own
      scan start. */
  ghost predicate FoundEntry(file: seq<byte>, chunkSize: nat, start: nat, found: seq<nat>, k: nat)
    requires k < |found|
  {
    FoundAt(file, ScanFrom(found, start, chunkSize, k), found[k])
  }

  /** The boundary scan of `split_file` resumed at offset `start`: the byte
      after the first newline at or after `start` becomes a boundary and the
      scan resumes `chunkSize` bytes past it. */
  function SplitFrom(file: seq<byte>, chunkSize: nat, start: nat): (found: seq<nat>)
    ensures ScanOk(file, chunkSize, start, found)
    decreases |file| - start
  {
    match FirstNewline(file, start)
    case None => []
    case Some(i) =>
      var rest := SplitFrom(file, chunkSize, i + 1 + chunkSize);
      ScanOkCons(file, chunkSize, start, i + 1, rest);
      [i + 1] + rest
  }

  /** A first boundary followed by the findings of the scan resumed past it
      is what the scan from `start` reports. */
  lemma ScanOkCons(file: seq<byte>, chunkSize: nat, start: nat, b: nat, rest: seq<nat>)
    requires FoundAt(file, start, b)
    requires ScanOk(file, chunkSize, b + chunkSize, rest)
    ensures ScanOk(file, chunkSize, start, [b] + rest)
  {
    var found := [b] + rest;
    forall k | 0 <= k < |found|
      ensures FoundEntry(file, chunkSize, start, found, k)
    {
      if k > 0 {
        assert FoundEntry(file, chunkSize, b + chunkSize, rest, k - 1);
        assert ScanFrom(found, start, chunkSize, k) == ScanFrom(rest, b + chunkSize, chunkSize, k - 1);
        assert found[k] == rest[k - 1];
      }
    }
    assert ScanFrom(found, start, chunkSize, |found|) == ScanFrom(rest, b + chunkSize, chunkSize, |rest|);
  }

  /** The findings of a scan after its first boundary are those of the scan
      resumed past that boundary. */
  lemma ScanOkTail(file: seq<byte>, chunkSize: nat, start: nat, found: seq<nat>)
    requires |found| > 0 && ScanOk(file, chunkSize, start, found)
    ensures FoundAt(file, start, found[0])
    ensures ScanOk(file, chunkSize, found[0] + chunkSize, found[1..])
  {
    assert FoundEntry(file, chunkSize, start, found, 0);
    var rest := found[1..];
    var next := found[0] + chunkSize;
    forall k | 0 <= k < |rest|
      ensures FoundEntry(file, chunkSize, next, rest, k)
    {
      assert ScanFrom(rest, next, chunkSize, k) == ScanFrom(found, start, chunkSize, k + 1);
      assert FoundEntry(file, chunkSize, start, found, k + 1);
    }
    assert ScanFrom(rest, found[0] + chunkSize, chunkSize, |rest|) == ScanFrom(found, start, chunkSize, |found|);
  }

  /** `split_file`: the boundary list of `file`, the file length appended
      last whether or not the file ends in a newline. */
  function SplitFile(file: seq<byte>, chunkSize: nat): (bs: seq<nat>)
    ensures |bs| >= 1 && Last(bs) == |file|
  {
    SplitFrom(file, chunkSize, chunkSize) + [|file|]
  }

  /** The offset the scan for boundary `k` starts at: `chunkSize` bytes past
      the previous boundary, or `chunkSize` itself for the first one. */
  function ScanStart(bs: seq<nat>, chunkSize: nat, k: nat): nat
    requires k < |bs|
  {
    Start(bs, k) + chunkSize
  }

  /** What `split_file` promises, stated without running its scan: every
      boundary but the last is one past the FIRST newline at or after its
      scan start, the last boundary is the file length, and the scan for it
      found no newline. */
  ghost predicate IsSplitOf(file: seq<byte>, chunkSize: nat, bs: seq<nat>) {
    && |bs| >= 1
    && Last(bs) == |file|
    && (forall k | 0 <= k < |bs| - 1 :: BoundaryOk(file, chunkSize, bs, k))
    && NoNewline(file, ScanStart(bs, chunkSize, |bs| - 1), |file|)
  }

  /** Boundary `k` is one past the first newline from its scan start. */
  ghost predicate BoundaryOk(file: seq<byte>, chunkSize: nat, bs: seq<nat>, k: nat)
    requires k < |bs|
  {
    FoundAt(file, ScanStart(bs, chunkSize, k), bs[k])
  }

  /** A boundary list is the scan's findings followed by the file length
      exactly when the findings are what a scan from `chunkSize` reports. */
  lemma SplitOfScan(file: seq<byte>, chunkSize: nat, found: seq<nat>)
    ensures IsSplitOf(file, chunkSize, found + [|file|]) <==> ScanOk(file, chunkSize, chunkSize, found)
  {
    var bs := found + [|file|];
    forall k | 0 <= k <= |found|
      ensures ScanStart(bs, chunkSize, k) == ScanFrom(found, chunkSize, chunkSize, k)
    {
    }
    forall k | 0 <= k < |found|
      ensures BoundaryOk(file, chunkSize, bs, k) <==> FoundEntry(file, chunkSize, chunkSize, found, k)
    {
      assert bs[k] == found[k];
    }
  }

  /** `split_file` meets its description. */
  lemma SplitFileIsSplit(file: seq<byte>, chunkSize: nat)
    ensures IsSplitOf(file, chunkSize, SplitFile(file, chunkSize))
  {
    SplitOfScan(file, chunkSize, SplitFrom(file, chunkSize, chunkSize));
  }

  /** The description determines the boundary list: any list meeting it is
      the one `split_file` computes. */
  lemma SplitIsUnique(file: seq<byte>, chunkSize: nat, bs: seq<nat>)
    requires IsSplitOf(file, chunkSize, bs)
    ensures bs == SplitFile(file, chunkSize)
  {
    var found := bs[..|bs| - 1];
    assert bs == found + [|file|];
    SplitOfScan(file, chunkSize, found);
    ScanIsUnique(file, chunkSize, chunkSize, found);
  }

  lemma {:induction false} ScanIsUnique(file: seq<byte>, chunkSize: nat, start: nat, found: seq<nat>)
    requires ScanOk(file, chunkSize, start, found)
    ensures found == SplitFrom(file, chunkSize, start)
    decreases |found|
  {
    if |found| == 0 {
      assert NoNewline(file, ScanFrom(found, start, chunkSize, 0), |file|);
      NoNewlineMeansNone(file, start);
      assert SplitFrom(file, chunkSize, start) == [];
    } else {
      ScanOkTail(file, chunkSize, start, found);
      var i := found[0] - 1;
      FirstNewlineIsUnique(file, start, i);
      ScanIsUnique(file, chunkSize, i + 1 + chunkSize, found[1..]);
      assert SplitFrom(file, chunkSize, start) == [i + 1] + SplitFrom(file, chunkSize, i + 1 + chunkSize);
      assert found == [found[0]] + found[1..];
    }
  }

  lemma NoNewlineMeansNone(file: seq<byte>, from: nat)
    requires NoNewline(file, from, |file|)
    ensures FirstNewline(file, from).None?
  {
  }

  lemma FirstNewlineIsUnique(file: seq<byte>, from: nat, i: nat)
    requires from <= i < |file| && file[i] == NL && NoNewline(file, from, i)
    ensures FirstNewline(file, from) == Some(i)
  {
  }

  /** Each boundary but the last lies at least `chunkSize + 1` bytes past the
      previous one. */
  lemma SplitGrowsByChunk(file: seq<byte>, chunkSize: nat, k: nat)
    requires k < |SplitFile(file, chunkSize)| - 1
    ensures Start(SplitFile(file, chunkSize), k) + chunkSize + 1 <= SplitFile(file, chunkSize)[k]
  {
    SplitFileIsSplit(file, chunkSize);
    assert BoundaryOk(file, chunkSize, SplitFile(file, chunkSize), k);
  }

  /** Boundaries never decrease, and only the final two can coincide: this
      happens exactly when the last boundary the scan found is already the
      file length (the file ends in a newline found by the scan). */
  lemma SplitOrder(file: seq<byte>, chunkSize: nat)
    ensures NonDecreasing(SplitFile(file, chunkSize))
    ensures var bs := SplitFile(file, chunkSize);
      forall i, j | 0 <= i < j < |bs| - 1 :: bs[i] < bs[j]
    ensures var bs := SplitFile(file, chunkSize);
      |bs| >= 2 ==> (bs[|bs| - 2] == bs[|bs| - 1] <==> bs[|bs| - 2] == |file|)
  {
    var found := SplitFrom(file, chunkSize, chunkSize);
    var bs := SplitFile(file, chunkSize);
    FoundIncreasing(file, chunkSize, chunkSize);
    forall i, j | 0 <= i < j < |bs|
      ensures bs[i] <= bs[j]
    {
      if j == |bs| - 1 {
        assert bs[i] == found[i];
      } else {
        assert bs[i] == found[i] && bs[j] == found[j];
      }
    }
  }

  lemma {:induction false} FoundIncreasing(file: seq<byte>, chunkSize: nat, start: nat)
    ensures StrictlyIncreasing(SplitFrom(file, chunkSize, start))
    ensures forall k | 0 <= k < |SplitFrom(file, chunkSize, start)| ::
      start < SplitFrom(file, chunkSize, start)[k] <= |file|
    decreases |file| - start
  {
    var found := SplitFrom(file, chunkSize, start);
    if |found| > 0 {
      ScanOkTail(file, chunkSize, start, found);
      FoundIncreasing(file, chunkSize, found[0] + chunkSize);
      assert found == [found[0]] + found[1..];
    }
  }

  /** The duplicated final boundary, as written: a file longer than the
      chunk size whose only newline past the chunk size is its last byte
      yields two equal boundaries, the second one an empty chunk. */
  lemma DuplicateFinalBoundary(file: seq<byte>, chunkSize: nat)
    requires chunkSize < |file| && file[|file| - 1] == NL
    requires NoNewline(file, chunkSize, |file| - 1)
    ensures SplitFile(file, chunkSize) == [|file|, |file|]
  {
    FirstNewlineIsUnique(file, chunkSize, |file| - 1);
    NoNewlineMeansNone(file, |file| + chunkSize);
    assert SplitFrom(file, chunkSize, |file| + chunkSize) == [];
    assert SplitFrom(file, chunkSize, chunkSize) == [|file|];
  }

  /** `split_file` with the final boundary appended only when the scan did
      not already end at the file length, so that no chunk is empty. */
  function SplitFileDistinct(file: seq<byte>, chunkSize: nat): (bs: seq<nat>)
    ensures |bs| >= 1 && Last(bs) == |file|
    ensures StrictlyIncreasing(bs)
    ensures forall k | 0 <= k < |bs| - 1 :: 0 < bs[k] <= |file| && file[bs[k] - 1] == NL
    ensures |file| > 0 ==> bs[0] > 0
  {
    var found := SplitFrom(file, chunkSize, chunkSize);
    FoundIncreasing(file, chunkSize, chunkSize);
    forall k | 0 <= k < |found|
      ensures 0 < found[k] <= |file| && file[found[k] - 1] == NL
    {
      assert FoundEntry(file, chunkSize, chunkSize, found, k);
    }
    if |found| > 0 && Last(found) == |file| then found
    else found + [|file|]
  }

  /** The corrected partition keeps every boundary `split_file` finds and
      differs from it only by dropping the duplicated final boundary. */
  lemma SplitFileDistinctDropsDuplicate(file: seq<byte>, chunkSize: nat)
    ensures var bs := SplitFile(file, chunkSize);
      SplitFileDistinct(file, chunkSize) ==
        if |bs| >= 2 && bs[|bs| - 2] == |file| then bs[..|bs| - 1] else bs
  {
    var found := SplitFrom(file, chunkSize, chunkSize);
    var bs := SplitFile(file, chunkSize);
    assert bs[..|bs| - 1] == found;
  }

  /** `get_split`: the byte range of chunk `id`, `None` for an id past the
      last chunk. */
  function GetSplit(bs: seq<nat>, id: nat): (r: Option<(nat, nat)>)
    ensures r.None? <==> id >= |bs|
    ensures r.Some? ==> r.value.1 == bs[id]
    ensures r.Some? && id == 0 ==> r.value.0 == 0
    ensures r.Some? && id > 0 ==> r.value.0 == GetSplit(bs, id - 1).value.1
  {
    if id >= |bs| then None
    else if id > 0 then Some((bs[id - 1], bs[id]))
    else Some((0, bs[0]))
  }

  /** The bytes of chunk `i`. */
  function ChunkBytes(file: seq<byte>, bs: seq<nat>, i: nat): seq<byte>
    requires i < |bs| && NonDecreasing(bs) && Last(bs) <= |file|
  {
    file[Start(bs, i)..bs[i]]
  }

  /** The first `k` chunks laid end to end. */
  function Chunks(file: seq<byte>, bs: seq<nat>, k: nat): seq<byte>
    requires k <= |bs| && NonDecreasing(bs) && |bs| > 0 && Last(bs) <= |file|
  {
    if k == 0 then [] else Chunks(file, bs, k - 1) + ChunkBytes(file, bs, k - 1)
  }

  /** The chunks tile the file: laid end to end they give it back exactly. */
  lemma ChunksCoverFile(file: seq<byte>, bs: seq<nat>)
    requires NonDecreasing(bs) && |bs| > 0 && Last(bs) == |file|
    ensures Chunks(file, bs, |bs|) == file
  {
    ChunksArePrefix(file, bs, |bs|);
  }

  lemma {:induction false} ChunksArePrefix(file: seq<byte>, bs: seq<nat>, k: nat)
    requires NonDecreasing(bs) && |bs| > 0 && Last(bs) <= |file|
    requires 0 < k <= |bs|
    ensures Chunks(file, bs, k) == file[..bs[k - 1]]
  {
    if k > 1 {
      ChunksArePrefix(file, bs, k - 1);
      assert file[..bs[k - 2]] + file[bs[k - 2]..bs[k - 1]] == file[..bs[k - 1]];
    }
  }

  /** `find_split`: the chunk containing `offset`, `None` at or past the end
      of the file. When boundaries repeat (an empty chunk) the bisection goes
      past the last of the equal entries, which is what `Ok(i) => i + 1` gives
      when `binary_search` reports the last equal index, as its current
      implementation does; the API itself leaves that choice open. */
  function FindSplit(bs: seq<nat>, offset: nat): (r: Option<nat>)
    requires |bs| > 0 && NonDecreasing(bs)
    ensures r.Some? <==> offset < Last(bs)
    ensures r.Some? ==> r.value < |bs| && Start(bs, r.value) <= offset < bs[r.value]
  {
    if offset < bs[0] then Some(0)
    else
      var id := UpperBound(bs, offset);
      if id == |bs| then None else Some(id)
  }

  /** With no empty chunk, `find_split` is the unique chunk whose range
      holds the offset. */
  lemma FindSplitUnique(bs: seq<nat>, offset: nat, i: nat)
    requires |bs| > 0 && StrictlyIncreasing(bs)
    requires i < |bs| && Start(bs, i) <= offset < bs[i]
    ensures FindSplit(bs, offset) == Some(i)
  {
    assert offset < Last(bs);
  }

  /** Length of chunk `i`. */
  function ChunkLen(bs: seq<nat>, i: nat): nat
    requires i < |bs| && NonDecreasing(bs)
  {
    bs[i] - Start(bs, i)
  }

  /** The largest chunk length (`max_split_len`), the size of the buffer a
      scan worker allocates: every chunk fits, and some chunk fills it. */
  function MaxSplitLen(bs: seq<nat>): (m: nat)
    requires NonDecreasing(bs)
    ensures forall i | 0 <= i < |bs| :: ChunkLen(bs, i) <= m
    ensures |bs| > 0 ==> exists i | 0 <= i < |bs| :: ChunkLen(bs, i) == m
  {
    MaxLenOfFirst(bs, |bs|)
  }

  function MaxLenOfFirst(bs: seq<nat>, k: nat): (m: nat)
    requires k <= |bs| && NonDecreasing(bs)
    ensures forall i | 0 <= i < k :: ChunkLen(bs, i) <= m
    ensures k > 0 ==> exists i | 0 <= i < k :: ChunkLen(bs, i) == m
  {
    if k == 0 then 0
    else
      var rest := MaxLenOfFirst(bs, k - 1);
      var len := ChunkLen(bs, k - 1);
      if len > rest then len else rest
  }
}
