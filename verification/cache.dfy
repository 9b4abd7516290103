/** The chunk cache of `src/cache.rs`: a chunk read into memory with its
    line ends and, per match class, the lines the class's match set
    matches, kept in a least-recently-used cache and re-annotated when the
    pattern set's sequence number moves on. */
module Cache {
  import opened Wrappers
  import opened Bytes
  import opened Seqs
  import opened Partition
  import opened Patterns

  /** `Split`: a chunk's bytes, the end offset (within the chunk) of each
      line, and the indices of the lines with tag, search and hide
      matches, computed under pattern sequence number `patternSeq`. */
  datatype Split = Split(
    patternSeq: nat,
    buf: seq<byte>,
    lineEnds: seq<nat>,
    tagged: seq<nat>,
    search: seq<nat>,
    hidden: seq<nat>)

  /** The `memchr` loop from `start`: the offset just past every newline. */
  function LineEndsFrom(buf: seq<byte>, start: nat): (r: seq<nat>)
    requires start <= |buf|
    ensures forall k | 0 <= k < |r| :: start < r[k] <= |buf| && buf[r[k] - 1] == NL
    decreases |buf| - start
  {
    match FirstNewline(buf, start)
    case None => []
    case Some(p) => [p + 1] + LineEndsFrom(buf, p + 1)
  }

  /** The loop finds the newlines in increasing order. */
  lemma {:induction false} LineEndsFromIncreasing(buf: seq<byte>, start: nat)
    requires start <= |buf|
    ensures StrictlyIncreasing(LineEndsFrom(buf, start))
    decreases |buf| - start
  {
    match FirstNewline(buf, start)
    case None =>
    case Some(p) =>
      var rest := LineEndsFrom(buf, p + 1);
      LineEndsFromIncreasing(buf, p + 1);
      var r := [p + 1] + rest;
      forall i, k | 0 <= i < k < |r|
        ensures r[i] < r[k]
      {
        if i > 0 {
          assert rest[i - 1] < rest[k - 1];
        } else {
          assert r[k] == rest[k - 1];
        }
      }
  }

  /** The loop misses no newline. */
  lemma {:induction false} LineEndsFromComplete(buf: seq<byte>, start: nat, j: nat)
    requires start <= j < |buf| && buf[j] == NL
    ensures j + 1 in LineEndsFrom(buf, start)
    decreases |buf| - start
  {
    match FirstNewline(buf, start)
    case None =>
    case Some(p) =>
      if j > p {
        LineEndsFromComplete(buf, p + 1, j);
      }
  }

  /** The line ends of a chunk: one past every newline, then the chunk
      length if the chunk does not end with a newline. An empty chunk has
      the single line end 0. */
  function LineEnds(buf: seq<byte>): (le: seq<nat>)
    ensures |le| >= 1 && Last(le) == |buf| && StrictlyIncreasing(le)
    ensures forall k | 0 <= k < |le| - 1 :: 0 < le[k] && buf[le[k] - 1] == NL
  {
    var found := LineEndsFrom(buf, 0);
    LineEndsFromIncreasing(buf, 0);
    if |found| == 0 || Last(found) < |buf| then found + [|buf|] else found
  }

  /** Every newline ends a line: together with `LineEnds`'s contract, the
      line ends are exactly the offsets after each newline and the chunk
      length. */
  lemma NewlineEndsLine(buf: seq<byte>, j: nat)
    requires j < |buf| && buf[j] == NL
    ensures j + 1 in LineEnds(buf)
  {
    LineEndsFromComplete(buf, 0, j);
  }

  /** The text of line `i`: its bytes without the terminating newline. */
  function LineText(buf: seq<byte>, le: seq<nat>, i: nat): seq<byte>
    requires i < |le| && NonDecreasing(le) && Last(le) <= |buf|
  {
    var s := Start(le, i);
    var e := le[i];
    if s < e && buf[e - 1] == NL then buf[s..e - 1] else buf[s..e]
  }

  /** No line end lies strictly inside a line. */
  lemma NoEndInside(le: seq<nat>, i: nat, x: nat)
    requires StrictlyIncreasing(le) && i < |le| && Start(le, i) < x < le[i]
    ensures x !in le
  {
    forall k | 0 <= k < |le|
      ensures le[k] != x
    {
      if k < i {
        assert le[k] <= le[i - 1];
      }
    }
  }

  /** A line's text holds no newline, and the line is its text followed by
      the newline that ended it, if any; only the last line can lack one. */
  lemma LineTextIsLine(buf: seq<byte>, i: nat)
    requires i < |LineEnds(buf)|
    ensures var le := LineEnds(buf);
      && NoNewline(LineText(buf, le, i), 0, |LineText(buf, le, i)|)
      && (i < |le| - 1 ==> ChunkBytes(buf, le, i) == LineText(buf, le, i) + [NL])
      && (ChunkBytes(buf, le, i) == LineText(buf, le, i) || ChunkBytes(buf, le, i) == LineText(buf, le, i) + [NL])
  {
    var le := LineEnds(buf);
    var s := Start(le, i);
    var e := le[i];
    var t := LineText(buf, le, i);
    if i > 0 {
      assert le[i - 1] < le[i];
    }
    assert s <= e;
    if i < |le| - 1 {
      assert 0 < e && buf[e - 1] == NL;
      assert t == buf[s..e - 1];
      assert buf[s..e] == buf[s..e - 1] + [NL];
    }
    LineTextNoNewline(buf, i);
    if s < e && buf[e - 1] == NL {
      assert buf[s..e] == buf[s..e - 1] + [NL];
    }
  }

  /** No byte of a line's text is a newline: a newline inside it would end
      a line there. */
  lemma LineTextNoNewline(buf: seq<byte>, i: nat)
    requires i < |LineEnds(buf)|
    ensures NoNewline(LineText(buf, LineEnds(buf), i), 0, |LineText(buf, LineEnds(buf), i)|)
  {
    var le := LineEnds(buf);
    var s := Start(le, i);
    var e := le[i];
    var t := LineText(buf, le, i);
    if i > 0 {
      assert le[i - 1] < le[i];
    }
    assert s + |t| < e || (s + |t| == e && (s == e || buf[e - 1] != NL));
    forall j | 0 <= j < |t|
      ensures t[j] != NL
    {
      assert t[j] == buf[s + j];
      if buf[s + j] == NL {
        NewlineEndsLine(buf, s + j);
        NoEndInside(le, i, s + j + 1);
      }
    }
  }

  /** The line ends tile the chunk: laid end to end, the lines give the
      chunk back. */
  lemma LinesTileBuffer(buf: seq<byte>)
    ensures Chunks(buf, LineEnds(buf), |LineEnds(buf)|) == buf
  {
    ChunksCoverFile(buf, LineEnds(buf));
  }

  /** The slice `buf[start..end-1]` the annotation loop matches against, as
      written. `None` stands for the panic of a slice whose end lies before
      its start or past the buffer, or of `end - 1` with `end == 0`. */
  function LineTextAsWritten(buf: seq<byte>, le: seq<nat>, i: nat): Option<seq<byte>>
    requires i < |le| && NonDecreasing(le)
  {
    var s := Start(le, i);
    var e := le[i];
    if e == 0 || e - 1 < s || e - 1 > |buf| then None else Some(buf[s..e - 1])
  }

  /** As written, every line that ends with a newline is matched on its
      text; the last line of a chunk that does not end with a newline is
      matched without its last byte, and an empty chunk panics. */
  lemma LineTextAsWrittenDropsLastByte(buf: seq<byte>, i: nat)
    requires i < |LineEnds(buf)|
    ensures var le := LineEnds(buf);
      && (buf[Start(le, i)..le[i]] != [] && buf[le[i] - 1] == NL ==>
            LineTextAsWritten(buf, le, i) == Some(LineText(buf, le, i)))
      && (buf[Start(le, i)..le[i]] != [] && buf[le[i] - 1] != NL ==>
            LineTextAsWritten(buf, le, i) == Some(LineText(buf, le, i)[..|LineText(buf, le, i)| - 1]))
      && (|buf| == 0 ==> LineTextAsWritten(buf, le, i).None?)
  {
    var le := LineEnds(buf);
    var s := Start(le, i);
    var e := le[i];
    if i > 0 {
      assert le[i - 1] < le[i];
    }
    if |buf| == 0 {
      assert |le| == 1;
    } else if s < e && buf[e - 1] != NL {
      assert LineText(buf, le, i) == buf[s..e];
      assert buf[s..e][..e - s - 1] == buf[s..e - 1];
    }
  }

  /** A chunk holding `ab` with no final newline is matched as `a`: a
      pattern on the last word of a file is missed in the chunk cache. */
  lemma LastByteDroppedExample()
    ensures var buf: seq<byte> := [97, 98];
      && LineEnds(buf) == [2]
      && LineText(buf, [2], 0) == [97, 98]
      && LineTextAsWritten(buf, [2], 0) == Some([97])
  {
    NoNewlineLineEnds();
    NoNewlineTexts();
  }

  /** The line of `ab` is `ab`; as written it is matched as `a`. */
  lemma NoNewlineTexts()
    ensures LineText([97, 98], [2], 0) == [97, 98]
    ensures LineTextAsWritten([97, 98], [2], 0) == Some([97])
  {
    var buf: seq<byte> := [97, 98];
    assert Start([2], 0) == 0;
    assert buf[1] != NL;
    assert buf[0..2] == [97, 98];
    assert buf[0..1] == [97];
  }

  /** A chunk of two bytes, neither a newline, is one line. */
  lemma NoNewlineLineEnds()
    ensures LineEnds([97, 98]) == [2]
  {
    var buf: seq<byte> := [97, 98];
    assert FirstNewline(buf, 0).None? by {
      assert FirstNewline(buf, 1).None?;
    }
    assert LineEndsFrom(buf, 0) == [];
  }

  /** The bytes line `i` is matched on: as written (`asWritten`) the slice
      `buf[start..end-1]`, whose `None` is its panic; corrected, the line's
      text. */
  function MatchText(buf: seq<byte>, le: seq<nat>, i: nat, asWritten: bool): Option<seq<byte>>
    requires i < |le| && NonDecreasing(le) && Last(le) <= |buf|
  {
    if asWritten then LineTextAsWritten(buf, le, i) else Some(LineText(buf, le, i))
  }

  /** Over a chunk's own line ends, the slice as written panics exactly in
      an empty chunk; the corrected text never fails. */
  lemma MatchTextFails(buf: seq<byte>, i: nat, asWritten: bool)
    requires i < |LineEnds(buf)|
    ensures MatchText(buf, LineEnds(buf), i, asWritten).None? <==> asWritten && |buf| == 0
  {
    var le := LineEnds(buf);
    if i > 0 {
      assert le[i - 1] < le[i];
    }
    if |buf| > 0 && i == 0 && |le| > 1 {
      assert 0 < le[0];
    }
  }

  /** The matched bytes of line `i` match `re`. */
  predicate LineMatches(engine: Engine, re: RegexSet, buf: seq<byte>, le: seq<nat>, i: nat, asWritten: bool)
    requires NonDecreasing(le) && |le| > 0 && Last(le) <= |buf|
  {
    && i < |le|
    && MatchText(buf, le, i, asWritten).Some?
    && IsMatch(engine, re, MatchText(buf, le, i, asWritten).value)
  }

  /** The indices below `n` of the lines whose matched bytes `re` matches,
      in order. */
  function MatchingLines(engine: Engine, re: RegexSet, buf: seq<byte>, le: seq<nat>, n: nat, asWritten: bool)
    : (r: seq<nat>)
    requires n <= |le| && NonDecreasing(le) && |le| > 0 && Last(le) <= |buf|
    ensures StrictlyIncreasing(r)
    ensures forall i: nat :: i in r <==> i < n && LineMatches(engine, re, buf, le, i, asWritten)
  {
    if n == 0 then []
    else
      var rest := MatchingLines(engine, re, buf, le, n - 1, asWritten);
      MatchingLinesStep(engine, re, buf, le, n, rest, asWritten);
      if LineMatches(engine, re, buf, le, n - 1, asWritten) then rest + [n - 1] else rest
  }

  /** Line `n - 1` joins the matching lines below it exactly when it
      matches. */
  lemma MatchingLinesStep(engine: Engine, re: RegexSet, buf: seq<byte>, le: seq<nat>, n: nat, rest: seq<nat>,
    asWritten: bool)
    requires 0 < n <= |le| && NonDecreasing(le) && Last(le) <= |buf|
    requires StrictlyIncreasing(rest)
    requires forall i: nat :: i in rest <==> i < n - 1 && LineMatches(engine, re, buf, le, i, asWritten)
    ensures var r := if LineMatches(engine, re, buf, le, n - 1, asWritten) then rest + [n - 1] else rest;
      && StrictlyIncreasing(r)
      && forall i: nat :: i in r <==> i < n && LineMatches(engine, re, buf, le, i, asWritten)
  {
    if LineMatches(engine, re, buf, le, n - 1, asWritten) {
      assert forall k | 0 <= k < |rest| :: rest[k] in rest;
      AppendAbove(rest, n - 1);
    }
  }

  /** Whether every line below `n` can be sliced: the annotation loop
      panics at the first one that cannot. */
  function SlicesOk(buf: seq<byte>, le: seq<nat>, n: nat, asWritten: bool): (ok: bool)
    requires n <= |le| && NonDecreasing(le) && |le| > 0 && Last(le) <= |buf|
    ensures ok <==> forall i | 0 <= i < n :: MatchText(buf, le, i, asWritten).Some?
  {
    if n == 0 then true
    else
      var rest := SlicesOk(buf, le, n - 1, asWritten);
      rest && MatchText(buf, le, n - 1, asWritten).Some?
  }

  /** Over a chunk's own line ends, every slice succeeds except as written
      in an empty chunk. */
  lemma SlicesOkExactly(buf: seq<byte>, asWritten: bool)
    ensures SlicesOk(buf, LineEnds(buf), |LineEnds(buf)|, asWritten) <==> !asWritten || |buf| > 0
  {
    var le := LineEnds(buf);
    if !asWritten || |buf| > 0 {
      forall i | 0 <= i < |le|
        ensures MatchText(buf, le, i, asWritten).Some?
      {
        MatchTextFails(buf, i, asWritten);
      }
    } else {
      MatchTextFails(buf, 0, asWritten);
    }
  }

  /** The annotation loop of `SplitCache::get`: the matching lines of the
      tag, search and hide match sets, or `None` for the panic of a slice
      that cannot be taken. */
  function Annotate(engine: Engine, pats: PatternSet, sp: Split, asWritten: bool): (r: Option<Split>)
    requires |sp.lineEnds| > 0 && NonDecreasing(sp.lineEnds) && Last(sp.lineEnds) <= |sp.buf|
    ensures r.None? <==> exists i | 0 <= i < |sp.lineEnds| :: MatchText(sp.buf, sp.lineEnds, i, asWritten).None?
    ensures r.Some? ==> Annotated(engine, pats, r.value, asWritten)
    ensures r.Some? ==> r.value.buf == sp.buf && r.value.lineEnds == sp.lineEnds
  {
    var n := |sp.lineEnds|;
    if !SlicesOk(sp.buf, sp.lineEnds, n, asWritten) then None
    else
      Some(sp.(patternSeq := pats.seqNo,
               tagged := MatchingLines(engine, pats.taggedRe, sp.buf, sp.lineEnds, n, asWritten),
               search := MatchingLines(engine, pats.searchRe, sp.buf, sp.lineEnds, n, asWritten),
               hidden := MatchingLines(engine, pats.hiddenRe, sp.buf, sp.lineEnds, n, asWritten)))
  }

  /** A chunk is annotated under `pats`: it carries `pats`'s sequence
      number and each list holds exactly the lines its match set matches. */
  ghost predicate Annotated(engine: Engine, pats: PatternSet, sp: Split, asWritten: bool) {
    && |sp.lineEnds| > 0 && NonDecreasing(sp.lineEnds) && Last(sp.lineEnds) <= |sp.buf|
    && sp.patternSeq == pats.seqNo
    && StrictlyIncreasing(sp.tagged) && StrictlyIncreasing(sp.search) && StrictlyIncreasing(sp.hidden)
    && (forall i: nat :: i in sp.tagged <==> LineMatches(engine, pats.taggedRe, sp.buf, sp.lineEnds, i, asWritten))
    && (forall i: nat :: i in sp.search <==> LineMatches(engine, pats.searchRe, sp.buf, sp.lineEnds, i, asWritten))
    && (forall i: nat :: i in sp.hidden <==> LineMatches(engine, pats.hiddenRe, sp.buf, sp.lineEnds, i, asWritten))
  }

  /** Two annotations of the same lines under the same pattern set are the
      same: the lists are determined by what they contain. */
  lemma AnnotatedIsUnique(engine: Engine, pats: PatternSet, a: Split, b: Split, asWritten: bool)
    requires Annotated(engine, pats, a, asWritten) && Annotated(engine, pats, b, asWritten)
    requires a.buf == b.buf && a.lineEnds == b.lineEnds
    ensures a == b
  {
    SortedSetsEqual(a.tagged, b.tagged);
    SortedSetsEqual(a.search, b.search);
    SortedSetsEqual(a.hidden, b.hidden);
  }

  /** Two strictly increasing lists with the same elements are equal. */
  lemma {:induction false} SortedSetsEqual(a: seq<nat>, b: seq<nat>)
    requires StrictlyIncreasing(a) && StrictlyIncreasing(b)
    requires forall x :: x in a <==> x in b
    ensures a == b
    decreases |a|
  {
    if |a| > 0 {
      assert a[0] in b;
    }
    if |b| > 0 {
      assert b[0] in a;
    }
    if |a| > 0 && |b| > 0 {
      assert a[0] == b[0] by {
        assert a[0] in b && b[0] in a;
      }
      forall x
        ensures x in a[1..] <==> x in b[1..]
      {
        if x in a[1..] {
          assert x in b && x != b[0];
        }
        if x in b[1..] {
          assert x in a && x != a[0];
        }
      }
      SortedSetsEqual(a[1..], b[1..]);
      assert a == [a[0]] + a[1..] && b == [b[0]] + b[1..];
    }
  }

  /** A chunk read fresh from the file and annotated: as written an empty
      chunk panics. */
  function Fresh(file: seq<byte>, bounds: seq<nat>, id: nat, engine: Engine, pats: PatternSet, asWritten: bool)
    : (r: Option<Split>)
    requires id < |bounds| && NonDecreasing(bounds) && Last(bounds) <= |file|
    ensures r.None? <==> asWritten && ChunkLen(bounds, id) == 0
    ensures r.Some? ==> Annotated(engine, pats, r.value, asWritten)
    ensures r.Some? ==> r.value.buf == ChunkBytes(file, bounds, id) && r.value.lineEnds == LineEnds(r.value.buf)
  {
    var buf := ChunkBytes(file, bounds, id);
    SlicesOkExactly(buf, asWritten);
    Annotate(engine, pats, Split(pats.seqNo, buf, LineEnds(buf), [], [], []), asWritten)
  }

  /** `LruCache<SplitId, Split>`: entries from least to most recently
      used, at most `cap` of them. */
  datatype Lru = Lru(cap: nat, entries: seq<(nat, Split)>)

  predicate KeysUnique(entries: seq<(nat, Split)>) {
    forall i, j | 0 <= i < j < |entries| :: entries[i].0 != entries[j].0
  }

  /** The cache's own invariant: a positive capacity it never exceeds,
      unique keys, and chunks whose line ends fit their bytes. */
  ghost predicate LruOk(c: Lru) {
    && c.cap >= 1 && |c.entries| <= c.cap && KeysUnique(c.entries)
    && (forall j | 0 <= j < |c.entries| :: c.entries[j].1.lineEnds == LineEnds(c.entries[j].1.buf))
  }

  /** The chunk cached under `id`. */
  function Find(entries: seq<(nat, Split)>, id: nat): (r: Option<Split>)
    ensures r.Some? ==> (id, r.value) in entries
    ensures r.None? ==> forall j | 0 <= j < |entries| :: entries[j].0 != id
  {
    if |entries| == 0 then None
    else if entries[0].0 == id then Some(entries[0].1)
    else Find(entries[1..], id)
  }

  /** `LruCache::pop`: take the entry under `id` out. */
  function Pop(entries: seq<(nat, Split)>, id: nat): (r: (Option<Split>, seq<(nat, Split)>))
    requires KeysUnique(entries)
    ensures r.0 == Find(entries, id)
    ensures KeysUnique(r.1) && Find(r.1, id).None?
    ensures forall k | k != id :: Find(r.1, k) == Find(entries, k)
    ensures |r.1| == |entries| - (if r.0.Some? then 1 else 0)
    ensures forall j | 0 <= j < |r.1| :: r.1[j] in entries
  {
    if |entries| == 0 then (None, [])
    else if entries[0].0 == id then
      assert forall j | 0 < j < |entries| :: entries[j].0 != id;
      (Some(entries[0].1), entries[1..])
    else
      var (v, rest) := Pop(entries[1..], id);
      (v, [entries[0]] + rest)
  }

  /** `LruCache::put` of a key that is not cached: it becomes the most
      recent entry, evicting the least recent one when the cache is
      full. */
  function Put(c: Lru, id: nat, sp: Split): (r: Lru)
    requires c.cap >= 1 && |c.entries| <= c.cap && KeysUnique(c.entries) && Find(c.entries, id).None?
    ensures r.cap == c.cap && |r.entries| <= r.cap && KeysUnique(r.entries)
    ensures |r.entries| > 0 && Last(r.entries) == (id, sp)
    ensures Find(r.entries, id) == Some(sp)
    ensures forall k | k != id && Find(r.entries, k).Some? :: Find(r.entries, k) == Find(c.entries, k)
    ensures |c.entries| < c.cap ==> forall k | k != id :: Find(r.entries, k) == Find(c.entries, k)
    ensures forall j | 0 <= j < |r.entries| - 1 :: r.entries[j] in c.entries
  {
    var kept := if |c.entries| >= c.cap then c.entries[1..] else c.entries;
    var entries := kept + [(id, sp)];
    FindAppend(kept, id, sp);
    Lru(c.cap, entries)
  }

  /** Looking up a key in a list with one entry appended. */
  lemma {:induction false} FindAppend(entries: seq<(nat, Split)>, id: nat, sp: Split)
    requires Find(entries, id).None?
    ensures Find(entries + [(id, sp)], id) == Some(sp)
    ensures forall k | k != id :: Find(entries + [(id, sp)], k) == Find(entries, k)
    decreases |entries|
  {
    if |entries| > 0 {
      assert (entries + [(id, sp)])[1..] == entries[1..] + [(id, sp)];
      FindAppend(entries[1..], id, sp);
    }
  }

  /** The outcome of `SplitCache::get`: the chunk and the updated cache, a
      read error (the `?` on `read_exact`), or a panic. */
  datatype GetResult = Got(split: Split, lru: Lru) | ReadFailed(lru: Lru) | Fatal

  /** `SplitCache::get`: a cached chunk under the current sequence number
      is returned as it is; a cached chunk under an older one keeps its
      bytes and line ends and is annotated again; a missing chunk is read
      and annotated. Either way it becomes the most recent entry. A chunk id
      past the last chunk panics, and a read past the end of a file that
      has shrunk fails. As written (`asWritten`) the annotation of an empty
      chunk panics on `end - 1`. */
  function Get(c: Lru, file: seq<byte>, bounds: seq<nat>, id: nat, engine: Engine, pats: PatternSet,
    asWritten: bool): (r: GetResult)
    requires LruOk(c) && |bounds| >= 1 && NonDecreasing(bounds)
    ensures Find(c.entries, id).None? ==>
      (r.Fatal? <==> id >= |bounds| || (asWritten && ChunkLen(bounds, id) == 0))
    ensures Find(c.entries, id).Some? ==> var prev := Find(c.entries, id).value;
      (r.Fatal? <==> asWritten && prev.patternSeq != pats.seqNo && |prev.buf| == 0)
    ensures r.ReadFailed? <==>
      Find(c.entries, id).None? && id < |bounds| && bounds[id] > |file| && bounds[id] > Start(bounds, id)
    ensures r.ReadFailed? ==> r.lru == c
    ensures r.Got? ==> LruOk(r.lru) && |r.lru.entries| > 0 && Last(r.lru.entries) == (id, r.split)
    ensures r.Got? ==> r.split.patternSeq == pats.seqNo
    ensures r.Got? ==> forall k | k != id && Find(r.lru.entries, k).Some? :: Find(r.lru.entries, k) == Find(c.entries, k)
    ensures r.Got? && Find(c.entries, id).Some? ==> var prev := Find(c.entries, id).value;
      && r.split.buf == prev.buf && r.split.lineEnds == prev.lineEnds
      && (prev.patternSeq == pats.seqNo ==> r.split == prev)
      && (prev.patternSeq != pats.seqNo ==> Annotated(engine, pats, r.split, asWritten))
      && forall k | k != id :: Find(r.lru.entries, k) == Find(c.entries, k)
    ensures r.Got? && Find(c.entries, id).None? ==>
      && Last(bounds) <= |file| ==> Fresh(file, bounds, id, engine, pats, asWritten) == Some(r.split)
  {
    var (cached, rest) := Pop(c.entries, id);
    PopKeepsLruOk(c, id);
    var c1 := c.(entries := rest);
    match cached
    case Some(sp) =>
      FoundLineEnds(c, id);
      (match Reannotate(engine, pats, sp, asWritten)
       case None => Fatal
       case Some(sp') =>
         PutKeepsLruOk(c1, id, sp');
         Got(sp', Put(c1, id, sp')))
    case None => Load(c, c1, file, bounds, id, engine, pats, asWritten)
  }

  /** The miss case of `get`: read the chunk and annotate it, or fail as
      `Get` says; `c` is the cache before and `c1` the cache the chunk is
      put into. */
  function Load(c: Lru, c1: Lru, file: seq<byte>, bounds: seq<nat>, id: nat, engine: Engine, pats: PatternSet,
    asWritten: bool): (r: GetResult)
    requires LruOk(c1) && Find(c1.entries, id).None? && |bounds| >= 1 && NonDecreasing(bounds)
    ensures r.Fatal? <==> id >= |bounds| || (asWritten && ChunkLen(bounds, id) == 0)
    ensures r.ReadFailed? <==> id < |bounds| && bounds[id] > |file| && bounds[id] > Start(bounds, id)
    ensures r.ReadFailed? ==> r.lru == c
    ensures r.Got? ==> r.split.lineEnds == LineEnds(r.split.buf) && r.lru == Put(c1, id, r.split) && LruOk(r.lru)
    ensures r.Got? ==> r.split.patternSeq == pats.seqNo
    ensures r.Got? && Last(bounds) <= |file| ==> Fresh(file, bounds, id, engine, pats, asWritten) == Some(r.split)
  {
    match GetSplit(bounds, id)
    case None => Fatal
    case Some((start, end)) =>
      match ReadChunk(file, start, end)
      case None => ReadFailed(c)
      case Some(buf) =>
        assert Last(bounds) <= |file| ==> bounds[id] <= |file| && buf == ChunkBytes(file, bounds, id);
        SlicesOkExactly(buf, asWritten);
        match Annotate(engine, pats, Split(pats.seqNo, buf, LineEnds(buf), [], [], []), asWritten)
        case None => Fatal
        case Some(sp) =>
          PutKeepsLruOk(c1, id, sp);
          Got(sp, Put(c1, id, sp))
  }

  /** `read_exact` of the bytes `[start, end)` after a seek to `start`: it
      fails when the file ends before `end`, unless nothing is to be
      read. */
  function ReadChunk(file: seq<byte>, start: nat, end: nat): (r: Option<seq<byte>>)
    requires start <= end
    ensures r.None? <==> end > |file| && end > start
    ensures r.Some? ==> |r.value| == end - start
    ensures r.Some? && end <= |file| ==> r.value == file[start..end]
  {
    if end == start then Some([])
    else if end > |file| then None
    else Some(file[start..end])
  }

  /** The hit and stale cases of `get`: a chunk stamped with the current
      sequence number is kept as it is, any other is annotated again over
      the same bytes and line ends, which as written panics on an empty
      chunk. */
  function Reannotate(engine: Engine, pats: PatternSet, sp: Split, asWritten: bool): (r: Option<Split>)
    requires sp.lineEnds == LineEnds(sp.buf)
    ensures r.None? <==> sp.patternSeq != pats.seqNo && asWritten && |sp.buf| == 0
    ensures r.Some? ==> r.value.buf == sp.buf && r.value.lineEnds == sp.lineEnds && r.value.patternSeq == pats.seqNo
    ensures sp.patternSeq == pats.seqNo ==> r == Some(sp)
    ensures sp.patternSeq != pats.seqNo && r.Some? ==> Annotated(engine, pats, r.value, asWritten)
  {
    if sp.patternSeq == pats.seqNo then Some(sp)
    else
      SlicesOkExactly(sp.buf, asWritten);
      Annotate(engine, pats, sp, asWritten)
  }

  /** Taking an entry out keeps the cache's invariant. */
  lemma PopKeepsLruOk(c: Lru, id: nat)
    requires LruOk(c)
    ensures LruOk(c.(entries := Pop(c.entries, id).1))
  {
    var rest := Pop(c.entries, id).1;
    forall j | 0 <= j < |rest|
      ensures rest[j].1.lineEnds == LineEnds(rest[j].1.buf)
    {
      var q :| 0 <= q < |c.entries| && c.entries[q] == rest[j];
    }
  }

  /** A cached chunk's line ends fit its bytes. */
  lemma FoundLineEnds(c: Lru, id: nat)
    requires LruOk(c) && Find(c.entries, id).Some?
    ensures Find(c.entries, id).value.lineEnds == LineEnds(Find(c.entries, id).value.buf)
  {
    var q :| 0 <= q < |c.entries| && c.entries[q] == (id, Find(c.entries, id).value);
  }

  /** `Put` of a chunk whose line ends fit its bytes keeps the cache's
      invariant. */
  lemma PutKeepsLruOk(c: Lru, id: nat, sp: Split)
    requires LruOk(c) && Find(c.entries, id).None? && sp.lineEnds == LineEnds(sp.buf)
    ensures LruOk(Put(c, id, sp))
  {
    var r := Put(c, id, sp);
    forall j | 0 <= j < |r.entries|
      ensures r.entries[j].1.lineEnds == LineEnds(r.entries[j].1.buf)
    {
      if j < |r.entries| - 1 {
        assert r.entries[j] in c.entries;
        var q :| 0 <= q < |c.entries| && c.entries[q] == r.entries[j];
      }
    }
  }

  /** The cache is coherent with the file and the pattern set: every entry
      holds its chunk's bytes and line ends, and any entry stamped with the
      current sequence number carries the current annotation. */
  ghost predicate CacheOk(c: Lru, file: seq<byte>, bounds: seq<nat>, engine: Engine, pats: PatternSet,
    asWritten: bool)
  {
    && LruOk(c) && |bounds| >= 1 && NonDecreasing(bounds) && Last(bounds) <= |file|
    && forall j | 0 <= j < |c.entries| :: EntryOk(c.entries[j], file, bounds, engine, pats, asWritten)
  }

  /** A correct entry. As written an empty chunk is never cached: its
      annotation panics first. */
  ghost predicate EntryOk(e: (nat, Split), file: seq<byte>, bounds: seq<nat>, engine: Engine, pats: PatternSet,
    asWritten: bool)
    requires NonDecreasing(bounds) && |bounds| >= 1 && Last(bounds) <= |file|
  {
    var (k, sp) := e;
    && k < |bounds|
    && sp.buf == ChunkBytes(file, bounds, k)
    && sp.lineEnds == LineEnds(sp.buf)
    && (asWritten ==> |sp.buf| > 0)
    && sp.patternSeq <= pats.seqNo
    && (sp.patternSeq == pats.seqNo ==> Annotated(engine, pats, sp, asWritten))
  }

  /** On a coherent cache `get` never fails to read, panics exactly on an
      unknown id or, as written, on an empty chunk, and otherwise returns
      exactly the chunk a fresh read gives. */
  lemma GetIsFresh(c: Lru, file: seq<byte>, bounds: seq<nat>, id: nat, engine: Engine, pats: PatternSet,
    asWritten: bool)
    requires CacheOk(c, file, bounds, engine, pats, asWritten)
    ensures var r := Get(c, file, bounds, id, engine, pats, asWritten);
      && !r.ReadFailed?
      && (r.Fatal? <==> id >= |bounds| || (asWritten && ChunkLen(bounds, id) == 0))
      && (r.Got? ==> Fresh(file, bounds, id, engine, pats, asWritten) == Some(r.split))
  {
    if Find(c.entries, id).Some? {
      GetHitIsFresh(c, file, bounds, id, engine, pats, asWritten);
    } else {
      GetMissIsFresh(c, file, bounds, id, engine, pats, asWritten);
    }
  }

  /** The miss case of `GetIsFresh`: the read cannot fail on a file the
      boundaries fit in, the panic is an id past the last chunk or, as
      written, an empty chunk, and the chunk returned is a fresh read. */
  lemma GetMissIsFresh(c: Lru, file: seq<byte>, bounds: seq<nat>, id: nat, engine: Engine, pats: PatternSet,
    asWritten: bool)
    requires LruOk(c) && |bounds| >= 1 && NonDecreasing(bounds) && Last(bounds) <= |file|
    requires Find(c.entries, id).None?
    ensures var r := Get(c, file, bounds, id, engine, pats, asWritten);
      && !r.ReadFailed?
      && (r.Fatal? <==> id >= |bounds| || (asWritten && ChunkLen(bounds, id) == 0))
      && (r.Got? ==> Fresh(file, bounds, id, engine, pats, asWritten) == Some(r.split))
  {
    if id < |bounds| {
      assert bounds[id] <= Last(bounds);
    }
  }

  /** The hit and stale cases of `GetIsFresh`: a cached chunk is not empty
      as written, so neither case panics. */
  lemma GetHitIsFresh(c: Lru, file: seq<byte>, bounds: seq<nat>, id: nat, engine: Engine, pats: PatternSet,
    asWritten: bool)
    requires CacheOk(c, file, bounds, engine, pats, asWritten) && Find(c.entries, id).Some?
    ensures id < |bounds| && (asWritten ==> ChunkLen(bounds, id) > 0)
    ensures var r := Get(c, file, bounds, id, engine, pats, asWritten);
      r.Got? && Fresh(file, bounds, id, engine, pats, asWritten) == Some(r.split)
  {
    var prev := Find(c.entries, id).value;
    FoundEntryOk(c, file, bounds, engine, pats, id, asWritten);
    var r := Get(c, file, bounds, id, engine, pats, asWritten);
    var f := Fresh(file, bounds, id, engine, pats, asWritten);
    assert Annotated(engine, pats, r.split, asWritten);
    AnnotatedIsUnique(engine, pats, r.split, f.value, asWritten);
  }

  /** `get` leaves a coherent cache coherent. */
  lemma GetKeepsCoherence(c: Lru, file: seq<byte>, bounds: seq<nat>, id: nat, engine: Engine, pats: PatternSet,
    asWritten: bool)
    requires CacheOk(c, file, bounds, engine, pats, asWritten)
    ensures var r := Get(c, file, bounds, id, engine, pats, asWritten);
      r.Got? ==> CacheOk(r.lru, file, bounds, engine, pats, asWritten)
  {
    var r := Get(c, file, bounds, id, engine, pats, asWritten);
    if r.Got? {
      GetIsFresh(c, file, bounds, id, engine, pats, asWritten);
      assert EntryOk((id, r.split), file, bounds, engine, pats, asWritten);
      forall j | 0 <= j < |r.lru.entries|
        ensures EntryOk(r.lru.entries[j], file, bounds, engine, pats, asWritten)
      {
        KeptEntryOk(c, r.lru, file, bounds, engine, pats, id, r.split, j, asWritten);
      }
    }
  }

  /** An entry of a cache that adds one correct entry to a coherent cache
      is correct. */
  lemma KeptEntryOk(c: Lru, c': Lru, file: seq<byte>, bounds: seq<nat>, engine: Engine, pats: PatternSet,
    id: nat, sp: Split, j: nat, asWritten: bool)
    requires CacheOk(c, file, bounds, engine, pats, asWritten) && LruOk(c')
    requires |c'.entries| > 0 && Last(c'.entries) == (id, sp)
    requires EntryOk((id, sp), file, bounds, engine, pats, asWritten)
    requires forall k | k != id && Find(c'.entries, k).Some? :: Find(c'.entries, k) == Find(c.entries, k)
    requires j < |c'.entries|
    ensures EntryOk(c'.entries[j], file, bounds, engine, pats, asWritten)
  {
    var k := c'.entries[j].0;
    if k != id {
      FindUnique(c'.entries, j);
      FoundEntryOk(c, file, bounds, engine, pats, k, asWritten);
    }
  }

  /** A cached chunk of a coherent cache is correct for its key. */
  lemma FoundEntryOk(c: Lru, file: seq<byte>, bounds: seq<nat>, engine: Engine, pats: PatternSet, k: nat,
    asWritten: bool)
    requires CacheOk(c, file, bounds, engine, pats, asWritten) && Find(c.entries, k).Some?
    ensures EntryOk((k, Find(c.entries, k).value), file, bounds, engine, pats, asWritten)
  {
    var q :| 0 <= q < |c.entries| && c.entries[q] == (k, Find(c.entries, k).value);
  }

  /** With unique keys an entry is what `Find` returns for its key. */
  lemma {:induction false} FindUnique(entries: seq<(nat, Split)>, j: nat)
    requires KeysUnique(entries) && j < |entries|
    ensures Find(entries, entries[j].0) == Some(entries[j].1)
    decreases j
  {
    if j > 0 {
      FindUnique(entries[1..], j - 1);
    }
  }

  /** Every change of the pattern set moves the sequence number past every
      stamp in the cache, so a coherent cache stays coherent: no entry is
      taken for current, and each is re-annotated on its next `get`. */
  lemma PatternChangeKeepsCoherence(c: Lru, file: seq<byte>, bounds: seq<nat>, engine: Engine,
    pats: PatternSet, pats': PatternSet, asWritten: bool)
    requires CacheOk(c, file, bounds, engine, pats, asWritten)
    requires pats'.seqNo > pats.seqNo
    ensures CacheOk(c, file, bounds, engine, pats', asWritten)
    ensures forall j | 0 <= j < |c.entries| :: c.entries[j].1.patternSeq < pats'.seqNo
  {
    forall j | 0 <= j < |c.entries|
      ensures EntryOk(c.entries[j], file, bounds, engine, pats', asWritten)
    {
      assert EntryOk(c.entries[j], file, bounds, engine, pats, asWritten);
    }
  }

  /** The duplicated final boundary of `split_file` leaves an empty last
      chunk; as written `get` of it panics, while the corrected annotation
      returns it with its one empty line. */
  lemma EmptyChunkPanics(file: seq<byte>, engine: Engine, pats: PatternSet)
    requires |file| > 0
    ensures var bounds := [|file|, |file|];
      && Get(Lru(1, []), file, bounds, 1, engine, pats, true).Fatal?
      && Get(Lru(1, []), file, bounds, 1, engine, pats, false).Got?
  {
    var bounds := [|file|, |file|];
    assert NonDecreasing(bounds);
    assert ChunkLen(bounds, 1) == 0;
  }
}
