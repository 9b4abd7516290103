/** Line navigation of `src/lines.rs`: manual tags and hides, resolving a
    byte offset to a chunk and line, the per-line and per-chunk filters of
    each display mode, and the walks to the next and previous shown line.
    The chunk cache and the background scanner appear through what they
    answer: the annotated chunk a `get` returns and the has-matches bit a
    clean chunk reports. */
module Lines {
  import opened Wrappers
  import opened Bytes
  import opened Seqs
  import opened Partition
  import opened Patterns
  import opened Cache

  datatype DisplayMode = All | Normal | Tagged | Manual

  /** `SearchType`: which match class a walk follows. */
  datatype SearchType = Tag | Search

  /** `toggle_tag` and `toggle_hide` on the set of manually marked line
      ids. */
  function Toggle(marks: set<nat>, id: nat): (r: set<nat>)
    ensures id in r <==> id !in marks
    ensures forall x | x != id :: x in r <==> x in marks
  {
    if id in marks then marks - {id} else marks + {id}
  }

  /** Toggling twice restores the marks. */
  lemma ToggleTwice(marks: set<nat>, id: nat)
    ensures Toggle(Toggle(marks, id), id) == marks
  {
  }

  /** The manual marks of `Lines`: tagged and hidden line ids. */
  datatype Marks = Marks(tags: set<nat>, hides: set<nat>)

  function ToggleTag(m: Marks, id: nat): (r: Marks)
    ensures IsTagged(r, id) == !IsTagged(m, id) && r.hides == m.hides
    ensures forall x | x != id :: IsTagged(r, x) == IsTagged(m, x)
  {
    m.(tags := Toggle(m.tags, id))
  }

  function ToggleHide(m: Marks, id: nat): (r: Marks)
    ensures IsHidden(r, id) == !IsHidden(m, id) && r.tags == m.tags
    ensures forall x | x != id :: IsHidden(r, x) == IsHidden(m, x)
  {
    m.(hides := Toggle(m.hides, id))
  }

  predicate IsTagged(m: Marks, id: nat) {
    id in m.tags
  }

  predicate IsHidden(m: Marks, id: nat) {
    id in m.hides
  }

  /** What a walk sees: the chunk boundaries, the annotated chunk `get`
      returns for each chunk, the has-matches bits of the search and tag
      classes, the `all_hidden_splits` bitmap, and the manual marks. */
  datatype Ctx = Ctx(
    bounds: seq<nat>,
    chunks: seq<Split>,
    searchHas: seq<bool>,
    tagHas: seq<bool>,
    allHidden: seq<bool>,
    marks: Marks)

  /** Chunk `c`'s line ends are increasing, fill the chunk, and only the
      line end of an empty chunk is 0. */
  ghost predicate ChunkOk(ctx: Ctx, c: nat)
    requires c < |ctx.bounds| && c < |ctx.chunks| && NonDecreasing(ctx.bounds)
  {
    var le := ctx.chunks[c].lineEnds;
    && |le| >= 1 && StrictlyIncreasing(le)
    && Last(le) == ChunkLen(ctx.bounds, c)
    && (le[0] == 0 ==> |le| == 1)
  }

  ghost predicate Valid(ctx: Ctx) {
    && |ctx.bounds| >= 1 && NonDecreasing(ctx.bounds)
    && |ctx.chunks| == |ctx.bounds| && |ctx.searchHas| == |ctx.bounds|
    && |ctx.tagHas| == |ctx.bounds| && |ctx.allHidden| == |ctx.bounds|
    && forall c | 0 <= c < |ctx.bounds| :: ChunkOk(ctx, c)
  }

  /** The line ends of chunk `c`. */
  function Ends(ctx: Ctx, c: nat): (le: seq<nat>)
    requires Valid(ctx) && c < |ctx.bounds|
    ensures le == ctx.chunks[c].lineEnds && |le| >= 1 && StrictlyIncreasing(le)
    ensures Last(le) == ChunkLen(ctx.bounds, c) && (le[0] == 0 ==> |le| == 1)
  {
    assert ChunkOk(ctx, c);
    ctx.chunks[c].lineEnds
  }

  /** The line id (file offset) of the start of line `k` of chunk `c`; `k`
      may be one past the last line, naming the chunk's end. */
  function LineStart(ctx: Ctx, c: nat, k: nat): nat
    requires Valid(ctx) && c < |ctx.bounds| && k <= |Ends(ctx, c)|
  {
    Start(ctx.bounds, c) + (if k == 0 then 0 else Ends(ctx, c)[k - 1])
  }

  /** `resolve_line_id`: the chunk holding an offset and the index of the
      line within it that holds the offset. */
  function Resolve(ctx: Ctx, lineId: nat): (r: Option<(nat, nat)>)
    requires Valid(ctx)
    ensures r.None? <==> lineId >= Last(ctx.bounds)
    ensures r.Some? ==> var (c, i) := r.value;
      && c < |ctx.bounds| && i < |Ends(ctx, c)|
      && LineStart(ctx, c, i) <= lineId < Start(ctx.bounds, c) + Ends(ctx, c)[i]
  {
    match FindSplit(ctx.bounds, lineId)
    case None => None
    case Some(c) =>
      var le := Ends(ctx, c);
      var rel := lineId - Start(ctx.bounds, c);
      var i := UpperBound(le, rel);
      Some((c, i))
  }

  /** A line of a non-empty chunk starts inside the chunk, before its own
      end. */
  lemma LineInChunk(ctx: Ctx, c: nat, i: nat)
    requires Valid(ctx) && c < |ctx.bounds| && ChunkLen(ctx.bounds, c) > 0
    requires i < |Ends(ctx, c)|
    ensures Start(ctx.bounds, c) <= LineStart(ctx, c, i) < Start(ctx.bounds, c) + Ends(ctx, c)[i]
    ensures Start(ctx.bounds, c) + Ends(ctx, c)[i] <= ctx.bounds[c]
  {
    var le := Ends(ctx, c);
    if i > 0 {
      assert le[i - 1] < le[i];
    } else if |le| > 1 {
      assert le[0] < le[1];
    }
    if i < |le| - 1 {
      assert le[i] < Last(le);
    }
  }

  /** Chunks do not overlap: an offset lies in at most one. */
  lemma OffsetInOneChunk(bs: seq<nat>, off: nat, a: nat, b: nat)
    requires NonDecreasing(bs) && a < |bs| && b < |bs|
    requires Start(bs, a) <= off < bs[a] && Start(bs, b) <= off < bs[b]
    ensures a == b
  {
    assert forall j | 0 <= j < b :: bs[j] <= Start(bs, b);
    assert forall j | b < j < |bs| :: bs[b] <= Start(bs, j);
  }

  /** Resolving the start of a line of a non-empty chunk gives that line
      back. */
  lemma ResolveLineStart(ctx: Ctx, c: nat, i: nat)
    requires Valid(ctx) && c < |ctx.bounds| && ChunkLen(ctx.bounds, c) > 0
    requires i < |Ends(ctx, c)|
    ensures Resolve(ctx, LineStart(ctx, c, i)) == Some((c, i))
  {
    var le := Ends(ctx, c);
    var id := LineStart(ctx, c, i);
    LineInChunk(ctx, c, i);
    var f := FindSplit(ctx.bounds, id);
    OffsetInOneChunk(ctx.bounds, id, f.value, c);
    var rel := id - Start(ctx.bounds, c);
    var u := UpperBound(le, rel);
    assert u <= i by {
      assert rel < le[i];
    }
    assert i <= u by {
      if i > 0 {
        assert le[i - 1] <= rel;
      }
    }
  }

  /** `is_filtered` for line `k` of chunk `c`. `None` is the panic of
      reading the line end before a line index past the chunk's last
      line. */
  function IsFiltered(ctx: Ctx, st: SearchType, mode: DisplayMode, c: nat, k: nat): (r: Option<bool>)
    requires Valid(ctx) && c < |ctx.bounds|
    ensures k < |Ends(ctx, c)| ==> r.Some?
    ensures k in ctx.chunks[c].search ==> r == Some(false)
    ensures k !in ctx.chunks[c].search && st == SearchType.Search ==> r == Some(true)
    ensures r.Some? && mode == All && st == Tag ==> r == Some(false)
    ensures k !in ctx.chunks[c].search && st == Tag && k > |Ends(ctx, c)| ==> r.None?
  {
    var sp := ctx.chunks[c];
    if k in sp.search then Some(false)
    else if st == SearchType.Search then Some(true)
    else if k > |Ends(ctx, c)| then None
    else
      var id := LineStart(ctx, c, k);
      match mode
      case Normal => Some(k in sp.hidden || IsHidden(ctx.marks, id))
      case Tagged => Some(!(k in sp.tagged || IsTagged(ctx.marks, id)))
      case Manual => Some(!IsTagged(ctx.marks, id))
      case All => Some(false)
  }

  /** Line `i` of chunk `c` is shown. */
  predicate Visible(ctx: Ctx, st: SearchType, mode: DisplayMode, c: nat, i: nat)
    requires Valid(ctx) && c < |ctx.bounds|
  {
    IsFiltered(ctx, st, mode, c, i) == Some(false)
  }

  /** Some manually tagged line id lies in `[start, end)`. */
  predicate TagInRange(m: Marks, start: nat, end: nat) {
    exists t | t in m.tags :: start <= t < end
  }

  /** `skip_split`: a chunk with search matches is never skipped; a search
      walk skips every other chunk; in normal mode the `all_hidden_splits`
      bit decides, in tagged mode a chunk with neither a manual tag nor a
      tag match is skipped, in manual mode a chunk without a manual tag, and
      in all mode nothing. */
  function Skip(ctx: Ctx, st: SearchType, mode: DisplayMode, c: nat): bool
    requires Valid(ctx) && c < |ctx.bounds|
  {
    if ctx.searchHas[c] then false
    else if st == SearchType.Search then true
    else
      match mode
      case Normal => ctx.allHidden[c]
      case Tagged =>
        if TagInRange(ctx.marks, Start(ctx.bounds, c), ctx.bounds[c]) then false
        else !ctx.tagHas[c]
      case Manual => !TagInRange(ctx.marks, Start(ctx.bounds, c), ctx.bounds[c])
      case All => false
  }

  /** Every line of chunk `c` is filtered. */
  ghost predicate ChunkHidden(ctx: Ctx, st: SearchType, mode: DisplayMode, c: nat)
    requires Valid(ctx) && c < |ctx.bounds|
  {
    forall i | 0 <= i < |Ends(ctx, c)| :: !Visible(ctx, st, mode, c, i)
  }

  /** Skipping a chunk never hides a line that would be shown. */
  ghost predicate SkipSound(ctx: Ctx, st: SearchType, mode: DisplayMode)
    requires Valid(ctx)
  {
    forall c | 0 <= c < |ctx.bounds| :: Skip(ctx, st, mode, c) ==> ChunkHidden(ctx, st, mode, c)
  }

  /** A matcher that, finding a pattern in some bytes, finds it in any
      bytes around them. */
  ghost predicate Monotone(engine: Engine) {
    forall p, a, b, d :: engine(p, b) ==> engine(p, a + b + d)
  }

  /** The walk's view agrees with the file: every chunk is the annotated
      chunk a fresh read gives, the has-matches bits are the scanner's clean
      answers for the current tag and search match sets, and no chunk is
      marked all hidden. */
  ghost predicate Agrees(ctx: Ctx, file: seq<byte>, engine: Engine, pats: PatternSet)
    requires Valid(ctx)
  {
    && Last(ctx.bounds) <= |file|
    && (forall c | 0 <= c < |ctx.bounds| :: Fresh(file, ctx.bounds, c, engine, pats, true) == Some(ctx.chunks[c]))
    && (forall c | 0 <= c < |ctx.bounds| ::
          ctx.searchHas[c] == IsMatch(engine, pats.searchRe, ChunkBytes(file, ctx.bounds, c)))
    && (forall c | 0 <= c < |ctx.bounds| ::
          ctx.tagHas[c] == IsMatch(engine, pats.taggedRe, ChunkBytes(file, ctx.bounds, c)))
    && (forall c | 0 <= c < |ctx.bounds| :: !ctx.allHidden[c])
  }

  /** A match set matching a slice of some bytes matches the bytes. */
  lemma MatchInside(engine: Engine, re: RegexSet, buf: seq<byte>, s: nat, e: nat)
    requires Monotone(engine) && s <= e <= |buf|
    requires IsMatch(engine, re, buf[s..e])
    ensures IsMatch(engine, re, buf)
  {
    var q :| 0 <= q < |re| && engine(re[q], buf[s..e]);
    assert engine(re[q], buf[..s] + buf[s..e] + buf[e..]);
    assert buf[..s] + buf[s..e] + buf[e..] == buf;
  }

  /** A line whose text a match set matches lies in a chunk the match set
      matches. */
  lemma LineMatchInChunk(engine: Engine, re: RegexSet, buf: seq<byte>, i: nat, asWritten: bool)
    requires Monotone(engine)
    requires LineMatches(engine, re, buf, LineEnds(buf), i, asWritten)
    ensures IsMatch(engine, re, buf)
  {
    var le := LineEnds(buf);
    var s := Start(le, i);
    var e := le[i];
    if i > 0 {
      assert le[i - 1] < le[i];
    }
    if i < |le| - 1 {
      assert le[i] < Last(le);
    }
    var e' := if asWritten then e - 1 else if s < e && buf[e - 1] == NL then e - 1 else e;
    assert MatchText(buf, le, i, asWritten).value == buf[s..e'];
    MatchInside(engine, re, buf, s, e');
  }

  /** No chunk is empty: the boundaries are distinct and the file is not
      empty. */
  ghost predicate NoEmptyChunk(ctx: Ctx)
    requires Valid(ctx)
  {
    forall c | 0 <= c < |ctx.bounds| :: ChunkLen(ctx.bounds, c) > 0
  }

  /** Over a view without empty chunks that agrees with the file, with a
      monotone matcher, skipping chunks is sound in every mode. */
  lemma SkipIsSound(ctx: Ctx, file: seq<byte>, engine: Engine, pats: PatternSet, st: SearchType, mode: DisplayMode)
    requires Valid(ctx) && NoEmptyChunk(ctx) && Agrees(ctx, file, engine, pats) && Monotone(engine)
    ensures SkipSound(ctx, st, mode)
  {
    forall c | 0 <= c < |ctx.bounds| && Skip(ctx, st, mode, c)
      ensures ChunkHidden(ctx, st, mode, c)
    {
      var sp := ctx.chunks[c];
      assert Fresh(file, ctx.bounds, c, engine, pats, true) == Some(sp);
      forall i | 0 <= i < |Ends(ctx, c)|
        ensures !Visible(ctx, st, mode, c, i)
      {
        if i in sp.search {
          assert LineMatches(engine, pats.searchRe, sp.buf, sp.lineEnds, i, true);
          LineMatchInChunk(engine, pats.searchRe, sp.buf, i, true);
        } else if st == Tag && mode == Tagged && i in sp.tagged {
          assert LineMatches(engine, pats.taggedRe, sp.buf, sp.lineEnds, i, true);
          LineMatchInChunk(engine, pats.taggedRe, sp.buf, i, true);
        } else if st == Tag && (mode == Tagged || mode == Manual) {
          var id := LineStart(ctx, c, i);
          LineInChunk(ctx, c, i);
          var lo, hi := Start(ctx.bounds, c), ctx.bounds[c];
          assert IsTagged(ctx.marks, id) ==> TagInRange(ctx.marks, lo, hi);
        }
      }
    }
  }

  /** Lexicographic order on (chunk, line) positions. */
  predicate PosLt(a: (nat, nat), b: (nat, nat)) {
    a.0 < b.0 || (a.0 == b.0 && a.1 < b.1)
  }

  /** No line at or after `from` and before `stop` (or before the end of
      the file, without one) is shown. */
  ghost predicate NoneShownFrom(ctx: Ctx, st: SearchType, mode: DisplayMode, from: (nat, nat), stop: Option<(nat, nat)>)
    requires Valid(ctx)
  {
    forall c, i | 0 <= c < |ctx.bounds| && 0 <= i < |Ends(ctx, c)| && !PosLt((c, i), from)
        && (stop.None? || PosLt((c, i), stop.value)) ::
      !Visible(ctx, st, mode, c, i)
  }

  /** The rest of a chunk is hidden and nothing is shown from the next
      chunk on: nothing is shown from the current line on. */
  lemma ShownFromNextChunk(ctx: Ctx, st: SearchType, mode: DisplayMode, c: nat, i: nat, stop: Option<(nat, nat)>)
    requires Valid(ctx) && c < |ctx.bounds|
    requires forall k | i <= k < |Ends(ctx, c)| :: !Visible(ctx, st, mode, c, k)
    requires SkipSound(ctx, st, mode) ==> NoneShownFrom(ctx, st, mode, (c + 1, 0), stop)
    ensures SkipSound(ctx, st, mode) ==> NoneShownFrom(ctx, st, mode, (c, i), stop)
  {
  }

  /** When skipping is sound, a skipped chunk shows nothing. */
  lemma ShownFromSkippedChunk(ctx: Ctx, st: SearchType, mode: DisplayMode, c: nat, i: nat, stop: Option<(nat, nat)>)
    requires Valid(ctx) && c < |ctx.bounds| && Skip(ctx, st, mode, c)
    requires SkipSound(ctx, st, mode) ==> NoneShownFrom(ctx, st, mode, (c + 1, 0), stop)
    ensures SkipSound(ctx, st, mode) ==> NoneShownFrom(ctx, st, mode, (c, i), stop)
  {
    if SkipSound(ctx, st, mode) {
      assert ChunkHidden(ctx, st, mode, c);
      ShownFromNextChunk(ctx, st, mode, c, i, stop);
    }
  }

  /** The current line is hidden and nothing is shown from the next line of
      the chunk on: nothing is shown from the current line on. */
  lemma ShownFromNextLine(ctx: Ctx, st: SearchType, mode: DisplayMode, c: nat, i: nat, stop: Option<(nat, nat)>)
    requires Valid(ctx) && c < |ctx.bounds| && i < |Ends(ctx, c)|
    requires !Visible(ctx, st, mode, c, i)
    requires SkipSound(ctx, st, mode) ==> NoneShownFrom(ctx, st, mode, (c, i + 1), stop)
    ensures SkipSound(ctx, st, mode) ==> NoneShownFrom(ctx, st, mode, (c, i), stop)
  {
  }

  /** Where a walk over the chunks ends: at a line, past the last chunk,
      or in the panic of `get` on an empty chunk `at`. */
  datatype Walk = Reached(c: nat, i: nat) | Exhausted | Panicked(at: nat)

  /** The position up to which a walk has looked at every line. */
  function StopAt(w: Walk): Option<(nat, nat)> {
    match w
    case Reached(c, i) => Some((c, i))
    case Exhausted => None
    case Panicked(d) => Some((d, 0))
  }

  /** The loops of `next_line` from line `i` of chunk `c`: skip chunks
      `skip_split` rules out, load every other chunk with `get`, which
      panics on an empty chunk, and stop at the first line not filtered.
      The result is a shown line at or after the start, and when skipping
      is sound no line between the start and where the walk ends is
      shown. */
  function NextFrom(ctx: Ctx, st: SearchType, mode: DisplayMode, c: nat, i: nat): (r: Walk)
    requires Valid(ctx) && c <= |ctx.bounds| && (c < |ctx.bounds| ==> i < |Ends(ctx, c)|)
    ensures r.Reached? ==> r.c < |ctx.bounds| && r.i < |Ends(ctx, r.c)| && ChunkLen(ctx.bounds, r.c) > 0
    ensures r.Reached? ==> Visible(ctx, st, mode, r.c, r.i) && !PosLt((r.c, r.i), (c, i))
    ensures r.Panicked? ==> c <= r.at < |ctx.bounds| && ChunkLen(ctx.bounds, r.at) == 0 && !Skip(ctx, st, mode, r.at)
    ensures NoEmptyChunk(ctx) ==> !r.Panicked?
    ensures SkipSound(ctx, st, mode) ==> NoneShownFrom(ctx, st, mode, (c, i), StopAt(r))
    decreases |ctx.bounds| - c, if c < |ctx.bounds| then |Ends(ctx, c)| - i else 0
  {
    if c == |ctx.bounds| then Exhausted
    else if Skip(ctx, st, mode, c) then
      var r := NextFrom(ctx, st, mode, c + 1, 0);
      ShownFromSkippedChunk(ctx, st, mode, c, i, StopAt(r));
      r
    else if ChunkLen(ctx.bounds, c) == 0 then Panicked(c)
    else if Visible(ctx, st, mode, c, i) then Reached(c, i)
    else if i + 1 == |Ends(ctx, c)| then
      var r := NextFrom(ctx, st, mode, c + 1, 0);
      ShownFromNextChunk(ctx, st, mode, c, i, StopAt(r));
      r
    else
      var r := NextFrom(ctx, st, mode, c, i + 1);
      ShownFromNextLine(ctx, st, mode, c, i, StopAt(r));
      r
  }

  /** Line starts grow with the position; a position one past a chunk's
      last line names the chunk's end. */
  lemma LineStartMono(ctx: Ctx, c: nat, i: nat, c': nat, i': nat)
    requires Valid(ctx) && c < |ctx.bounds| && c' < |ctx.bounds|
    requires i <= |Ends(ctx, c)| && i' <= |Ends(ctx, c')|
    requires c < c' || (c == c' && i <= i')
    ensures LineStart(ctx, c, i) <= LineStart(ctx, c', i')
  {
    var le := Ends(ctx, c);
    if i > 0 && i < |le| {
      assert le[i - 1] < Last(le);
    }
    if c < c' {
      assert ctx.bounds[c] <= Start(ctx.bounds, c');
    } else if i > 0 && i < i' {
      assert le[i - 1] < le[i' - 1];
    }
  }

  /** Every line ends by the end of the file. */
  lemma LineEndInFile(ctx: Ctx, c: nat, i: nat)
    requires Valid(ctx) && c < |ctx.bounds| && i < |Ends(ctx, c)|
    ensures LineStart(ctx, c, i + 1) <= Last(ctx.bounds)
  {
    LineStartMono(ctx, c, i + 1, c, |Ends(ctx, c)|);
    assert ctx.bounds[c] <= Last(ctx.bounds);
  }

  /** The position `next_line` starts its walk from: the line holding the
      offset, or the line after it. */
  function NextStart(ctx: Ctx, c: nat, i: nat, inclusive: bool): (p: (nat, nat))
    requires Valid(ctx) && c < |ctx.bounds| && i < |Ends(ctx, c)|
    ensures p.0 <= |ctx.bounds| && (p.0 < |ctx.bounds| ==> p.1 < |Ends(ctx, p.0)|)
  {
    if inclusive then (c, i)
    else if i + 1 == |Ends(ctx, c)| then (c + 1, 0)
    else (c, i + 1)
  }

  /** A line at or after the position after line `i` starts where line `i`
      ends or later. */
  lemma AfterStartStartsLater(ctx: Ctx, c: nat, i: nat, inclusive: bool, c2: nat, i2: nat)
    requires Valid(ctx) && c < |ctx.bounds| && i < |Ends(ctx, c)|
    requires c2 < |ctx.bounds| && i2 < |Ends(ctx, c2)|
    requires !PosLt((c2, i2), NextStart(ctx, c, i, inclusive))
    ensures !inclusive ==> LineStart(ctx, c, i + 1) <= LineStart(ctx, c2, i2)
  {
    if !inclusive {
      LineStartMono(ctx, c, i + 1, c2, i2);
    }
  }

  /** What a walk written with panics returns: a line id, none, or a
      panic. */
  datatype Outcome = Line(id: nat) | NoLine | Defect

  /** `next_line`: the line id of the next shown line, starting at the line
      holding `lineId` when `inclusive`, after it otherwise; `Defect` when
      the walk loads an empty chunk. */
  function NextLine(ctx: Ctx, st: SearchType, mode: DisplayMode, lineId: nat, inclusive: bool): (r: Outcome)
    requires Valid(ctx)
    ensures r.Line? ==> lineId < Last(ctx.bounds)
    ensures r.Line? && !inclusive ==> lineId < r.id
    ensures lineId >= Last(ctx.bounds) ==> r == NoLine
    ensures NoEmptyChunk(ctx) ==> !r.Defect?
  {
    match Resolve(ctx, lineId)
    case None => NoLine
    case Some((c, i)) =>
      var s := NextStart(ctx, c, i, inclusive);
      match NextFrom(ctx, st, mode, s.0, s.1)
      case Exhausted => NoLine
      case Panicked(_) => Defect
      case Reached(c2, i2) =>
        AfterStartStartsLater(ctx, c, i, inclusive, c2, i2);
        Line(LineStart(ctx, c2, i2))
  }

  /** Line `i` of chunk `c` lies after the offset: it ends after it when
      `inclusive`, it starts after it otherwise. */
  predicate After(ctx: Ctx, lineId: nat, inclusive: bool, c: nat, i: nat)
    requires Valid(ctx) && c < |ctx.bounds| && i < |Ends(ctx, c)|
  {
    if inclusive then lineId < LineStart(ctx, c, i + 1) else lineId < LineStart(ctx, c, i)
  }

  /** `id` is the start of a shown line after the offset. */
  ghost predicate ShownAfter(ctx: Ctx, st: SearchType, mode: DisplayMode, lineId: nat, inclusive: bool, id: nat)
    requires Valid(ctx)
  {
    && Resolve(ctx, id).Some?
    && var (c, i) := Resolve(ctx, id).value;
    && id == LineStart(ctx, c, i)
    && Visible(ctx, st, mode, c, i) && After(ctx, lineId, inclusive, c, i)
  }

  /** A line after the offset lies at or after the position the walk starts
      from. */
  lemma AfterIsNotBeforeStart(ctx: Ctx, lineId: nat, inclusive: bool, c: nat, i: nat)
    requires Valid(ctx) && Resolve(ctx, lineId).Some?
    requires c < |ctx.bounds| && i < |Ends(ctx, c)| && After(ctx, lineId, inclusive, c, i)
    ensures var (c0, i0) := Resolve(ctx, lineId).value;
      !PosLt((c, i), NextStart(ctx, c0, i0, inclusive))
  {
    var (c0, i0) := Resolve(ctx, lineId).value;
    if PosLt((c, i), (c0, i0)) {
      LineStartMono(ctx, c, i + 1, c0, i0);
    }
  }

  /** One walk of `next_line`: the line the walk stops at is shown, starts
      where `Resolve` places it, and lies after the offset. */
  lemma NextLineStep(ctx: Ctx, st: SearchType, mode: DisplayMode, lineId: nat, inclusive: bool,
                     c0: nat, i0: nat, c2: nat, i2: nat)
    requires Valid(ctx)
    requires Resolve(ctx, lineId) == Some((c0, i0))
    requires var s := NextStart(ctx, c0, i0, inclusive);
      NextFrom(ctx, st, mode, s.0, s.1) == Reached(c2, i2)
    ensures ShownAfter(ctx, st, mode, lineId, inclusive, LineStart(ctx, c2, i2))
  {
    var s := NextStart(ctx, c0, i0, inclusive);
    assert ChunkLen(ctx.bounds, c2) > 0;
    ResolveLineStart(ctx, c2, i2);
    if inclusive {
      LineStartMono(ctx, c0, i0 + 1, c2, i2 + 1);
    } else {
      AfterStartStartsLater(ctx, c0, i0, inclusive, c2, i2);
    }
  }

  /** `next_line` returns the start of a shown line after the offset. */
  lemma NextLineIsShown(ctx: Ctx, st: SearchType, mode: DisplayMode, lineId: nat, inclusive: bool)
    requires Valid(ctx)
    ensures var r := NextLine(ctx, st, mode, lineId, inclusive);
      r.Line? ==> ShownAfter(ctx, st, mode, lineId, inclusive, r.id)
  {
    var r0 := Resolve(ctx, lineId);
    if r0.Some? {
      var (c0, i0) := r0.value;
      var s := NextStart(ctx, c0, i0, inclusive);
      var w := NextFrom(ctx, st, mode, s.0, s.1);
      if w.Reached? {
        assert NextLine(ctx, st, mode, lineId, inclusive) == Line(LineStart(ctx, w.c, w.i));
        NextLineStep(ctx, st, mode, lineId, inclusive, c0, i0, w.c, w.i);
      }
    }
  }

  /** When no chunk is empty and skipping is sound, no shown line after the
      offset starts before the line `next_line` returns, and it returns
      `None` only when no line after the offset is shown. */
  lemma NextLineIsFirst(ctx: Ctx, st: SearchType, mode: DisplayMode, lineId: nat, inclusive: bool,
                        c: nat, i: nat)
    requires Valid(ctx) && NoEmptyChunk(ctx) && SkipSound(ctx, st, mode)
    requires c < |ctx.bounds| && i < |Ends(ctx, c)|
    requires Visible(ctx, st, mode, c, i) && After(ctx, lineId, inclusive, c, i)
    ensures var r := NextLine(ctx, st, mode, lineId, inclusive);
      r.Line? && r.id <= LineStart(ctx, c, i)
  {
    if Resolve(ctx, lineId).None? {
      LineEndInFile(ctx, c, i);
      LineInChunk(ctx, c, i);
    } else {
      var (c0, i0) := Resolve(ctx, lineId).value;
      var s := NextStart(ctx, c0, i0, inclusive);
      AfterIsNotBeforeStart(ctx, lineId, inclusive, c, i);
      var w := NextFrom(ctx, st, mode, s.0, s.1);
      assert w.Reached?;
      LineStartMono(ctx, w.c, w.i, c, i);
    }
  }

  /** The line index `prev_line` carries: a line of the chunk, or the
      `usize::MAX` marker that stands for the last line of a chunk not yet
      loaded. */
  datatype LineIx = AtEnd | At(k: nat)

  function IxMeasure(ctx: Ctx, c: nat, ix: LineIx): nat
    requires Valid(ctx) && c < |ctx.bounds|
  {
    match ix
    case AtEnd => |Ends(ctx, c)|
    case At(k) => k
  }

  /** The position a line index names in chunk `c`. */
  function Top(ctx: Ctx, c: nat, ix: LineIx): (p: (nat, nat))
    requires Valid(ctx) && c < |ctx.bounds|
    ensures p.0 == c
  {
    match ix
    case AtEnd => (c, |Ends(ctx, c)| - 1)
    case At(k) => (c, k)
  }

  /** No line at or before `top` and after `stop` (or after the start of
      the file, without one) is shown. */
  ghost predicate NoneShownDown(ctx: Ctx, st: SearchType, mode: DisplayMode, top: (nat, nat), stop: Option<(nat, nat)>)
    requires Valid(ctx)
  {
    forall c, i | 0 <= c < |ctx.bounds| && 0 <= i < |Ends(ctx, c)| && !PosLt(top, (c, i))
        && (stop.None? || PosLt(stop.value, (c, i))) ::
      !Visible(ctx, st, mode, c, i)
  }

  /** Lines up to `k` of chunk `c` are hidden and nothing is shown up to the
      end of the chunk before: nothing is shown up to line `k`. */
  lemma ShownDownChunkHead(ctx: Ctx, st: SearchType, mode: DisplayMode, c: nat, k: nat, stop: Option<(nat, nat)>)
    requires Valid(ctx) && c < |ctx.bounds|
    requires forall j | 0 <= j <= k && j < |Ends(ctx, c)| :: !Visible(ctx, st, mode, c, j)
    requires c > 0 && SkipSound(ctx, st, mode) ==>
      NoneShownDown(ctx, st, mode, (c - 1, |Ends(ctx, c - 1)| - 1), stop)
    ensures SkipSound(ctx, st, mode) ==> NoneShownDown(ctx, st, mode, (c, k), stop)
  {
  }

  /** Line `k` is hidden and nothing is shown up to line `k - 1`: nothing is
      shown up to line `k`. */
  lemma ShownDownPrevLine(ctx: Ctx, st: SearchType, mode: DisplayMode, c: nat, k: nat, stop: Option<(nat, nat)>)
    requires Valid(ctx) && c < |ctx.bounds| && 0 < k < |Ends(ctx, c)|
    requires !Visible(ctx, st, mode, c, k)
    requires SkipSound(ctx, st, mode) ==> NoneShownDown(ctx, st, mode, (c, k - 1), stop)
    ensures SkipSound(ctx, st, mode) ==> NoneShownDown(ctx, st, mode, (c, k), stop)
  {
  }

  /** When skipping is sound, a skipped chunk shows nothing. */
  lemma ShownDownSkippedChunk(ctx: Ctx, st: SearchType, mode: DisplayMode, c: nat, k: nat, stop: Option<(nat, nat)>)
    requires Valid(ctx) && c < |ctx.bounds| && Skip(ctx, st, mode, c)
    requires c > 0 && SkipSound(ctx, st, mode) ==>
      NoneShownDown(ctx, st, mode, (c - 1, |Ends(ctx, c - 1)| - 1), stop)
    ensures SkipSound(ctx, st, mode) ==> NoneShownDown(ctx, st, mode, (c, k), stop)
  {
    if SkipSound(ctx, st, mode) {
      assert ChunkHidden(ctx, st, mode, c);
      ShownDownChunkHead(ctx, st, mode, c, k, stop);
    }
  }

  /** The loops of `prev_line`, corrected: the marker names the chunk's last
      line, and a skipped chunk sends the walk to the end of the chunk
      before it. The result is a shown line at or before the start, and
      when skipping is sound no line between it and the start is shown. */
  function PrevFrom(ctx: Ctx, st: SearchType, mode: DisplayMode, c: nat, ix: LineIx): (r: Option<(nat, nat)>)
    requires Valid(ctx) && c < |ctx.bounds| && (ix.At? ==> ix.k < |Ends(ctx, c)|)
    ensures r.Some? ==> r.value.0 < |ctx.bounds| && r.value.1 < |Ends(ctx, r.value.0)|
    ensures r.Some? ==> Visible(ctx, st, mode, r.value.0, r.value.1) && !PosLt(Top(ctx, c, ix), r.value)
    ensures SkipSound(ctx, st, mode) ==> NoneShownDown(ctx, st, mode, Top(ctx, c, ix), r)
    decreases c, IxMeasure(ctx, c, ix)
  {
    if Skip(ctx, st, mode, c) then
      if c == 0 then
        ShownDownSkippedChunk(ctx, st, mode, c, Top(ctx, c, ix).1, None);
        None
      else
        var r := PrevFrom(ctx, st, mode, c - 1, AtEnd);
        ShownDownSkippedChunk(ctx, st, mode, c, Top(ctx, c, ix).1, r);
        r
    else
      match ix
      case AtEnd => PrevFrom(ctx, st, mode, c, At(|Ends(ctx, c)| - 1))
      case At(k) =>
        if Visible(ctx, st, mode, c, k) then Some((c, k))
        else if k == 0 then
          if c == 0 then
            ShownDownChunkHead(ctx, st, mode, c, k, None);
            None
          else
            var r := PrevFrom(ctx, st, mode, c - 1, AtEnd);
            ShownDownChunkHead(ctx, st, mode, c, k, r);
            r
        else
          var r := PrevFrom(ctx, st, mode, c, At(k - 1));
          ShownDownPrevLine(ctx, st, mode, c, k, r);
          r
  }

  /** Where `prev_line` starts its walk: at the line holding the offset when
      `inclusive`, otherwise at the line before it, which is the marker for
      the previous chunk's last line when the offset is in a chunk's first
      line; `None` before the first line of the file. */
  function PrevStart(ctx: Ctx, c: nat, i: nat, inclusive: bool): (r: Option<(nat, LineIx)>)
    requires Valid(ctx) && c < |ctx.bounds| && i < |Ends(ctx, c)|
    ensures r.None? <==> !inclusive && c == 0 && i == 0
    ensures r.Some? ==> r.value.0 < |ctx.bounds| && (r.value.1.At? ==> r.value.1.k < |Ends(ctx, r.value.0)|)
  {
    if inclusive then Some((c, At(i)))
    else if i > 0 then Some((c, At(i - 1)))
    else if c > 0 then Some((c - 1, AtEnd))
    else None
  }

  /** `prev_line`, corrected: the line id of the previous shown line,
      starting at the line holding `lineId` when `inclusive`, before it
      otherwise. */
  function PrevLine(ctx: Ctx, st: SearchType, mode: DisplayMode, lineId: nat, inclusive: bool): (r: Option<nat>)
    requires Valid(ctx)
    ensures r.Some? ==> r.value <= lineId < Last(ctx.bounds)
  {
    match Resolve(ctx, lineId)
    case None => None
    case Some((c, i)) =>
      match PrevStart(ctx, c, i, inclusive)
      case None => None
      case Some((c1, ix)) =>
        match PrevFrom(ctx, st, mode, c1, ix)
        case None => None
        case Some((c2, i2)) =>
          LineStartMono(ctx, c2, i2, c, i);
          Some(LineStart(ctx, c2, i2))
  }

  /** Line `i` of chunk `c` lies before the offset: it starts at or before
      it when `inclusive`, it ends at or before it otherwise. */
  predicate Before(ctx: Ctx, lineId: nat, inclusive: bool, c: nat, i: nat)
    requires Valid(ctx) && c < |ctx.bounds| && i < |Ends(ctx, c)|
  {
    if inclusive then LineStart(ctx, c, i) <= lineId else LineStart(ctx, c, i + 1) <= lineId
  }

  /** `id` is the start of a shown line before the offset. */
  ghost predicate ShownBefore(ctx: Ctx, st: SearchType, mode: DisplayMode, lineId: nat, inclusive: bool, id: nat)
    requires Valid(ctx)
  {
    && Resolve(ctx, id).Some?
    && var (c, i) := Resolve(ctx, id).value;
    && id == LineStart(ctx, c, i)
    && Visible(ctx, st, mode, c, i) && Before(ctx, lineId, inclusive, c, i)
  }

  /** A line at or before the position the walk starts from lies before the
      offset, and a line before the offset lies at or before that position. */
  lemma BeforeIsNotAfterTop(ctx: Ctx, lineId: nat, inclusive: bool, c: nat, i: nat)
    requires Valid(ctx) && Resolve(ctx, lineId).Some?
    requires c < |ctx.bounds| && i < |Ends(ctx, c)|
    ensures var (c0, i0) := Resolve(ctx, lineId).value;
      var s := PrevStart(ctx, c0, i0, inclusive);
      && (Before(ctx, lineId, inclusive, c, i) ==> s.Some? && !PosLt(Top(ctx, s.value.0, s.value.1), (c, i)))
      && (s.Some? && !PosLt(Top(ctx, s.value.0, s.value.1), (c, i)) ==> Before(ctx, lineId, inclusive, c, i))
  {
    var (c0, i0) := Resolve(ctx, lineId).value;
    if PosLt((c0, i0), (c, i)) {
      LineStartMono(ctx, c0, i0 + 1, c, i);
      LineStartMono(ctx, c0, i0 + 1, c, i + 1);
    } else {
      LineStartMono(ctx, c, i, c0, i0);
      if PosLt((c, i), (c0, i0)) {
        LineStartMono(ctx, c, i + 1, c0, i0);
      } else {
        LineStartMono(ctx, c0, i0 + 1, c, i + 1);
      }
    }
  }

  /** When no chunk is empty, corrected `prev_line` returns the start of a
      shown line before the offset. */
  lemma PrevLineIsShown(ctx: Ctx, st: SearchType, mode: DisplayMode, lineId: nat, inclusive: bool)
    requires Valid(ctx) && NoEmptyChunk(ctx)
    ensures var r := PrevLine(ctx, st, mode, lineId, inclusive);
      r.Some? ==> ShownBefore(ctx, st, mode, lineId, inclusive, r.value)
  {
    if Resolve(ctx, lineId).Some? {
      var (c0, i0) := Resolve(ctx, lineId).value;
      var s := PrevStart(ctx, c0, i0, inclusive);
      if s.Some? {
        var w := PrevFrom(ctx, st, mode, s.value.0, s.value.1);
        if w.Some? {
          var (c2, i2) := w.value;
          ResolveLineStart(ctx, c2, i2);
          BeforeIsNotAfterTop(ctx, lineId, inclusive, c2, i2);
        }
      }
    }
  }

  /** When no chunk is empty and skipping is sound, no shown line before an
      offset inside the file starts after the line corrected `prev_line`
      returns, and it returns `None` only when no line before the offset is
      shown. */
  lemma PrevLineIsLast(ctx: Ctx, st: SearchType, mode: DisplayMode, lineId: nat, inclusive: bool,
                       c: nat, i: nat)
    requires Valid(ctx) && NoEmptyChunk(ctx) && SkipSound(ctx, st, mode)
    requires lineId < Last(ctx.bounds)
    requires c < |ctx.bounds| && i < |Ends(ctx, c)|
    requires Visible(ctx, st, mode, c, i) && Before(ctx, lineId, inclusive, c, i)
    ensures var r := PrevLine(ctx, st, mode, lineId, inclusive);
      r.Some? && LineStart(ctx, c, i) <= r.value
  {
    var (c0, i0) := Resolve(ctx, lineId).value;
    BeforeIsNotAfterTop(ctx, lineId, inclusive, c, i);
    var s := PrevStart(ctx, c0, i0, inclusive);
    var w := PrevFrom(ctx, st, mode, s.value.0, s.value.1);
    assert w.Some?;
    var (c2, i2) := w.value;
    LineStartMono(ctx, c, i, c2, i2);
  }

  /** The furthest line id the as-written walk from line index `ix` of
      chunk `c` can return: the chunk's end for the marker, the start of
      line `k` (or the chunk's end past its last line) otherwise. */
  function Ceil(ctx: Ctx, c: nat, ix: LineIx): nat
    requires Valid(ctx) && c < |ctx.bounds|
  {
    match ix
    case AtEnd => ctx.bounds[c]
    case At(k) => LineStart(ctx, c, if k < |Ends(ctx, c)| then k else |Ends(ctx, c)|)
  }

  /** The start of the line after the last chunk line is the chunk's end. */
  lemma LineStartAtEnd(ctx: Ctx, c: nat)
    requires Valid(ctx) && c < |ctx.bounds|
    ensures LineStart(ctx, c, |Ends(ctx, c)|) == ctx.bounds[c]
  {
  }

  /** The loops of `prev_line` as written: every chunk not skipped is loaded
      with `get`, which panics on an empty chunk; the marker becomes the
      chunk's next-to-last line (a subtraction that underflows in a chunk of
      one line), and a skipped chunk leaves the line index as it was, so the
      walk can enter the chunk before at an index taken from a later chunk.
      A line it returns starts no later than where the walk started, and
      strictly before the chunk's end when it started at the marker. */
  function PrevFromAsWritten(ctx: Ctx, st: SearchType, mode: DisplayMode, c: nat, ix: LineIx): (r: Outcome)
    requires Valid(ctx) && c < |ctx.bounds|
    ensures r.Line? ==> r.id <= Ceil(ctx, c, ix) <= ctx.bounds[c]
    ensures r.Line? && ix.AtEnd? ==> r.id < ctx.bounds[c]
    decreases c, IxMeasure(ctx, c, ix)
  {
    LineStartAtEnd(ctx, c);
    assert Ceil(ctx, c, ix) <= ctx.bounds[c] by {
      if ix.At? {
        LineStartMono(ctx, c, if ix.k < |Ends(ctx, c)| then ix.k else |Ends(ctx, c)|, c, |Ends(ctx, c)|);
      }
    }
    if Skip(ctx, st, mode, c) then
      if c == 0 then NoLine
      else
        var r := PrevFromAsWritten(ctx, st, mode, c - 1, ix);
        assert Ceil(ctx, c - 1, ix) <= Ceil(ctx, c, ix) by {
          if ix.At? {
            var k := ix.k;
            LineStartMono(ctx, c - 1, if k < |Ends(ctx, c - 1)| then k else |Ends(ctx, c - 1)|,
                          c, if k < |Ends(ctx, c)| then k else |Ends(ctx, c)|);
          }
        }
        r
    else if ChunkLen(ctx.bounds, c) == 0 then Defect
    else
      match ix
      case AtEnd =>
        if |Ends(ctx, c)| < 2 then Defect
        else
          LineInChunk(ctx, c, |Ends(ctx, c)| - 2);
          PrevFromAsWritten(ctx, st, mode, c, At(|Ends(ctx, c)| - 2))
      case At(k) =>
        match IsFiltered(ctx, st, mode, c, k)
        case None => Defect
        case Some(false) =>
          if k > |Ends(ctx, c)| then Defect
          else Line(LineStart(ctx, c, k))
        case Some(true) =>
          if k == 0 then
            if c == 0 then NoLine
            else
              var r := PrevFromAsWritten(ctx, st, mode, c - 1, AtEnd);
              assert ctx.bounds[c - 1] <= LineStart(ctx, c, 0);
              r
          else
            var r := PrevFromAsWritten(ctx, st, mode, c, At(k - 1));
            assert Ceil(ctx, c, At(k - 1)) <= Ceil(ctx, c, ix) by {
              LineStartMono(ctx, c, if k - 1 < |Ends(ctx, c)| then k - 1 else |Ends(ctx, c)|,
                            c, if k < |Ends(ctx, c)| then k else |Ends(ctx, c)|);
            }
            r
  }

  /** `prev_line` as written: a line it returns starts at or before the
      offset, and strictly before it when not `inclusive`. */
  function PrevLineAsWritten(ctx: Ctx, st: SearchType, mode: DisplayMode, lineId: nat, inclusive: bool): (r: Outcome)
    requires Valid(ctx)
    ensures lineId >= Last(ctx.bounds) ==> r == NoLine
    ensures r.Line? ==> r.id <= lineId && (!inclusive ==> r.id < lineId)
  {
    match Resolve(ctx, lineId)
    case None => NoLine
    case Some((c, i)) =>
      match PrevStart(ctx, c, i, inclusive)
      case None => NoLine
      case Some((c1, ix)) =>
        PrevStartCeil(ctx, c, i, inclusive);
        PrevFromAsWritten(ctx, st, mode, c1, ix)
  }

  /** The walk of `prev_line` starts no later than the line holding the
      offset, and, when not `inclusive`, strictly before that line or at
      the marker of the chunk before it. */
  lemma PrevStartCeil(ctx: Ctx, c: nat, i: nat, inclusive: bool)
    requires Valid(ctx) && c < |ctx.bounds| && i < |Ends(ctx, c)|
    requires PrevStart(ctx, c, i, inclusive).Some?
    ensures var (c1, ix) := PrevStart(ctx, c, i, inclusive).value;
      && Ceil(ctx, c1, ix) <= LineStart(ctx, c, i)
      && (!inclusive ==> (ix.AtEnd? && ctx.bounds[c1] <= LineStart(ctx, c, i)) || Ceil(ctx, c1, ix) < LineStart(ctx, c, i))
      && (!inclusive ==> Reach(ctx, c1, ix) <= LineStart(ctx, c, i))
  {
    if !inclusive && i > 0 {
      LineStartMono(ctx, c, 0, c, i);
      LineInChunk(ctx, c, i - 1);
    } else if !inclusive {
      assert ctx.bounds[c - 1] <= LineStart(ctx, c, 0);
    }
  }

  /** What the cache gives a walk: no empty chunk, no chunk marked all
      hidden, and annotation lists that name lines of their own chunk. */
  ghost predicate Loaded(ctx: Ctx)
    requires Valid(ctx)
  {
    && NoEmptyChunk(ctx)
    && (forall c | 0 <= c < |ctx.bounds| :: !ctx.allHidden[c])
    && (forall c | 0 <= c < |ctx.bounds| :: ListsInChunk(ctx, c))
  }

  /** The search and tag lists of chunk `c` name lines of the chunk. */
  ghost predicate ListsInChunk(ctx: Ctx, c: nat)
    requires Valid(ctx) && c < |ctx.bounds|
  {
    && (forall x | x in ctx.chunks[c].search :: x < |Ends(ctx, c)|)
    && (forall x | x in ctx.chunks[c].tagged :: x < |Ends(ctx, c)|)
  }

  /** A view that agrees with the file is loaded: the cache as written
      holds no empty chunk, and a line matches only if it exists. */
  lemma AgreesIsLoaded(ctx: Ctx, file: seq<byte>, engine: Engine, pats: PatternSet)
    requires Valid(ctx) && Agrees(ctx, file, engine, pats)
    ensures Loaded(ctx)
  {
    forall c | 0 <= c < |ctx.bounds|
      ensures ChunkLen(ctx.bounds, c) > 0 && ListsInChunk(ctx, c)
    {
      var sp := ctx.chunks[c];
      assert Fresh(file, ctx.bounds, c, engine, pats, true) == Some(sp);
      assert Annotated(engine, pats, sp, true);
      forall x | x in sp.search
        ensures x < |Ends(ctx, c)|
      {
        assert LineMatches(engine, pats.searchRe, sp.buf, sp.lineEnds, x, true);
      }
      forall x | x in sp.tagged
        ensures x < |Ends(ctx, c)|
      {
        assert LineMatches(engine, pats.taggedRe, sp.buf, sp.lineEnds, x, true);
      }
    }
  }

  /** Line `id` is a shown line that ends by `limit`. */
  ghost predicate ShownUpTo(ctx: Ctx, st: SearchType, mode: DisplayMode, id: nat, limit: nat)
    requires Valid(ctx)
  {
    && Resolve(ctx, id).Some?
    && var (c, i) := Resolve(ctx, id).value;
    && id == LineStart(ctx, c, i)
    && Visible(ctx, st, mode, c, i) && LineStart(ctx, c, i + 1) <= limit
  }

  /** Where the lines the as-written walk from line index `ix` of chunk `c`
      can return end: the chunk's end for the marker, the end of line `k`
      (or the chunk's end past its last line) otherwise. */
  function Reach(ctx: Ctx, c: nat, ix: LineIx): nat
    requires Valid(ctx) && c < |ctx.bounds|
  {
    match ix
    case AtEnd => ctx.bounds[c]
    case At(k) => LineStart(ctx, c, if k + 1 < |Ends(ctx, c)| then k + 1 else |Ends(ctx, c)|)
  }

  /** In a loaded view, the index one past the last line of a chunk that the
      walk carries out of a skipped later chunk is filtered: no list names
      it, and in the modes that skip, the start of the skipped chunk it
      stands for holds no manual tag. */
  lemma StaleIsFiltered(ctx: Ctx, st: SearchType, mode: DisplayMode, c: nat)
    requires Valid(ctx) && Loaded(ctx) && c + 1 < |ctx.bounds| && Skip(ctx, st, mode, c + 1)
    ensures IsFiltered(ctx, st, mode, c, |Ends(ctx, c)|) == Some(true)
  {
    var k := |Ends(ctx, c)|;
    assert ListsInChunk(ctx, c);
    assert k !in ctx.chunks[c].search && k !in ctx.chunks[c].tagged;
    LineStartAtEnd(ctx, c);
    assert ChunkLen(ctx.bounds, c + 1) > 0;
    assert !ctx.allHidden[c + 1];
    assert Start(ctx.bounds, c + 1) == ctx.bounds[c];
  }

  /** A shown line that ends by one limit ends by any larger one. */
  lemma ShownUpToWeaken(ctx: Ctx, st: SearchType, mode: DisplayMode, id: nat, limit: nat, limit': nat)
    requires Valid(ctx) && ShownUpTo(ctx, st, mode, id, limit) && limit <= limit'
    ensures ShownUpTo(ctx, st, mode, id, limit')
  {
  }

  /** `ShownUpToWeaken` for the line of an outcome, when it has one. */
  lemma ShownUpToAfter(ctx: Ctx, st: SearchType, mode: DisplayMode, r: Outcome, limit: nat, limit': nat)
    requires Valid(ctx) && (r.Line? ==> ShownUpTo(ctx, st, mode, r.id, limit)) && limit <= limit'
    ensures r.Line? ==> ShownUpTo(ctx, st, mode, r.id, limit')
  {
  }

  /** A shown line of a non-empty chunk is a shown line that ends where it
      ends. */
  lemma ShownUpToLine(ctx: Ctx, st: SearchType, mode: DisplayMode, c: nat, k: nat)
    requires Valid(ctx) && c < |ctx.bounds| && ChunkLen(ctx.bounds, c) > 0 && k < |Ends(ctx, c)|
    requires Visible(ctx, st, mode, c, k)
    ensures ShownUpTo(ctx, st, mode, LineStart(ctx, c, k), Reach(ctx, c, At(k)))
  {
    ResolveLineStart(ctx, c, k);
    assert Reach(ctx, c, At(k)) == LineStart(ctx, c, k + 1);
  }

  /** `Reach` lies inside the chunk. */
  lemma ReachInChunk(ctx: Ctx, c: nat, ix: LineIx)
    requires Valid(ctx) && c < |ctx.bounds|
    ensures Start(ctx.bounds, c) <= Reach(ctx, c, ix) <= ctx.bounds[c]
  {
    LineStartAtEnd(ctx, c);
    if ix.At? {
      var n := |Ends(ctx, c)|;
      LineStartMono(ctx, c, if ix.k + 1 < n then ix.k + 1 else n, c, n);
    }
  }

  /** `Reach` grows with the line index. */
  lemma ReachStep(ctx: Ctx, c: nat, k: nat)
    requires Valid(ctx) && c < |ctx.bounds|
    ensures Reach(ctx, c, At(k)) <= Reach(ctx, c, At(k + 1))
  {
    var n := |Ends(ctx, c)|;
    LineStartMono(ctx, c, if k + 1 < n then k + 1 else n, c, if k + 2 < n then k + 2 else n);
  }

  /** In a loaded view, a line the as-written walk returns is a shown line
      that ends by `Reach`, provided a line index past the chunk comes out
      of a skipped later chunk. */
  lemma {:induction false} PrevFromAsWrittenShown(ctx: Ctx, st: SearchType, mode: DisplayMode, c: nat, ix: LineIx)
    requires Valid(ctx) && Loaded(ctx) && c < |ctx.bounds|
    requires ix.At? ==> ix.k < |Ends(ctx, c)| || (c + 1 < |ctx.bounds| && Skip(ctx, st, mode, c + 1))
    ensures var r := PrevFromAsWritten(ctx, st, mode, c, ix);
      r.Line? ==> ShownUpTo(ctx, st, mode, r.id, Reach(ctx, c, ix))
    decreases c, IxMeasure(ctx, c, ix), 2
  {
    if Skip(ctx, st, mode, c) {
      if c > 0 {
        PrevShownSkipped(ctx, st, mode, c, ix);
      }
    } else if ChunkLen(ctx.bounds, c) > 0 {
      match ix
      case AtEnd => PrevShownAtEnd(ctx, st, mode, c);
      case At(k) => PrevShownAt(ctx, st, mode, c, k);
    }
  }

  /** The step of `PrevFromAsWrittenShown` through a skipped chunk. */
  lemma {:induction false} PrevShownSkipped(ctx: Ctx, st: SearchType, mode: DisplayMode, c: nat, ix: LineIx)
    requires Valid(ctx) && Loaded(ctx) && 0 < c < |ctx.bounds| && Skip(ctx, st, mode, c)
    requires ix.At? ==> ix.k < |Ends(ctx, c)| || (c + 1 < |ctx.bounds| && Skip(ctx, st, mode, c + 1))
    ensures var r := PrevFromAsWritten(ctx, st, mode, c, ix);
      r.Line? ==> ShownUpTo(ctx, st, mode, r.id, Reach(ctx, c, ix))
    decreases c, IxMeasure(ctx, c, ix), 0
  {
    var r := PrevFromAsWritten(ctx, st, mode, c - 1, ix);
    assert PrevFromAsWritten(ctx, st, mode, c, ix) == r;
    PrevFromAsWrittenShown(ctx, st, mode, c - 1, ix);
    if r.Line? {
      ReachInChunk(ctx, c - 1, ix);
      ReachInChunk(ctx, c, ix);
      ShownUpToWeaken(ctx, st, mode, r.id, Reach(ctx, c - 1, ix), Reach(ctx, c, ix));
    }
  }

  /** The step of `PrevFromAsWrittenShown` from the marker. */
  lemma {:induction false} PrevShownAtEnd(ctx: Ctx, st: SearchType, mode: DisplayMode, c: nat)
    requires Valid(ctx) && Loaded(ctx) && c < |ctx.bounds| && !Skip(ctx, st, mode, c)
    ensures var r := PrevFromAsWritten(ctx, st, mode, c, AtEnd);
      r.Line? ==> ShownUpTo(ctx, st, mode, r.id, Reach(ctx, c, AtEnd))
    decreases c, IxMeasure(ctx, c, AtEnd), 0
  {
    var n := |Ends(ctx, c)|;
    assert ChunkLen(ctx.bounds, c) > 0;
    if n >= 2 {
      var r := PrevFromAsWritten(ctx, st, mode, c, At(n - 2));
      assert PrevFromAsWritten(ctx, st, mode, c, AtEnd) == r;
      PrevFromAsWrittenShown(ctx, st, mode, c, At(n - 2));
      if r.Line? {
        ReachInChunk(ctx, c, At(n - 2));
        ShownUpToWeaken(ctx, st, mode, r.id, Reach(ctx, c, At(n - 2)), Reach(ctx, c, AtEnd));
      }
    }
  }

  /** The step of `PrevFromAsWrittenShown` at line index `k` of a chunk not
      skipped. */
  lemma {:induction false} PrevShownAt(ctx: Ctx, st: SearchType, mode: DisplayMode, c: nat, k: nat)
    requires Valid(ctx) && Loaded(ctx) && c < |ctx.bounds| && !Skip(ctx, st, mode, c)
    requires k < |Ends(ctx, c)| || (c + 1 < |ctx.bounds| && Skip(ctx, st, mode, c + 1))
    ensures var r := PrevFromAsWritten(ctx, st, mode, c, At(k));
      r.Line? ==> ShownUpTo(ctx, st, mode, r.id, Reach(ctx, c, At(k)))
    decreases c, IxMeasure(ctx, c, At(k)), 1
  {
    var n := |Ends(ctx, c)|;
    assert ChunkLen(ctx.bounds, c) > 0;
    if k == n {
      StaleIsFiltered(ctx, st, mode, c);
    }
    match IsFiltered(ctx, st, mode, c, k)
    case None =>
      assert PrevFromAsWritten(ctx, st, mode, c, At(k)) == Defect;
    case Some(false) =>
      if k < n {
        assert PrevFromAsWritten(ctx, st, mode, c, At(k)) == Line(LineStart(ctx, c, k));
        ShownUpToLine(ctx, st, mode, c, k);
      } else {
        assert PrevFromAsWritten(ctx, st, mode, c, At(k)) == Defect;
      }
    case Some(true) =>
      if k > 0 {
        PrevShownFiltered(ctx, st, mode, c, k);
      } else if c > 0 {
        PrevShownHead(ctx, st, mode, c);
      } else {
        assert PrevFromAsWritten(ctx, st, mode, c, At(k)) == NoLine;
      }
  }

  /** The step of `PrevFromAsWrittenShown` past a filtered line `k > 0` of
      a chunk not skipped, to the line before. */
  lemma {:induction false} PrevShownFiltered(ctx: Ctx, st: SearchType, mode: DisplayMode, c: nat, k: nat)
    requires Valid(ctx) && Loaded(ctx) && c < |ctx.bounds| && !Skip(ctx, st, mode, c) && k > 0
    requires k < |Ends(ctx, c)| || (c + 1 < |ctx.bounds| && Skip(ctx, st, mode, c + 1))
    requires IsFiltered(ctx, st, mode, c, k) == Some(true)
    ensures var r := PrevFromAsWritten(ctx, st, mode, c, At(k));
      r.Line? ==> ShownUpTo(ctx, st, mode, r.id, Reach(ctx, c, At(k)))
    decreases c, IxMeasure(ctx, c, At(k)), 0
  {
    assert ChunkLen(ctx.bounds, c) > 0;
    var r := PrevFromAsWritten(ctx, st, mode, c, At(k - 1));
    assert PrevFromAsWritten(ctx, st, mode, c, At(k)) == r;
    PrevFromAsWrittenShown(ctx, st, mode, c, At(k - 1));
    ReachStep(ctx, c, k - 1);
    ShownUpToAfter(ctx, st, mode, r, Reach(ctx, c, At(k - 1)), Reach(ctx, c, At(k)));
  }

  /** The step of `PrevFromAsWrittenShown` past a filtered first line of a
      chunk not skipped, to the end of the chunk before. */
  lemma {:induction false} PrevShownHead(ctx: Ctx, st: SearchType, mode: DisplayMode, c: nat)
    requires Valid(ctx) && Loaded(ctx) && 0 < c < |ctx.bounds| && !Skip(ctx, st, mode, c)
    requires IsFiltered(ctx, st, mode, c, 0) == Some(true)
    ensures var r := PrevFromAsWritten(ctx, st, mode, c, At(0));
      r.Line? ==> ShownUpTo(ctx, st, mode, r.id, Reach(ctx, c, At(0)))
    decreases c, IxMeasure(ctx, c, At(0)), 0
  {
    assert ChunkLen(ctx.bounds, c) > 0;
    var r := PrevFromAsWritten(ctx, st, mode, c - 1, AtEnd);
    assert PrevFromAsWritten(ctx, st, mode, c, At(0)) == r;
    PrevFromAsWrittenShown(ctx, st, mode, c - 1, AtEnd);
    ReachInChunk(ctx, c, At(0));
    ShownUpToAfter(ctx, st, mode, r, Reach(ctx, c - 1, AtEnd), Reach(ctx, c, At(0)));
  }

  /** In a loaded view, `prev_line` as written returns the start of a shown
      line before the offset. */
  lemma PrevLineAsWrittenIsShown(ctx: Ctx, st: SearchType, mode: DisplayMode, lineId: nat, inclusive: bool)
    requires Valid(ctx) && Loaded(ctx)
    ensures var r := PrevLineAsWritten(ctx, st, mode, lineId, inclusive);
      r.Line? ==> ShownBefore(ctx, st, mode, lineId, inclusive, r.id)
  {
    if Resolve(ctx, lineId).Some? {
      var (c0, i0) := Resolve(ctx, lineId).value;
      var s := PrevStart(ctx, c0, i0, inclusive);
      if s.Some? {
        var (c1, ix) := s.value;
        PrevFromAsWrittenShown(ctx, st, mode, c1, ix);
        var r := PrevFromAsWritten(ctx, st, mode, c1, ix);
        if r.Line? {
          PrevStartCeil(ctx, c0, i0, inclusive);
        }
      }
    }
  }

  /** A view of two chunks, "a\nb\n" and "c\n", nothing filtered. */
  function TwoChunks(): (ctx: Ctx)
    ensures Valid(ctx)
  {
    var c0 := Split(0, [97, 10, 98, 10], [2, 4], [], [], []);
    var c1 := Split(0, [99, 10], [2], [], [], []);
    var ctx := Ctx([4, 6], [c0, c1], [false, false], [false, false], [false, false], Marks({}, {}));
    assert ChunkOk(ctx, 0) && ChunkOk(ctx, 1);
    ctx
  }

  /** Where the walk in `TwoChunks` starts, and that nothing is skipped. */
  lemma TwoChunksStart()
    ensures var ctx := TwoChunks();
      Resolve(ctx, 4) == Some((1, 0)) && !Skip(ctx, Tag, All, 0)
  {
    var ctx := TwoChunks();
    assert ctx.bounds == [4, 6];
    assert Ends(ctx, 1) == [2];
    assert FindSplit(ctx.bounds, 4) == Some(1);
  }

  /** Stepping back from the first line of a chunk, `prev_line` as written
      lands on the next-to-last line of the chunk before and passes over
      its last line, which is shown; the corrected walk returns that last
      line. */
  lemma PrevSkipsLastLine()
    ensures var ctx := TwoChunks();
      && Visible(ctx, Tag, All, 0, 1)
      && PrevLineAsWritten(ctx, Tag, All, 4, false) == Line(0)
      && PrevLine(ctx, Tag, All, 4, false) == Some(2)
  {
    var ctx := TwoChunks();
    TwoChunksStart();
    assert Ends(ctx, 0) == [2, 4];
    assert PrevStart(ctx, 1, 0, false) == Some((0, AtEnd));
    assert IsFiltered(ctx, Tag, All, 0, 0) == Some(false);
    assert LineStart(ctx, 0, 0) == 0;
    assert PrevFromAsWritten(ctx, Tag, All, 0, At(0)) == Line(0);
    assert PrevFromAsWritten(ctx, Tag, All, 0, AtEnd) == Line(0);
    assert IsFiltered(ctx, Tag, All, 0, 1) == Some(false);
    assert PrevFrom(ctx, Tag, All, 0, At(1)) == Some((0, 1));
    assert PrevFrom(ctx, Tag, All, 0, AtEnd) == Some((0, 1));
    assert LineStart(ctx, 0, 1) == 2;
  }

  /** A view of chunks "a\n" and "b\nc\nd\n", the first line manually
      tagged and no tag matches. */
  function StaleIndexChunks(): (ctx: Ctx)
    ensures Valid(ctx)
  {
    var c0 := Split(0, [97, 10], [2], [], [], []);
    var c1 := Split(0, [98, 10, 99, 10, 100, 10], [2, 4, 6], [], [], []);
    var ctx := Ctx([2, 8], [c0, c1], [false, false], [false, false], [false, false], Marks({0}, {}));
    assert ChunkOk(ctx, 0) && ChunkOk(ctx, 1);
    ctx
  }

  /** Where the walk in `StaleIndexChunks` starts, and which chunks tagged
      mode skips there. */
  lemma StaleIndexStart()
    ensures var ctx := StaleIndexChunks();
      && Resolve(ctx, 6) == Some((1, 2))
      && Skip(ctx, Tag, Tagged, 1) && !Skip(ctx, Tag, Tagged, 0)
  {
    var ctx := StaleIndexChunks();
    assert ctx.bounds == [2, 8];
    assert Ends(ctx, 1) == [2, 4, 6];
    assert FindSplit(ctx.bounds, 6) == Some(1);
    assert !TagInRange(ctx.marks, 2, 8);
    assert TagInRange(ctx.marks, 0, 2);
  }

  /** In tagged mode, stepping back from the third line of a chunk without
      tags skips that chunk and, as written, reads the chunk before at line
      index 2, past its single line: the line-end lookup panics. The
      corrected walk returns the tagged first line. */
  lemma PrevStaleIndexPanics()
    ensures var ctx := StaleIndexChunks();
      && PrevLineAsWritten(ctx, Tag, Tagged, 6, true) == Defect
      && PrevLine(ctx, Tag, Tagged, 6, true) == Some(0)
  {
    var ctx := StaleIndexChunks();
    StaleIndexStart();
    assert Ends(ctx, 0) == [2];
    assert IsFiltered(ctx, Tag, Tagged, 0, 2) == None;
    assert PrevFromAsWritten(ctx, Tag, Tagged, 1, At(2)) == Defect;
    assert LineStart(ctx, 0, 0) == 0 && IsTagged(ctx.marks, 0);
    assert PrevFrom(ctx, Tag, Tagged, 0, At(0)) == Some((0, 0));
    assert PrevFrom(ctx, Tag, Tagged, 1, At(2)) == Some((0, 0));
  }

  /** A view of chunks "a\n" and an empty one: the boundaries of a
      two-byte file split where a split point is repeated. */
  function EmptyTail(): (ctx: Ctx)
    ensures Valid(ctx)
  {
    var c0 := Split(0, [97, 10], [2], [], [], []);
    var c1 := Split(0, [], [0], [], [], []);
    var ctx := Ctx([2, 2], [c0, c1], [false, false], [false, false], [false, false], Marks({}, {}));
    assert ChunkOk(ctx, 0) && ChunkOk(ctx, 1);
    ctx
  }

  /** Stepping forward from the last line of a chunk followed by an empty
      chunk, `next_line` loads the empty chunk and `get` panics. */
  lemma NextEntersEmptyChunk()
    ensures NextLine(EmptyTail(), Tag, All, 0, false) == Defect
  {
    var ctx := EmptyTail();
    assert ctx.bounds == [2, 2];
    assert FindSplit(ctx.bounds, 0) == Some(0);
    assert Ends(ctx, 0) == [2];
    assert Resolve(ctx, 0) == Some((0, 0));
    assert NextFrom(ctx, Tag, All, 1, 0) == Panicked(1);
  }

  /** A view of chunks "a\n" and "b\nc\n" whose second chunk is marked all
      hidden and hides both its lines. */
  function HiddenTail(): (ctx: Ctx)
    ensures Valid(ctx)
  {
    var c0 := Split(0, [97, 10], [2], [], [], []);
    var c1 := Split(0, [98, 10, 99, 10], [2, 4], [], [], [0, 1]);
    var ctx := Ctx([2, 6], [c0, c1], [false, false], [false, false], [false, true], Marks({}, {}));
    assert ChunkOk(ctx, 0) && ChunkOk(ctx, 1);
    ctx
  }

  /** Where the walk in `HiddenTail` starts, which chunk normal mode skips
      there, and which lines are filtered. */
  lemma HiddenTailStart()
    ensures var ctx := HiddenTail();
      && Resolve(ctx, 4) == Some((1, 1))
      && Skip(ctx, Tag, Normal, 1) && !Skip(ctx, Tag, Normal, 0)
  {
    var ctx := HiddenTail();
    assert ctx.bounds == [2, 6];
    assert Ends(ctx, 1) == [2, 4];
    assert FindSplit(ctx.bounds, 4) == Some(1);
  }

  /** With a chunk marked all hidden, the line index that `prev_line` as
      written carries out of it lands one past the last line of the chunk
      before, and the walk returns the start of the hidden chunk: a line
      that is not shown. */
  lemma StaleIndexReturnsHidden()
    ensures var ctx := HiddenTail();
      && PrevLineAsWritten(ctx, Tag, Normal, 4, true) == Line(2)
      && Resolve(ctx, 2) == Some((1, 0)) && !Visible(ctx, Tag, Normal, 1, 0)
  {
    var ctx := HiddenTail();
    HiddenTailStart();
    assert ChunkLen(ctx.bounds, 1) == 4 && LineStart(ctx, 1, 0) == 2;
    ResolveLineStart(ctx, 1, 0);
    assert Ends(ctx, 0) == [2] && ChunkLen(ctx.bounds, 0) == 2;
    assert IsFiltered(ctx, Tag, Normal, 0, 1) == Some(false) && LineStart(ctx, 0, 1) == 2;
    assert PrevFromAsWritten(ctx, Tag, Normal, 0, At(1)) == Line(2);
  }

  /** `last_line_id`: the offset of the file's last byte; `None` is the
      underflow of an empty file. */
  function LastLineId(bounds: seq<nat>): (r: Option<nat>)
    requires |bounds| >= 1 && NonDecreasing(bounds)
    ensures r.None? <==> Last(bounds) == 0
    ensures r.Some? ==> FindSplit(bounds, r.value).Some? && FindSplit(bounds, r.value + 1).None?
  {
    var end := GetSplit(bounds, |bounds| - 1).value.1;
    if end == 0 then None else Some(end - 1)
  }

  /** With no empty chunk, the last line id lies in the last line of the
      last chunk. */
  lemma LastLineIdInLastLine(ctx: Ctx)
    requires Valid(ctx) && NoEmptyChunk(ctx)
    ensures var n := |ctx.bounds|;
      && LastLineId(ctx.bounds).Some?
      && Resolve(ctx, LastLineId(ctx.bounds).value) == Some((n - 1, |Ends(ctx, n - 1)| - 1))
  {
    var bs := ctx.bounds;
    assert ChunkLen(bs, |bs| - 1) > 0;
    assert LastLineId(bs) == Some(Last(bs) - 1);
    LastOffsetResolves(ctx, Last(bs) - 1);
  }

  /** The last byte of a file without empty chunks lies in the last line
      of the last chunk. */
  lemma LastOffsetResolves(ctx: Ctx, id: nat)
    requires Valid(ctx) && NoEmptyChunk(ctx) && id + 1 == Last(ctx.bounds)
    ensures var n := |ctx.bounds|;
      Resolve(ctx, id) == Some((n - 1, |Ends(ctx, n - 1)| - 1))
  {
    var bs := ctx.bounds;
    var n := |bs|;
    var r := Resolve(ctx, id);
    var c := r.value.0;
    var i := r.value.1;
    assert Start(bs, c) <= id < bs[c] by {
      LineStartMono(ctx, c, 0, c, i);
    }
    assert ChunkLen(bs, n - 1) > 0;
    OffsetInOneChunk(bs, id, c, n - 1);
    var le := Ends(ctx, c);
    assert Start(bs, c) + Last(le) == id + 1;
    assert forall k | 0 <= k < |le| - 1 :: le[k] < Last(le);
  }
}
