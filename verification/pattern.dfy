/** Pattern-set bookkeeping of `src/pattern.rs`: id and sequence
    allocation, the split of patterns into the tag/search/hide match sets by
    mode, longest-first ordering, `process_line` and the word delimiters.
    Regex engines are foreign: a compiled match set is the list of its
    patterns, and matching is delegated to function parameters. */
module Patterns {
  import opened Wrappers
  import opened Bytes
  import opened Seqs

  datatype MatchType = BigWord | SmallWord | Text | Regex

  datatype PatternMode = Tagging | Hiding | Marking | Search

  /** A user pattern; its display style is left out. */
  datatype Pattern = Pattern(text: string, mode: PatternMode, matchType: MatchType)

  /** A compiled `RegexSet`: its member patterns, in key order. */
  type RegexSet = seq<Pattern>

  /** Whether one pattern matches somewhere in a byte buffer (the foreign
      regex engine). */
  type Engine = (Pattern, seq<byte>) -> bool

  /** `RegexSet::is_match`: some member pattern matches the buffer. */
  predicate IsMatch(engine: Engine, re: RegexSet, buf: seq<byte>) {
    exists i | 0 <= i < |re| :: engine(re[i], buf)
  }

  /** The characters `MatchType::delimiter` lists for each match type. */
  function Delimiter(mt: MatchType): string {
    match mt
    case BigWord => " \t"
    case SmallWord => " \t:.,\"';()[]{}<>=+-*/&|^~!@#$%?"
    case Text => ""
    case Regex => ""
  }

  /** The members of the bracketed character class `build_re` puts around a
      word pattern, with the regex escapes removed. */
  function WordClass(mt: MatchType): string {
    match mt
    case BigWord => "\t "
    case SmallWord => "\t :.,\"';()[]{}<>=+-*/&|^~!@#$%?"
    case Text => ""
    case Regex => ""
  }

  /** The delimiters are the characters of the word class `build_re` uses,
      so the cursor's word motion and word matching agree; text and regex
      patterns have no delimiter, and the big-word delimiters are exactly
      space and tab, all of them also small-word delimiters. */
  lemma DelimiterAgreesWithWordClass(mt: MatchType)
    ensures forall c :: c in Delimiter(mt) <==> c in WordClass(mt)
    ensures mt == Text || mt == Regex ==> |Delimiter(mt)| == 0
    ensures forall c :: c in Delimiter(BigWord) <==> c == ' ' || c == '\t'
    ensures forall c :: c in Delimiter(BigWord) ==> c in Delimiter(SmallWord)
  {
  }

  /** One entry of the ordered pattern map. */
  datatype Entry = Entry(id: nat, pattern: Pattern)

  /** The ids of the map, in order. */
  function Ids(entries: seq<Entry>): (ids: seq<nat>)
    ensures |ids| == |entries|
    ensures forall i | 0 <= i < |entries| :: ids[i] == entries[i].id
  {
    seq(|entries|, i requires 0 <= i < |entries| => entries[i].id)
  }

  /** The map is ordered by id, as a `BTreeMap` iterates. */
  predicate IdsIncreasing(entries: seq<Entry>) {
    forall i, j | 0 <= i < j < |entries| :: entries[i].id < entries[j].id
  }

  /** `BTreeMap::get`. */
  function Lookup(entries: seq<Entry>, id: nat): (r: Option<Pattern>)
    ensures r.Some? <==> id in Ids(entries)
    ensures r.Some? ==> exists i | 0 <= i < |entries| :: entries[i] == Entry(id, r.value)
  {
    if |entries| == 0 then None
    else if Last(entries).id == id then Some(Last(entries).pattern)
    else
      var r := Lookup(entries[..|entries| - 1], id);
      assert Ids(entries) == Ids(entries[..|entries| - 1]) + [Last(entries).id];
      r
  }

  /** A `PatternSet`: the ordered map from id to pattern as a list sorted by
      id, the longest-first id order, the sequence number (`seq`) and the
      three compiled match sets. */
  datatype PatternSet = PatternSet(
    entries: seq<Entry>,
    sortByLen: seq<nat>,
    seqNo: nat,
    taggedRe: RegexSet,
    searchRe: RegexSet,
    hiddenRe: RegexSet)
  {
    /** The invariant every public operation keeps: ids are sorted and below
        `seq`, and the derived fields are rebuilt from the map. */
    ghost predicate Valid() {
      && IdsIncreasing(entries)
      && (forall i | 0 <= i < |entries| :: entries[i].id < seqNo)
      && seqNo >= 1
      && taggedRe == ModePatterns(entries, Tagging)
      && searchRe == ModePatterns(entries, Search)
      && hiddenRe == ModePatterns(entries, Hiding)
      && sortByLen == SortByLen(entries)
    }
  }

  /** The patterns of one mode, in key order. */
  function ModePatterns(entries: seq<Entry>, mode: PatternMode): (re: RegexSet)
    ensures forall i | 0 <= i < |re| :: re[i].mode == mode
    ensures forall i | 0 <= i < |entries| && entries[i].pattern.mode == mode ::
      entries[i].pattern in re
    ensures forall p | p in re :: exists i | 0 <= i < |entries| :: entries[i].pattern == p
  {
    if |entries| == 0 then []
    else
      var rest := ModePatterns(entries[..|entries| - 1], mode);
      var e := Last(entries);
      if e.pattern.mode == mode then rest + [e.pattern] else rest
  }

  /** `rebuild_re` sorts every pattern into the match set of its mode:
      tagging, search and hiding patterns into exactly their own set, and
      marking patterns into none. */
  lemma RebuildPartitionsByMode(entries: seq<Entry>, i: nat)
    requires i < |entries|
    ensures var p := entries[i].pattern;
      && (p in ModePatterns(entries, Tagging) <==> p.mode == Tagging)
      && (p in ModePatterns(entries, Search) <==> p.mode == Search)
      && (p in ModePatterns(entries, Hiding) <==> p.mode == Hiding)
  {
  }

  /** Byte length of the UTF-8 encoding of one character. */
  function Utf8Width(c: char): nat {
    if c as int < 0x80 then 1
    else if c as int < 0x800 then 2
    else if c as int < 0x10000 then 3
    else 4
  }

  /** `str::len`: byte length of the UTF-8 encoding of a string. */
  function ByteLen(s: string): nat {
    if |s| == 0 then 0 else ByteLen(s[..|s| - 1]) + Utf8Width(Last(s))
  }

  /** Byte length of the text of the pattern under `id`. */
  function PatternLen(entries: seq<Entry>, id: nat): nat {
    match Lookup(entries, id)
    case Some(p) => ByteLen(p.text)
    case None => 0
  }

  /** Ordered by pattern length, then by id. */
  predicate Before(entries: seq<Entry>, a: nat, b: nat) {
    var la := PatternLen(entries, a);
    var lb := PatternLen(entries, b);
    la < lb || (la == lb && a < b)
  }

  /** Each element comes `Before` the next. */
  predicate Ascending(entries: seq<Entry>, s: seq<nat>) {
    forall i | 0 < i < |s| :: Before(entries, s[i - 1], s[i])
  }

  /** One step of the stable sort by length: `x`, whose id is above every
      id in `s`, goes after every element whose pattern is not longer. */
  function InsertByLen(entries: seq<Entry>, s: seq<nat>, x: nat): (r: seq<nat>)
    requires Ascending(entries, s)
    requires forall i | 0 <= i < |s| :: s[i] < x
    ensures Ascending(entries, r)
    ensures multiset(r) == multiset(s) + multiset{x}
    ensures |r| == |s| + 1
    ensures Last(r) == x || (|s| > 0 && Last(r) == Last(s))
  {
    if |s| == 0 || PatternLen(entries, Last(s)) <= PatternLen(entries, x) then
      AscendingAppend(entries, s, x);
      s + [x]
    else
      var init := s[..|s| - 1];
      var r' := InsertByLen(entries, init, x);
      InsertByLenStep(entries, s, x, r');
      r' + [Last(s)]
  }

  /** `x` goes before the last element: inserted into the others, it
      leaves that element last. */
  lemma InsertByLenStep(entries: seq<Entry>, s: seq<nat>, x: nat, r': seq<nat>)
    requires |s| > 0 && Ascending(entries, s)
    requires PatternLen(entries, x) < PatternLen(entries, Last(s))
    requires Ascending(entries, r') && multiset(r') == multiset(s[..|s| - 1]) + multiset{x}
    requires |r'| == |s| && (Last(r') == x || (|s| > 1 && Last(r') == Last(s[..|s| - 1])))
    ensures Ascending(entries, r' + [Last(s)])
    ensures multiset(r' + [Last(s)]) == multiset(s) + multiset{x}
  {
    var init := s[..|s| - 1];
    assert s == init + [Last(s)];
    assert |init| > 0 ==> Before(entries, Last(init), Last(s));
    AscendingAppend(entries, r', Last(s));
  }

  /** An element that comes after the last one extends an ascending
      list. */
  lemma AscendingAppend(entries: seq<Entry>, s: seq<nat>, x: nat)
    requires Ascending(entries, s)
    requires |s| > 0 ==> Before(entries, Last(s), x)
    ensures Ascending(entries, s + [x])
  {
    var r := s + [x];
    forall i | 0 < i < |r|
      ensures Before(entries, r[i - 1], r[i])
    {
      if i < |s| {
        assert r[i - 1] == s[i - 1] && r[i] == s[i];
      }
    }
  }

  /** `lengths.sort_by_key(len)` over the ids in key order: a stable
      insertion sort by pattern length. */
  function StableSortByLen(entries: seq<Entry>, ids: seq<nat>): (r: seq<nat>)
    requires forall i, j | 0 <= i < j < |ids| :: ids[i] < ids[j]
    ensures Ascending(entries, r)
    ensures multiset(r) == multiset(ids)
  {
    if |ids| == 0 then []
    else
      var init := ids[..|ids| - 1];
      var sorted := StableSortByLen(entries, init);
      SortedBelowLast(ids, sorted);
      InsertByLen(entries, sorted, Last(ids))
  }

  /** The ids before the last one, in any order, are all below it, and with
      it make up all the ids. */
  lemma SortedBelowLast(ids: seq<nat>, sorted: seq<nat>)
    requires |ids| > 0 && forall i, j | 0 <= i < j < |ids| :: ids[i] < ids[j]
    requires multiset(sorted) == multiset(ids[..|ids| - 1])
    ensures forall i | 0 <= i < |sorted| :: sorted[i] < Last(ids)
    ensures multiset(ids) == multiset(sorted) + multiset{Last(ids)}
  {
    var init := ids[..|ids| - 1];
    forall i | 0 <= i < |sorted|
      ensures sorted[i] < Last(ids)
    {
      assert sorted[i] in multiset(init);
    }
    assert ids == init + [Last(ids)];
  }

  function Reverse<T>(s: seq<T>): (r: seq<T>)
    ensures |r| == |s|
    ensures forall i | 0 <= i < |s| :: r[i] == s[|s| - 1 - i]
    ensures multiset(r) == multiset(s)
  {
    if |s| == 0 then []
    else
      var r := [Last(s)] + Reverse(s[..|s| - 1]);
      assert s == s[..|s| - 1] + [Last(s)];
      r
  }

  /** `sort_by_len`: the ids, longest pattern first. */
  function SortByLen(entries: seq<Entry>): seq<nat>
    requires IdsIncreasing(entries)
  {
    Reverse(StableSortByLen(entries, Ids(entries)))
  }

  /** The longest-first order is a permutation of the ids, by non-increasing
      byte length of the pattern text, and among patterns of equal length
      the later-added (larger id) one first. */
  lemma SortByLenOrder(entries: seq<Entry>)
    requires IdsIncreasing(entries)
    ensures multiset(SortByLen(entries)) == multiset(Ids(entries))
    ensures var order := SortByLen(entries);
      forall i | 0 < i < |order| ::
        || PatternLen(entries, order[i]) < PatternLen(entries, order[i - 1])
        || (PatternLen(entries, order[i]) == PatternLen(entries, order[i - 1]) && order[i] < order[i - 1])
  {
    var ids := Ids(entries);
    assert forall i, j | 0 <= i < j < |ids| :: ids[i] < ids[j];
    var sorted := StableSortByLen(entries, ids);
    assert Reverse(sorted) == SortByLen(entries);
    ReversedDescends(entries, sorted);
  }

  /** An ascending list read backwards descends. */
  lemma ReversedDescends(entries: seq<Entry>, s: seq<nat>)
    requires Ascending(entries, s)
    ensures var order := Reverse(s);
      forall i | 0 < i < |order| :: Before(entries, order[i], order[i - 1])
  {
    var order := Reverse(s);
    forall i | 0 < i < |order|
      ensures Before(entries, order[i], order[i - 1])
    {
      var k := |s| - 1 - i;
      assert order[i] == s[k];
      assert order[i - 1] == s[k + 1];
    }
  }

  /** Rebuild the derived fields of the map (`rebuild_re`), bumping the
      sequence number. */
  function RebuildRe(entries: seq<Entry>, seqNo: nat): (ps: PatternSet)
    requires IdsIncreasing(entries)
    requires forall i | 0 <= i < |entries| :: entries[i].id <= seqNo
    ensures ps.Valid()
    ensures ps.entries == entries && ps.seqNo == seqNo + 1
  {
    PatternSet(
      entries,
      SortByLen(entries),
      seqNo + 1,
      ModePatterns(entries, Tagging),
      ModePatterns(entries, Search),
      ModePatterns(entries, Hiding))
  }

  /** `PatternSet::new`: no patterns, sequence number 1. */
  function NewPatternSet(): (ps: PatternSet)
    ensures ps.Valid() && ps.seqNo == 1
    ensures forall id :: Lookup(ps.entries, id).None?
  {
    PatternSet([], [], 1, [], [], [])
  }

  /** `PatternSet::add`: the new pattern gets the current sequence number as
      its id; the set is rebuilt under a larger sequence number and no
      other pattern changes. */
  function Add(ps: PatternSet, p: Pattern): (r: (PatternSet, nat))
    requires ps.Valid()
    ensures r.1 == ps.seqNo && Lookup(ps.entries, r.1).None?
    ensures r.0.Valid() && r.0.seqNo > ps.seqNo
    ensures Lookup(r.0.entries, r.1) == Some(p)
    ensures forall id | id != r.1 :: Lookup(r.0.entries, id) == Lookup(ps.entries, id)
  {
    var id := ps.seqNo;
    var entries := ps.entries + [Entry(id, p)];
    AppendEntry(ps.entries, ps.seqNo, p);
    (RebuildRe(entries, ps.seqNo), id)
  }

  /** Appending a pattern under the sequence number keeps the map ordered,
      adds exactly that key, and leaves every other key alone. */
  lemma AppendEntry(entries: seq<Entry>, seqNo: nat, p: Pattern)
    requires IdsIncreasing(entries) && forall i | 0 <= i < |entries| :: entries[i].id < seqNo
    ensures var entries' := entries + [Entry(seqNo, p)];
      && IdsIncreasing(entries')
      && (forall i | 0 <= i < |entries'| :: entries'[i].id <= seqNo)
      && Lookup(entries, seqNo).None?
      && Lookup(entries', seqNo) == Some(p)
      && forall id | id != seqNo :: Lookup(entries', id) == Lookup(entries, id)
  {
    var entries' := entries + [Entry(seqNo, p)];
    assert entries'[..|entries'| - 1] == entries && Last(entries').id == seqNo;
    assert seqNo !in Ids(entries);
    forall i, j | 0 <= i < j < |entries'|
      ensures entries'[i].id < entries'[j].id
    {
      assert entries'[i] == entries[i];
    }
    forall id | id != seqNo
      ensures Lookup(entries', id) == Lookup(entries, id)
    {
    }
  }

  /** The map with the entry under `id` dropped. */
  function RemoveEntry(entries: seq<Entry>, id: nat): (r: seq<Entry>)
    requires IdsIncreasing(entries)
    ensures IdsIncreasing(r)
    ensures |r| > 0 ==> |entries| > 0 && Last(r).id <= Last(entries).id
  {
    if |entries| == 0 then []
    else
      var init := entries[..|entries| - 1];
      var rest := RemoveEntry(init, id);
      if Last(entries).id == id then rest
      else
        var r := rest + [Last(entries)];
        assert IdsIncreasing(r) by {
          forall i, j | 0 <= i < j < |r|
            ensures r[i].id < r[j].id
          {
            if j < |rest| {
              assert r[i] == rest[i] && r[j] == rest[j];
            } else if i < |rest| - 1 {
              assert rest[i].id < Last(rest).id;
            }
          }
        }
        r
  }

  /** Removing an entry drops exactly its key from the map. */
  lemma {:induction false} RemoveEntryLookup(entries: seq<Entry>, id: nat, k: nat)
    requires IdsIncreasing(entries)
    ensures Lookup(RemoveEntry(entries, id), k) == if k == id then None else Lookup(entries, k)
    decreases |entries|
  {
    if |entries| > 0 {
      var init := entries[..|entries| - 1];
      var e := Last(entries);
      assert IdsIncreasing(init);
      RemoveEntryLookup(init, id, k);
      var rest := RemoveEntry(init, id);
      assert Lookup(entries, k) == if e.id == k then Some(e.pattern) else Lookup(init, k);
      if e.id == id {
        assert RemoveEntry(entries, id) == rest;
      } else {
        assert RemoveEntry(entries, id) == rest + [e];
        LookupAppend(rest, e, k);
      }
    }
  }

  /** Looking up a key in a map with one more entry at the end. */
  lemma LookupAppend(entries: seq<Entry>, e: Entry, k: nat)
    ensures Lookup(entries + [e], k) == if e.id == k then Some(e.pattern) else Lookup(entries, k)
  {
    var r := entries + [e];
    assert r[..|r| - 1] == entries && Last(r) == e;
  }

  /** `PatternSet::remove`: `None` models the failed `assert!` on an id
      that is not in the set; otherwise exactly that pattern goes and the
      set is rebuilt under a larger sequence number. */
  function Remove(ps: PatternSet, id: nat): (r: Option<PatternSet>)
    requires ps.Valid()
    ensures r.None? <==> Lookup(ps.entries, id).None?
    ensures r.Some? ==> r.value.Valid() && r.value.seqNo > ps.seqNo
    ensures r.Some? ==> Lookup(r.value.entries, id).None?
    ensures r.Some? ==> forall k | k != id :: Lookup(r.value.entries, k) == Lookup(ps.entries, k)
  {
    if Lookup(ps.entries, id).None? then None
    else
      var entries := RemoveEntry(ps.entries, id);
      assert |entries| > 0 ==> Last(entries).id < ps.seqNo;
      forall k { RemoveEntryLookup(ps.entries, id, k); }
      Some(RebuildRe(entries, ps.seqNo))
  }

  /** The map with the pattern under `id` replaced by `f` of it. */
  function UpdateEntry(entries: seq<Entry>, id: nat, f: Pattern -> Pattern): (r: seq<Entry>)
    requires IdsIncreasing(entries)
    ensures Ids(r) == Ids(entries)
    ensures IdsIncreasing(r)
    ensures forall k | k != id :: Lookup(r, k) == Lookup(entries, k)
    ensures Lookup(entries, id).Some? ==> Lookup(r, id) == Some(f(Lookup(entries, id).value))
  {
    if |entries| == 0 then []
    else
      var init := entries[..|entries| - 1];
      var rest := UpdateEntry(init, id, f);
      var e := Last(entries);
      var r := rest + [if e.id == id then Entry(id, f(e.pattern)) else e];
      assert r[..|r| - 1] == rest;
      assert Ids(r) == Ids(rest) + [e.id];
      assert Ids(entries) == Ids(init) + [e.id];
      r
  }

  /** `PatternSet::with`: apply an edit to one pattern. `None` models the
      `unwrap` on an absent id; otherwise only that pattern changes and the
      set is rebuilt under a larger sequence number. */
  function With(ps: PatternSet, id: nat, f: Pattern -> Pattern): (r: Option<PatternSet>)
    requires ps.Valid()
    ensures r.None? <==> Lookup(ps.entries, id).None?
    ensures r.Some? ==> r.value.Valid() && r.value.seqNo > ps.seqNo
    ensures r.Some? ==> Lookup(r.value.entries, id) == Some(f(Lookup(ps.entries, id).value))
    ensures r.Some? ==> forall k | k != id :: Lookup(r.value.entries, k) == Lookup(ps.entries, k)
  {
    if Lookup(ps.entries, id).None? then None
    else
      var entries := UpdateEntry(ps.entries, id, f);
      Some(RebuildRe(entries, ps.seqNo))
  }

  /** A character of a processed line with the `(pattern id, position)`
      pairs of the matches covering it; its style is left out. */
  datatype StyledChar = StyledChar(c: char, matches: Option<seq<(nat, nat)>>)

  /** How many characters `process_line` pushes before it stops: all of
      them without a crop, otherwise up to the crop count, and always at
      least one character of a non-empty line, since the count is compared
      after the push. */
  function CropCount(len: nat, crop: Option<nat>): (c: nat)
    ensures c <= len && (len > 0 ==> c > 0)
  {
    match crop
    case None => len
    case Some(n) => if len < n then len else if n == 0 then (if len == 0 then 0 else 1) else n
  }

  /** The character loop of `process_line` from the `|pushed|`-th character
      on: push a character, count its UTF-8 bytes, stop once the crop count
      is reached. */
  function CharLoop(line: string, crop: Option<nat>, pushed: string, bytes: nat)
    : (r: (string, nat, bool))
    requires |pushed| <= |line| && pushed == line[..|pushed|]
    requires bytes == ByteLen(pushed)
    requires crop.Some? ==> |pushed| < crop.value || |pushed| == 0
    ensures r.0 == line[..CropCount(|line|, crop)]
    ensures r.1 == ByteLen(r.0)
    ensures r.2 <==> crop.Some? && |line| >= crop.value && |line| > 0
    decreases |line| - |pushed|
  {
    if |pushed| == |line| then
      assert CropCount(|line|, crop) == |pushed|;
      (pushed, bytes, false)
    else
      var c := line[|pushed|];
      var next := pushed + [c];
      assert next == line[..|pushed| + 1];
      assert next[..|next| - 1] == pushed && Last(next) == c;
      assert ByteLen(next) == bytes + Utf8Width(c);
      if crop.Some? && |next| >= crop.value then
        assert CropCount(|line|, crop) == |next|;
        (next, bytes + Utf8Width(c), true)
      else CharLoop(line, crop, next, bytes + Utf8Width(c))
  }

  /** `BTreeSet::insert` on a set kept as a strictly increasing list. */
  function SetInsert(s: seq<nat>, x: nat): (r: seq<nat>)
    requires StrictlyIncreasing(s)
    ensures StrictlyIncreasing(r)
    ensures forall y :: y in r <==> y in s || y == x
  {
    if |s| == 0 then [x]
    else if x == s[0] then s
    else if x < s[0] then
      PrependBelow(x, s);
      [x] + s
    else
      var rest := SetInsert(s[1..], x);
      assert s == [s[0]] + s[1..];
      assert forall k | 0 <= k < |rest| :: rest[k] in rest;
      PrependBelow(s[0], rest);
      [s[0]] + rest
  }

  /** Record a match of pattern `id` on one character: the first match
      stores the match number, later ones the character position. */
  function MarkChar(sc: StyledChar, id: nat, pos: nat, matchNum: nat): StyledChar {
    match sc.matches
    case Some(l) => sc.(matches := Some(l + [(id, pos)]))
    case None => sc.(matches := Some([(id, matchNum)]))
  }

  /** A capture span covers a character of the processed line. */
  predicate Touches(span: (nat, nat), len: nat) {
    span.0 < span.1 && span.0 < len
  }

  /** Mark positions `[i, e)` of one capture, stopping at the end of the
      processed line. */
  function MarkSpan(pline: seq<StyledChar>, ids: seq<nat>, id: nat, i: nat, e: nat, matchNum: nat)
    : (r: (seq<StyledChar>, seq<nat>))
    requires StrictlyIncreasing(ids)
    ensures |r.0| == |pline|
    ensures forall k | 0 <= k < |pline| :: r.0[k].c == pline[k].c
    ensures StrictlyIncreasing(r.1)
    ensures forall y :: y in r.1 <==> y in ids || (y == id && i < e && i < |pline|)
    decreases e - i
  {
    if i >= e || i >= |pline| then (pline, ids)
    else MarkSpan(pline[i := MarkChar(pline[i], id, i, matchNum)], SetInsert(ids, id), id, i + 1, e, matchNum)
  }

  /** Mark every capture of one pattern, numbering the captures. */
  function MarkCaptures(pline: seq<StyledChar>, ids: seq<nat>, id: nat, spans: seq<(nat, nat)>, matchNum: nat)
    : (r: (seq<StyledChar>, seq<nat>, nat))
    requires StrictlyIncreasing(ids)
    ensures |r.0| == |pline|
    ensures forall k | 0 <= k < |pline| :: r.0[k].c == pline[k].c
    ensures StrictlyIncreasing(r.1)
    ensures forall y :: y in r.1 <==> y in ids || (y == id && exists s | s in spans :: Touches(s, |pline|))
    ensures r.2 == matchNum + |spans|
    decreases |spans|
  {
    if |spans| == 0 then (pline, ids, matchNum)
    else
      var (pl, ids') := MarkSpan(pline, ids, id, spans[0].0, spans[0].1, matchNum);
      var r := MarkCaptures(pl, ids', id, spans[1..], matchNum + 1);
      assert spans == [spans[0]] + spans[1..];
      assert Touches(spans[0], |pline|) <==> spans[0].0 < spans[0].1 && spans[0].0 < |pline|;
      forall y
        ensures y in r.1 <==> y in ids || (y == id && exists s | s in spans :: Touches(s, |pline|))
      {
        if y == id && Touches(spans[0], |pline|) {
          assert y in ids';
        }
      }
      r
  }

  /** The capture spans (byte offsets of group 1) of the successive matches
      of a pattern within the first `limit` bytes of a line: the foreign
      `Regex::captures_iter`. */
  type Captures = (Pattern, string, nat) -> seq<(nat, nat)>

  /** How far into the line a pattern is searched: the bytes kept plus the
      pattern length, so that a match running over the crop is caught. */
  function MatchLimit(bytes: nat, p: Pattern, line: string): nat {
    var l := bytes + ByteLen(p.text);
    if l < ByteLen(line) then l else ByteLen(line)
  }

  /** Some capture of pattern `id` touches the processed line. */
  ghost predicate PatternTouches(entries: seq<Entry>, captures: Captures, line: string, bytes: nat,
    len: nat, id: nat)
  {
    match Lookup(entries, id)
    case Some(p) => exists s | s in captures(p, line, MatchLimit(bytes, p, line)) :: Touches(s, len)
    case None => false
  }

  /** The pattern loop of `process_line`, over the ids in `order`. */
  function MarkPatterns(entries: seq<Entry>, captures: Captures, line: string, bytes: nat,
    pline: seq<StyledChar>, ids: seq<nat>, order: seq<nat>, matchNum: nat)
    : (r: (seq<StyledChar>, seq<nat>))
    requires StrictlyIncreasing(ids)
    requires forall k | 0 <= k < |order| :: Lookup(entries, order[k]).Some?
    ensures |r.0| == |pline|
    ensures forall k | 0 <= k < |pline| :: r.0[k].c == pline[k].c
    ensures StrictlyIncreasing(r.1)
    ensures forall y :: y in r.1 <==>
      y in ids || (y in order && PatternTouches(entries, captures, line, bytes, |pline|, y))
    decreases |order|
  {
    if |order| == 0 then (pline, ids)
    else
      var id := order[0];
      var p := Lookup(entries, id).value;
      var spans := captures(p, line, MatchLimit(bytes, p, line));
      var (pl, ids', n) := MarkCaptures(pline, ids, id, spans, matchNum);
      assert order == [id] + order[1..];
      MarkPatterns(entries, captures, line, bytes, pl, ids', order[1..], n)
  }

  /** Strip one trailing newline character. */
  function DropNewline(chars: string): (r: string)
    ensures r == chars || (|chars| > 0 && Last(chars) == '\n' && r == chars[..|chars| - 1])
    ensures |r| > 0 ==> r == chars[..|r|]
  {
    if |chars| > 0 && Last(chars) == '\n' then chars[..|chars| - 1] else chars
  }

  /** The longest-first order holds exactly the ids of the map. */
  lemma OrderCoversKeys(ps: PatternSet, captures: Captures, line: string, bytes: nat, len: nat)
    requires ps.Valid()
    ensures forall k | 0 <= k < |ps.sortByLen| :: Lookup(ps.entries, ps.sortByLen[k]).Some?
    ensures forall id | PatternTouches(ps.entries, captures, line, bytes, len, id) :: id in ps.sortByLen
  {
    SortByLenOrder(ps.entries);
    forall k | 0 <= k < |ps.sortByLen|
      ensures Lookup(ps.entries, ps.sortByLen[k]).Some?
    {
      assert ps.sortByLen[k] in multiset(Ids(ps.entries));
    }
    forall id | PatternTouches(ps.entries, captures, line, bytes, len, id)
      ensures id in ps.sortByLen
    {
      assert id in multiset(Ids(ps.entries));
    }
  }

  /** A byte offset of a string that falls between two of its characters. */
  predicate CharBoundary(line: string, b: nat) {
    exists j | 0 <= j <= |line| :: ByteLen(line[..j]) == b
  }

  /** Some pattern's match limit falls inside a character of the line:
      the slice `&line[..match_len]` panics there. */
  predicate SlicePanics(ps: PatternSet, line: string, bytes: nat) {
    exists k | 0 <= k < |ps.sortByLen| ::
      && Lookup(ps.entries, ps.sortByLen[k]).Some?
      && !CharBoundary(line, MatchLimit(bytes, Lookup(ps.entries, ps.sortByLen[k]).value, line))
  }

  /** `process_line`: the line's characters cut to the crop count, less one
      trailing newline; the ids of the patterns whose captures touch a kept
      character, sorted and without duplicates; and whether the crop count
      was reached. `None` is the panic of slicing the line inside a
      character when a pattern's match limit lands there. */
  function ProcessLine(ps: PatternSet, captures: Captures, line: string, crop: Option<nat>)
    : (r: Option<(seq<StyledChar>, seq<nat>, bool)>)
    requires ps.Valid()
    ensures r.None? <==> SlicePanics(ps, line, ByteLen(line[..CropCount(|line|, crop)]))
    ensures r.Some? ==> var kept := line[..CropCount(|line|, crop)];
      && |r.value.0| == |DropNewline(kept)|
      && (forall i | 0 <= i < |r.value.0| :: r.value.0[i].c == kept[i])
      && (|kept| > 0 && Last(kept) == '\n' ==> |r.value.0| == |kept| - 1)
      && (|kept| > 0 && Last(kept) != '\n' ==> |r.value.0| == |kept|)
    ensures r.Some? ==> StrictlyIncreasing(r.value.1)
    ensures r.Some? ==> forall id :: id in r.value.1 <==>
      PatternTouches(ps.entries, captures, line, ByteLen(line[..CropCount(|line|, crop)]), |r.value.0|, id)
    ensures r.Some? ==> (r.value.2 <==> crop.Some? && |line| >= crop.value && |line| > 0)
  {
    var cl := CharLoop(line, crop, [], 0);
    if SlicePanics(ps, line, cl.1) then None
    else
      var pline := Unstyled(line, crop, cl.0);
      OrderCoversKeys(ps, captures, line, cl.1, |pline|);
      var m := MarkPatterns(ps.entries, captures, line, cl.1, pline, [], ps.sortByLen, 0);
      assert forall id :: id in m.1 <==> PatternTouches(ps.entries, captures, line, cl.1, |pline|, id);
      Some((m.0, m.1, cl.2))
  }

  /** Every character of an ASCII string is one byte. */
  lemma {:induction false} AsciiByteLen(s: string)
    requires forall i | 0 <= i < |s| :: s[i] as int < 0x80
    ensures ByteLen(s) == |s|
    decreases |s|
  {
    if |s| > 0 {
      AsciiByteLen(s[..|s| - 1]);
    }
  }

  /** Without a crop a match limit is the line's length, and on an ASCII
      line every offset is a character boundary. */
  lemma LimitOnBoundary(line: string, crop: Option<nat>, p: Pattern)
    requires crop.None? || (forall i | 0 <= i < |line| :: line[i] as int < 0x80)
    ensures CharBoundary(line, MatchLimit(ByteLen(line[..CropCount(|line|, crop)]), p, line))
  {
    var b := MatchLimit(ByteLen(line[..CropCount(|line|, crop)]), p, line);
    if crop.None? {
      assert line[..|line|] == line;
      assert ByteLen(line[..|line|]) == b;
    } else {
      AsciiByteLen(line);
      AsciiByteLen(line[..b]);
      assert ByteLen(line[..b]) == b;
    }
  }

  /** `process_line` panics only on a cropped line with a character of
      several bytes. */
  lemma ProcessLineNoPanic(ps: PatternSet, captures: Captures, line: string, crop: Option<nat>)
    requires ps.Valid()
    requires crop.None? || (forall i | 0 <= i < |line| :: line[i] as int < 0x80)
    ensures ProcessLine(ps, captures, line, crop).Some?
  {
    forall k | 0 <= k < |ps.sortByLen| && Lookup(ps.entries, ps.sortByLen[k]).Some?
      ensures CharBoundary(line, MatchLimit(ByteLen(line[..CropCount(|line|, crop)]),
        Lookup(ps.entries, ps.sortByLen[k]).value, line))
    {
      LimitOnBoundary(line, crop, Lookup(ps.entries, ps.sortByLen[k]).value);
    }
  }

  /** A set holding one search pattern "a". */
  function OneSearch(): (ps: PatternSet)
    ensures ps.Valid() && ps.sortByLen == [0]
  {
    var entries := [Entry(0, Pattern("a", Search, Text))];
    SortByLenOrder(entries);
    assert Ids(entries) == [0];
    var order := SortByLen(entries);
    assert |order| == 1 && order[0] in multiset(order);
    PatternSet(entries, order, 1, ModePatterns(entries, Tagging), ModePatterns(entries, Search),
      ModePatterns(entries, Hiding))
  }

  /** Cropping "\U{e9}\U{e9}" (two two-byte characters) to one character
      keeps two bytes; a one-byte pattern makes the match limit 3, inside
      the second character, and the slice panics. */
  lemma CropInsideCharPanics(captures: Captures)
    ensures ProcessLine(OneSearch(), captures, "\U{e9}\U{e9}", Some(1)).None?
  {
    var ps := OneSearch();
    var line := "\U{e9}\U{e9}";
    assert line[..1] == "\U{e9}" && ByteLen("\U{e9}") == 2;
    assert Lookup(ps.entries, 0) == Some(Pattern("a", Search, Text));
    assert ByteLen("a") == 1;
    assert line[..0] == [] && line[..2] == line;
    assert ByteLen(line) == 4;
    assert MatchLimit(2, Pattern("a", Search, Text), line) == 3;
    assert !CharBoundary(line, 3);
  }

  /** The kept characters less one trailing newline, not yet styled. */
  function Unstyled(line: string, crop: Option<nat>, kept: string): (pline: seq<StyledChar>)
    requires kept == line[..CropCount(|line|, crop)]
    ensures |pline| == |DropNewline(kept)|
    ensures forall i | 0 <= i < |pline| :: pline[i].c == kept[i] && pline[i].matches.None?
    ensures |kept| > 0 && Last(kept) == '\n' ==> |pline| == |kept| - 1
    ensures |kept| > 0 && Last(kept) != '\n' ==> |pline| == |kept|
  {
    var chars := DropNewline(kept);
    seq(|chars|, i requires 0 <= i < |chars| => StyledChar(chars[i], None))
  }
}
