# logrok core in Dafny

logrok is a terminal viewer for large log files. It never loads the whole
file. Instead it cuts the file into chunks of about 1 MiB that end at a
newline. Worker threads scan the chunks in the background for the tag and
search patterns. Chunks that are looked at are read into a least-recently-used
cache, split into lines, and annotated with the lines each pattern class
matches. Line ids are byte offsets into the file. Moving to the next or
previous line searches for the nearest line that the display mode shows,
and uses the background results to skip whole chunks with nothing to show.

This project models that core as pure functions over immutable data:

- `Partition` (`partition.dfy`): `split_file`, `get_split`, `find_split` and
  the largest chunk length. The file is a byte sequence.
- `Scanner` (`scanner.dfy`): the background search state of `FileSearch`.
  This covers `set_re`, `set_current_split`, `search_next`, the claim and
  commit steps of `search_thread`, and `split_has_matches`. An invariant over
  the scanner and the jobs in flight says that every recorded result is
  correct.
- `Patterns` (`pattern.dfy`): `PatternSet` with its id and sequence
  numbering (`new`, `add`, `remove`, `with`, `rebuild_re`), the
  longest-first order, `process_line` and the word delimiters.
- `Cache` (`cache.dfy`): chunk line ends, annotation, and the
  hit, stale and miss paths of `get` over an LRU list.
- `Lines` (`lines.dfy`): tags and hides, `resolve_line_id`, `is_filtered`,
  `skip_split`, `next_line`, `prev_line` and `last_line_id`.
- `Screen` (`screen.dfy`): the integer helpers of `src/main.rs`, which place
  wrapped lines and the cursor on screen, cycle the display mode, search
  along a line and clamp the cursor column.
- `QHash` (`qhash.dfy`): the sampling intervals of the quick file hash for
  small files.

The regex engine is foreign code. A compiled match set is the list of its
patterns, and whether a pattern matches a byte buffer is a function
parameter (`Patterns.Engine`). Capture spans (`Patterns.Captures`) are
parameters as well. Rust panics become an explicit outcome (`None`,
`Fatal`, `Defect`, `Panicked` or `OutOfLine`, depending on the member).
Where the source has a defect, the model keeps the behaviour as written and
a corrected variant side by side. Members shared by both take an
`asWritten` flag, and the rest of the model runs the code as written. Integer widths are written
out where they matter (`u16` screen sizes, `i16` cursor columns, the
`usize::MAX` line-index marker).

## Model

| member | source | states |
|---|---|---|
| Bytes.FirstNewline | src/search.rs:286-295 | The first newline at or after the start, with no newline between the start and it. `None` exactly when no newline follows the start. |
| Seqs.UpperBoundIn | src/lines.rs:85-88 | Bisection over a sorted range: every element of the range before the result is at most `x`, and every one from it on is above `x`. |
| Seqs.UpperBound | src/search.rs:243-246 | The number of elements at most `x` in a sorted list. Every earlier element is at most `x` and every later one is above it. On a strictly increasing list this is where `Ok(i) => i + 1, Err(i) => i` lands. |
| Partition.SplitFile | src/search.rs:277-303 | The boundary list is never empty and always ends with the file length, whether or not the file ends in a newline. |
| Partition.SplitFrom | src/search.rs:281-299 | The resumed scan reports each boundary one past the first newline from its scan start, and its last scan reaches the end of the file without a newline. |
| Partition.ScanOkCons | src/search.rs:285-296 | A first boundary followed by the findings of the scan resumed past it is what the whole scan reports. |
| Partition.ScanOkTail | src/search.rs:285-296 | Conversely, a scan's findings after its first boundary are those of the scan resumed `chunk_size` bytes past it. |
| Partition.SplitOfScan | src/search.rs:277-303 | A list is the scan's findings plus the file length exactly when those findings are what a scan from `chunk_size` reports. |
| Partition.SplitFileIsSplit | src/search.rs:277-303 | `split_file` meets its description: each boundary but the last is one past the first newline at or after its scan start, and the last is the file length. |
| Partition.SplitIsUnique | src/search.rs:277-303 | The description determines the list: any boundary list meeting it is the one `split_file` computes. |
| Partition.ScanIsUnique | src/search.rs:281-299 | Any findings meeting the scan description from a start are the resumed scan's findings. |
| Partition.NoNewlineMeansNone | src/search.rs:286-290 | A stretch with no newline up to the end of the file makes the newline search report none. |
| Partition.FirstNewlineIsUnique | src/search.rs:291-295 | A newline with none before it from the scan start is the one the newline search reports. |
| Partition.SplitGrowsByChunk | src/search.rs:291-294 | Every boundary but the last lies at least `chunk_size + 1` bytes past the previous one. |
| Partition.SplitOrder | src/search.rs:277-303 | Boundaries never decrease. Only the final two can coincide, and they do exactly when the scan's last boundary is already the file length. |
| Partition.FoundIncreasing | src/search.rs:281-299 | The scan's findings strictly increase and lie past the start and within the file. |
| Partition.DuplicateFinalBoundary | src/search.rs:291-300 | As written: a file longer than the chunk size whose only newline past it is its last byte gets two equal boundaries, the second an empty chunk. |
| Partition.SplitFileDistinct | src/search.rs:277-303 | Corrected split: the list strictly increases and ends at the file length. Every other boundary follows a newline, and the first is positive for a non-empty file. |
| Partition.SplitFileDistinctDropsDuplicate | src/search.rs:300 | The corrected list is the as-written one without the duplicated final boundary, and equal to it otherwise. |
| Partition.GetSplit | src/search.rs:264-274 | `None` exactly past the last chunk. Otherwise the range ends at the chunk's boundary and starts at 0 or where the previous chunk ends. |
| Partition.ChunksCoverFile | src/search.rs:264-274 | The chunks laid end to end give back the file exactly. |
| Partition.ChunksArePrefix | src/search.rs:264-274 | The first `k` chunks laid end to end are the file up to boundary `k - 1`. |
| Partition.FindSplit | src/search.rs:238-262 | `Some` exactly for an offset inside the file, and then the chunk's range holds the offset. |
| Partition.FindSplitUnique | src/search.rs:238-262 | With no empty chunk, `find_split` returns the only chunk whose range holds the offset. |
| Partition.MaxSplitLen | src/search.rs:56-61 | Every chunk fits the worker buffer, and some chunk fills it. |
| Partition.MaxLenOfFirst | src/search.rs:56-61 | The same, for the first `k` chunks. |
| Scanner.NewScanner | src/search.rs:53-105 | As written, over the boundaries `split_file` gives, repeated final boundary included. The scanner is valid, every class starts clean with no matches, nothing is in progress, and every chunk fits the largest-chunk buffer. |
| Scanner.NewScannerOn | src/search.rs:53-105 | Over any boundary list ending at the file length, the scanner is valid and keeps the list. Every class starts with no set, clean and with no matches. Nothing is in progress, and every chunk fits the largest-chunk buffer. |
| Scanner.NewScannerCorrected | src/search.rs:53-105 | The same over the corrected split, whose boundaries strictly increase. |
| Scanner.SetRe | src/search.rs:106-114 | Installs the set and bumps the class's sequence number. Every chunk of the class becomes dirty; its match bits and every other class are unchanged. |
| Scanner.SetCurrentSplit | src/search.rs:116-119 | Only the current chunk changes, and the scanner stays valid. |
| Scanner.FirstSetFrom | src/search.rs:138 | The first set bit at or after `from`, or `None` when no bit there is set. |
| Scanner.LastSetBelow | src/search.rs:155 | The last set bit below the bound, or `None` when no bit below it is set. |
| Scanner.SearchLoop | src/search.rs:136-171 | Any chunk found is dirty and not in progress. With the corrected downward step, `None` means every dirty chunk is in progress. |
| Scanner.UpStep | src/search.rs:137-152 | A chunk the upward step finds is dirty and not in progress, at or above where it looked. The step continues strictly above that point and inside the file. |
| Scanner.DownStep | src/search.rs:153-170 | A chunk the downward step finds is dirty and not in progress, below its bound. The step continues strictly below that bound. |
| Scanner.StepsKeepPending | src/search.rs:137-170 | An unproductive round of corrected steps leaves every claimable chunk in the ranges still to search. |
| Scanner.SearchNext | src/search.rs:132-174 | As written: a chunk found is dirty and not in progress. |
| Scanner.SearchNextCorrected | src/search.rs:132-174 | Corrected: the chunk found is claimable, and `None` exactly when every dirty chunk of the class is in progress. |
| Scanner.SearchNextIdle | src/search.rs:132-174 | With nothing in progress both versions agree: the first dirty chunk at or after the current one, else the last dirty one before it. |
| Scanner.SearchNextSkipsChunk | src/search.rs:157-160 | As written, a claimable chunk just below an in-progress one is never found, while the corrected search finds it. |
| Scanner.FirstClassWithWork | src/search.rs:184-190 | The first class, from `i` on, whose search (as written or corrected) finds a chunk, together with that chunk. The search finds nothing in every class before it. |
| Scanner.Claim | src/search.rs:181-207 | Never claims when every dirty chunk is in progress. With nothing in progress, `None` (the wait) exactly when no chunk is dirty. Corrected, `None` only when nothing is claimable. A job is a dirty chunk, not in progress, of the first class whose search finds one. That chunk is marked in progress, and the job carries the class's sequence number, match set and byte range. |
| Scanner.NoWorkBelow | src/search.rs:184-194 | Classes whose search finds nothing have every dirty chunk in progress. This holds for the corrected search, and for the search as written when nothing is in progress. |
| Scanner.ClaimWaitsWithWork | src/search.rs:184-207 | As written, the worker waits in the state of `SearchNextSkipsChunk` although chunk 0 is dirty and free. The corrected claim takes chunk 0 there. |
| Scanner.Commit | src/search.rs:216-228 | Always releases the chunk. Only when the sequence number is unchanged does it clear the dirty bit and record the result; nothing else changes. |
| Scanner.ClaimCommitProgress | src/search.rs:181-228 | A claim, as written or corrected, followed by its commit leaves one dirty chunk fewer in the class and the same chunks in progress. |
| Scanner.StaleJobDiscarded | src/search.rs:106-114 | A job claimed before a `set_re` is discarded at commit, and its chunk stays dirty. |
| Scanner.NewSatisfiesInv | src/search.rs:53-105 | A new scanner with no jobs satisfies the invariant that recorded results are correct, on the split as written and on the corrected one. |
| Scanner.NewOnSatisfiesInv | src/search.rs:53-105 | Any valid scanner whose classes have no set and no dirty or matching chunk satisfies the invariant with no jobs. |
| Scanner.SetReKeepsInv | src/search.rs:106-114 | `set_re` keeps the invariant. |
| Scanner.ClaimKeepsInv | src/search.rs:181-207 | A claim, as written or corrected, keeps the invariant, the new job included. |
| Scanner.Scan | src/search.rs:210-213 | The worker's `is_match` on the claimed chunk's bytes, with no contract of its own. `Scanner.FinishKeepsInv` and `Scanner.SplitHasMatchesSound` state what the recorded result means. |
| Scanner.FinishKeepsInv | src/search.rs:210-228 | A worker scanning and committing any job in flight keeps the invariant, whatever happened since the claim. |
| Scanner.SplitHasMatches | src/search.rs:121-130 | `None` (the wait) exactly on a dirty chunk; otherwise the recorded match bit. |
| Scanner.SplitHasMatchesSound | src/search.rs:121-130 | Under the invariant, an answer is whether the class's current match set matches the chunk's bytes. |
| Patterns.Delimiter | src/pattern.rs:25-33 | `MatchType::delimiter`, a table with no contract of its own. `Patterns.DelimiterAgreesWithWordClass` characterises it against the class `build_re` puts around a word. |
| Patterns.DelimiterAgreesWithWordClass | src/pattern.rs:26-53 | The cursor's word delimiters are exactly the characters of the class `build_re` puts around a word. Text and regex have none; big-word delimiters are space and tab, which are also small-word delimiters. |
| Patterns.Ids | src/pattern.rs:99-120 | The ids of the map, one per entry, in order. |
| Patterns.Lookup | src/pattern.rs:147-149 | Finds a pattern exactly for an id of the map, and it is the entry stored under that id. |
| Patterns.ModePatterns | src/pattern.rs:97-114 | A match set holds only patterns of its mode, every map pattern of that mode, and nothing from outside the map. |
| Patterns.RebuildPartitionsByMode | src/pattern.rs:97-114 | Each pattern is in the tag, search or hide set exactly when its mode is that one, so marking patterns are in none. |
| Patterns.InsertByLen | src/pattern.rs:116-119 | Insertion into a list ordered by length then id keeps it ordered and adds exactly the new id. |
| Patterns.StableSortByLen | src/pattern.rs:116-119 | A stable sort by length: ordered by length then id, and a permutation of the ids. |
| Patterns.Reverse | src/pattern.rs:120 | The reversed list, element for element, as a permutation. |
| Patterns.SortByLen | src/pattern.rs:116-120 | The `sort_by_len` construction, with no contract of its own. `Patterns.SortByLenOrder` characterises it: a permutation of the ids, longest first, larger id first among equal lengths. |
| Patterns.SortByLenOrder | src/pattern.rs:116-120 | `sort_by_len` is a permutation of the ids, longest pattern first, larger id first among equal lengths. |
| Patterns.RebuildRe | src/pattern.rs:97-122 | Rebuilding keeps the map, bumps the sequence number and gives a valid set. |
| Patterns.NewPatternSet | src/pattern.rs:85-95 | An empty, valid set with sequence number 1. |
| Patterns.Add | src/pattern.rs:124-139 | The new id is the old sequence number, not in use before. The set maps it to the pattern, leaves every other id alone, stays valid and gets a larger sequence number. |
| Patterns.AppendEntry | src/pattern.rs:124-139 | The entry added under the sequence number keeps the ids sorted, maps that new key to the pattern and leaves every other key alone. |
| Patterns.RemoveEntry | src/pattern.rs:141-145 | Removal keeps the ids sorted. |
| Patterns.RemoveEntryLookup | src/pattern.rs:141-145 | After removal the id maps to nothing and every other id is unchanged. |
| Patterns.Remove | src/pattern.rs:141-145 | `None` (the failed assert) exactly for an unknown id. Otherwise the id is gone, every other id is unchanged, and the set is valid with a larger sequence number. |
| Patterns.UpdateEntry | src/pattern.rs:151-158 | Updating keeps the ids. The id's pattern is transformed and every other id is unchanged. |
| Patterns.With | src/pattern.rs:151-158 | `None` (the failed unwrap) exactly for an unknown id. Otherwise only that pattern is transformed, and the set is valid with a larger sequence number. |
| Patterns.CharLoop | src/pattern.rs:186-199 | The characters pushed are the line cut to the crop count, with their UTF-8 byte total. Cropped exactly when a crop is set, reached, and the line is not empty. |
| Patterns.CropCount | src/pattern.rs:188-198 | The loop pushes at most the whole line, and at least one character of a non-empty line. |
| Patterns.SetInsert | src/pattern.rs:221 | `BTreeSet::insert`: the set gains exactly the element and stays sorted. |
| Patterns.MarkSpan | src/pattern.rs:211-222 | Marking a capture keeps the characters. The id joins the match set exactly when the span covers a character of the line. |
| Patterns.MarkCaptures | src/pattern.rs:209-224 | Marking keeps the characters. The id joins exactly when some capture touches the line, and each capture takes one match number. |
| Patterns.MarkPatterns | src/pattern.rs:204-225 | Marking keeps the characters. An id is in the result exactly when it was already, or it is in the order and some capture of its pattern touches the line. |
| Patterns.DropNewline | src/pattern.rs:200-202 | The input, or the input less one trailing newline. |
| Patterns.OrderCoversKeys | src/pattern.rs:204-205 | Every id of the longest-first order is in the map, and every pattern that touches the line is in the order. |
| Patterns.MatchLimit | src/pattern.rs:206 | `match_len`, with no contract of its own. `Patterns.LimitOnBoundary` and `Patterns.CropInsideCharPanics` say when it falls on a character boundary. |
| Patterns.ProcessLine | src/pattern.rs:180-229 | `None` (the panic) exactly when some pattern's match limit falls inside a character of the line. Otherwise the line is cut to the crop count, less one trailing newline. The matches are the sorted ids of the patterns whose captures touch a kept character. Cropped exactly when a crop was reached. |
| Patterns.LimitOnBoundary | src/pattern.rs:205-209 | Without a crop, or on an ASCII line, every match limit is a character boundary of the line. |
| Patterns.ProcessLineNoPanic | src/pattern.rs:180-229 | Without a crop, or on an ASCII line, `process_line` does not panic. |
| Patterns.CropInsideCharPanics | src/pattern.rs:205-209 | Cropping a line of two two-byte characters to one, with a one-byte pattern, puts the match limit inside the second character, and the slice panics. |
| Patterns.Unstyled | src/pattern.rs:189-203 | One unmatched character per kept character, less one trailing newline. |
| Cache.LineEndsFrom | src/cache.rs:139-147 | Every offset found is just past a newline within the buffer. |
| Cache.LineEndsFromIncreasing | src/cache.rs:139-147 | The offsets strictly increase. |
| Cache.LineEndsFromComplete | src/cache.rs:139-147 | Every newline at or after the start is found. |
| Cache.LineEnds | src/cache.rs:137-151 | The line ends strictly increase and the last one is the buffer length. Every other end follows a newline. |
| Cache.NewlineEndsLine | src/cache.rs:137-151 | Every newline ends a line. |
| Cache.NoEndInside | src/cache.rs:137-151 | No line end falls strictly inside a line. |
| Cache.LineTextIsLine | src/cache.rs:175-186 | Corrected line text: it holds no newline, and the line is its text plus the newline that ended it. Only the last line may lack one. |
| Cache.LineTextNoNewline | src/cache.rs:175-186 | The corrected text of any line holds no newline. |
| Cache.LinesTileBuffer | src/cache.rs:137-151 | The lines laid end to end give back the chunk. |
| Cache.LineTextAsWritten | src/cache.rs:176 | The slice `buf[start..end-1]`, with no contract of its own; `None` stands for its panic. `Cache.LineTextAsWrittenDropsLastByte` and `Cache.MatchTextFails` characterise it. |
| Cache.LineTextAsWrittenDropsLastByte | src/cache.rs:175-186 | As written, a line ending in a newline is matched on its text, but a last line without one loses its last byte, and an empty chunk panics. |
| Cache.LastByteDroppedExample | src/cache.rs:176 | A chunk holding `ab` is matched as `a` as written and as `ab` when corrected. |
| Cache.MatchTextFails | src/cache.rs:175-186 | The text a line is matched on is missing exactly for the as-written slice of an empty chunk. |
| Cache.MatchingLines | src/cache.rs:175-186 | The sorted indices of exactly the lines whose text the match set matches. As written the text is `buf[start..end-1]`; corrected, it is the line less its newline. |
| Cache.SlicesOk | src/cache.rs:175-186 | True exactly when the slice of each of the first `n` lines can be taken. |
| Cache.SlicesOkExactly | src/cache.rs:175-186 | Every line's slice of a chunk can be taken exactly when the text is corrected or the chunk is not empty. |
| Cache.Annotate | src/cache.rs:166-191 | `None` (the panic) exactly when some line's slice cannot be taken. Otherwise annotation keeps the bytes and line ends, stamps the current sequence number, and lists exactly the tag, search and hide matches per line. |
| Cache.AnnotatedIsUnique | src/cache.rs:166-191 | The annotation of given bytes and line ends is unique. |
| Cache.SortedSetsEqual | src/cache.rs:175-186 | Two sorted lists with the same members are equal. |
| Cache.Fresh | src/cache.rs:121-191 | As written, reading an empty chunk panics, and only then. Otherwise a fresh read holds the chunk's bytes and their line ends, correctly annotated. |
| Cache.Find | src/cache.rs:110 | The entry under the id, or `None` when no entry has that key. |
| Cache.Pop | src/cache.rs:110 | `LruCache::pop`: returns the entry and removes it. Every other key is unchanged, and the list shrinks by one exactly when the key was present. |
| Cache.Put | src/cache.rs:114 | `LruCache::put`: the entry becomes most recent. Other surviving keys are unchanged, capacity is respected, and nothing is evicted while there is room. |
| Cache.FindAppend | src/cache.rs:197 | Appending a new key makes it findable and changes no other key. |
| Cache.Get | src/cache.rs:107-200 | On a miss, `get` panics exactly for an unknown chunk id or, as written, an empty chunk. On a hit, it panics only when re-annotating a stale empty chunk as written. A miss past the end of a shrunk file fails and leaves the cache alone; a miss read otherwise is what a fresh read gives. A hit returns the entry, re-annotated if stale. Either way the chunk becomes the most recent entry, stamped with the current sequence number. |
| Cache.Load | src/cache.rs:121-200 | A miss panics exactly for an unknown id or, as written, an empty chunk. The read fails exactly when the file ends before the chunk does, and then the cache is left alone. Otherwise the chunk is stamped with the current sequence number, put as the most recent entry, and is what a fresh read gives. |
| Cache.ReadChunk | src/cache.rs:126-135 | `read_exact` fails exactly when the file ends before the range does; otherwise it returns the range's bytes. |
| Cache.Reannotate | src/cache.rs:110-120 | A chunk with the current sequence number is kept as it is. Any other is annotated again over the same bytes, which panics as written exactly for an empty chunk. |
| Cache.PopKeepsLruOk | src/cache.rs:110 | Removing an entry keeps the cache's invariant. |
| Cache.FoundLineEnds | src/cache.rs:110-120 | A cached chunk's line ends are those of its bytes. |
| Cache.PutKeepsLruOk | src/cache.rs:197 | Adding a chunk whose line ends fit its bytes keeps the invariant. |
| Cache.GetIsFresh | src/cache.rs:107-200 | On a coherent cache `get` never fails to read. It panics exactly on an unknown id or, as written, an empty chunk. Otherwise it returns exactly the chunk a fresh read gives. |
| Cache.GetHitIsFresh | src/cache.rs:110-120 | A hit on a coherent cache is a known chunk, non-empty as written, and returns what a fresh read gives, whether current or stale. |
| Cache.GetMissIsFresh | src/cache.rs:121-135 | On a miss over a file the boundaries fit in, the read never fails. The panic happens exactly for an id past the last chunk or, as written, an empty chunk. The chunk returned is a fresh read. |
| Cache.GetKeepsCoherence | src/cache.rs:107-200 | `get` leaves a coherent cache coherent. |
| Cache.KeptEntryOk | src/cache.rs:197 | Entries surviving `get` stay correct. |
| Cache.FoundEntryOk | src/cache.rs:110 | A cached entry of a coherent cache is correct. |
| Cache.FindUnique | src/cache.rs:110 | With unique keys, each entry is what its key finds. |
| Cache.PatternChangeKeepsCoherence | src/cache.rs:111-120 | After the sequence number moves on, every cached chunk is stale yet the cache stays coherent. |
| Cache.EmptyChunkPanics | src/cache.rs:176 | On the empty chunk of a repeated final boundary, `get` as written panics and the corrected cache returns the chunk. |
| Lines.Toggle | src/lines.rs:52-58 | Toggling flips membership of the id and keeps every other id. |
| Lines.ToggleTwice | src/lines.rs:52-58 | Toggling twice restores the set. |
| Lines.ToggleTag | src/lines.rs:52-62 | `is_tagged` flips for the id only, and hides are untouched. |
| Lines.ToggleHide | src/lines.rs:64-74 | `is_hidden` flips for the id only, and tags are untouched. |
| Lines.Ends | src/cache.rs:137-151 | A loaded chunk's line ends strictly increase and end at the chunk length. |
| Lines.Resolve | src/lines.rs:77-91 | `None` exactly for an offset past the file. Otherwise the resolved line starts at or before the offset and ends after it. |
| Lines.LineInChunk | src/lines.rs:77-91 | Each line of a non-empty chunk lies inside the chunk. |
| Lines.OffsetInOneChunk | src/search.rs:238-262 | An offset lies in at most one chunk. |
| Lines.ResolveLineStart | src/lines.rs:77-91 | Resolving a line's start gives that line back. |
| Lines.IsFiltered | src/lines.rs:125-152 | Search lines are always shown, and everything else is filtered when searching. `All` shows every line. A tag walk with a line index past the chunk panics. |
| Lines.Skip | src/lines.rs:154-192 | `skip_split`, a definition by cases with no contract of its own. `Lines.SkipIsSound` characterises it: a chunk it skips shows no line. |
| Lines.SkipIsSound | src/lines.rs:154-192 | When the background bits agree with the chunks and matching a line implies matching its chunk, a skipped chunk shows no line. |
| Lines.MatchInside | src/lines.rs:154-192 | A match in part of a chunk is a match in the chunk. |
| Lines.LineMatchInChunk | src/lines.rs:154-192 | A match in a line's text, as written or corrected, is a match in the chunk. |
| Lines.ShownFromNextChunk | src/lines.rs:242-246 | Passing over the end of a chunk misses no shown line. |
| Lines.ShownFromSkippedChunk | src/lines.rs:216-221 | Passing over a skipped chunk misses no shown line. |
| Lines.ShownFromNextLine | src/lines.rs:236-249 | Passing over a filtered line misses no shown line. |
| Lines.NextFrom | src/lines.rs:214-257 | The forward walk ends at a shown line of a non-empty chunk, at or after its start, or at the panic of loading an empty chunk it does not skip. With no empty chunk it never panics. When skipping is sound, no shown line lies between the start and where the walk ends. |
| Lines.LineStartMono | src/lines.rs:250-254 | Line starts grow with chunk and line index. |
| Lines.LineEndInFile | src/lines.rs:250-254 | A line ends within the file. |
| Lines.NextStart | src/lines.rs:205-212 | The step past the current line stays in range. |
| Lines.AfterStartStartsLater | src/lines.rs:205-212 | Lines at or after the first step start after the current line, when not inclusive. |
| Lines.NextLine | src/lines.rs:196-257 | No line for an offset past the file. A line returned is past the offset when not inclusive. `Defect` (the panic in `get`) happens only when some chunk is empty. |
| Lines.AfterIsNotBeforeStart | src/lines.rs:196-212 | A line after the offset is not before the walk's start. |
| Lines.NextLineIsShown | src/lines.rs:196-257 | The line `next_line` returns is shown and comes after the offset. |
| Lines.NextLineStep | src/lines.rs:196-257 | The line a walk stops at is shown, resolves to its own start, and lies after the offset. |
| Lines.NextLineIsFirst | src/lines.rs:196-257 | With no empty chunk and sound skipping, any shown line after the offset makes `next_line` return a line no later than that one. |
| Lines.Top | src/lines.rs:301-303 | The backward walk stays in its chunk. |
| Lines.ShownDownChunkHead | src/lines.rs:312-318 | Stepping back past a chunk's first line misses no shown line. |
| Lines.ShownDownPrevLine | src/lines.rs:305-321 | Stepping back past a filtered line misses no shown line. |
| Lines.ShownDownSkippedChunk | src/lines.rs:291-296 | Stepping back over a skipped chunk misses no shown line. |
| Lines.PrevFrom | src/lines.rs:289-330 | The corrected backward walk returns a shown line at or before its start. When skipping is sound, none is missed. |
| Lines.PrevStart | src/lines.rs:276-287 | The step back fails exactly from the file's first line when not inclusive, and otherwise stays in range. |
| Lines.PrevLine | src/lines.rs:261-331 | Corrected `prev_line`: the result is at or before the offset, which lies inside the file. |
| Lines.BeforeIsNotAfterTop | src/lines.rs:276-287 | A line before the offset is not after the walk's start. |
| Lines.PrevLineIsShown | src/lines.rs:261-331 | The corrected result is a shown line before the offset. |
| Lines.PrevLineIsLast | src/lines.rs:261-331 | When skipping is sound, any shown line before an offset in the file makes the corrected `prev_line` succeed, returning a line no earlier than that one. |
| Lines.PrevFromAsWritten | src/lines.rs:289-330 | As written, a line found starts no later than where the walk started: the chunk's end for the marker, else the start of line `k`. From the marker it starts strictly before the chunk's end. |
| Lines.PrevLineAsWritten | src/lines.rs:261-331 | As written, there is no line for an offset past the file. A line returned starts at or before the offset, and strictly before it when not inclusive. |
| Lines.PrevStartCeil | src/lines.rs:276-287 | The backward walk starts no later than the line holding the offset. When not inclusive it starts strictly before that line, and every line it can return ends by that line's start. |
| Lines.AgreesIsLoaded | src/cache.rs:137-191 | A view that agrees with the file is loaded. Its chunks are what the cache as written reads, so none is empty, and its tag and search lists name lines of their own chunk. |
| Lines.StaleIsFiltered | src/lines.rs:291-296 | In a loaded view, the index the walk carries out of a skipped chunk is filtered in the chunk before it. |
| Lines.PrevFromAsWrittenShown | src/lines.rs:289-330 | In a loaded view, a line the as-written walk returns is shown and ends no later than where the walk started. |
| Lines.PrevLineAsWrittenIsShown | src/lines.rs:261-331 | In a loaded view, `prev_line` as written returns the start of a shown line before the offset, or at it when inclusive. |
| Lines.TwoChunks | src/lines.rs:301-303 | A valid two-chunk view used as a counterexample. |
| Lines.PrevSkipsLastLine | src/lines.rs:301-303 | As written, stepping back from a chunk's first line passes over the shown last line of the chunk before; the corrected walk returns it. |
| Lines.StaleIndexChunks | src/lines.rs:291-296 | A valid view used as a counterexample. |
| Lines.PrevStaleIndexPanics | src/lines.rs:291-296 | As written, a skipped chunk carries its line index into the chunk before, and the line-end lookup panics; the corrected walk returns the tagged line. |
| Lines.EmptyTail | src/search.rs:300 | A valid view whose second chunk is empty, as a repeated final boundary makes it; used as a counterexample. |
| Lines.NextEntersEmptyChunk | src/lines.rs:222-230 | Stepping forward from the last line of a chunk followed by an empty chunk, `next_line` reaches `get` on the empty chunk and panics. |
| Lines.HiddenTail | src/lines.rs:291-296 | A valid view whose second chunk is marked all hidden; used as a counterexample. |
| Lines.StaleIndexReturnsHidden | src/lines.rs:291-296 | With a chunk marked all hidden, `prev_line` as written returns the start of a line that is not shown. Hence `PrevLineAsWrittenIsShown` asks for a loaded view. |
| Lines.LastLineId | src/lines.rs:337-342 | `None` (the underflow) exactly for an empty file. Otherwise the offset lies in the file, and the next offset does not. |
| Lines.LastLineIdInLastLine | src/lines.rs:337-342 | With no empty chunk, the last line id resolves to the last line of the last chunk. |
| Lines.LastOffsetResolves | src/lines.rs:337-342 | With no empty chunk, the last byte of the file lies in the last line of the last chunk. |
| Screen.AsI16 | src/main.rs:402 | The `as i16` cast: values below 0x8000 are kept, larger ones become negative. |
| Screen.AsU16 | src/main.rs:665 | The `as u16` cast keeps values that fit. |
| Screen.LineParts | src/main.rs:678-685 | `None` (underflow or division by zero) exactly when a long line meets a width not above the indent. Otherwise 1 exactly for a line that fits, and the rows just hold the line. |
| Screen.RenderRows | src/main.rs:1436-1470 | The render loop fails exactly on a non-empty line it cannot lay out, and cuts a non-empty line into `line_parts` rows. |
| Screen.RowsFit | src/main.rs:1436-1470 | When a line is longer than what one row fewer holds, and no longer than what the rows hold, the row count is the one `line_parts` gives. |
| Arith.MulMono | src/main.rs:678-685 | Multiplying by a non-negative factor keeps the order. |
| Screen.RowsMatchParts | src/main.rs:678-685 | A row count whose rows just hold the line is the one `line_parts` gives. |
| Screen.CursorFromPosLen | src/main.rs:668-676 | `None` exactly when a position past the first row meets a width not above the indent. The column is on screen; later rows start at the indent; the first row is the position itself. |
| Screen.CursorRoundTrip | src/main.rs:668-685 | The cursor cell maps back to the position, and its row is one of the line's rows. |
| Screen.RowsAbove | src/main.rs:646-653 | No line above means no rows. |
| Screen.CursorFromPosIx | src/main.rs:642-666 | The column is the one `cursor_from_pos_len` gives. The row is that row below the rows of the lines above, cast to `u16`. It fails exactly when either part fails. |
| Screen.WrapPosition | src/main.rs:654-661 | The wrapping loop ends at the column and row `cursor_from_pos_len` computes in closed form. |
| Screen.AboveStaysNone | src/main.rs:646-653 | Once a line above fails, the whole count fails. |
| Screen.DivModUnique | src/main.rs:672-673 | Quotient and remainder are unique. |
| Screen.MulSign | src/main.rs:672-673 | Multiplying by a positive factor keeps the sign. |
| Screen.DisplayForward | src/main.rs:990-996 | Stepping forward moves one rank up, and fails exactly from `Manual`. |
| Screen.DisplayBackward | src/main.rs:997-1004 | Stepping back moves one rank down, and fails exactly from `All`. |
| Screen.DisplayStepsInverse | src/main.rs:990-1004 | A forward step to `m'` exactly when a backward step from `m'` gives back `m`. |
| Screen.FirstMatch | src/main.rs:1083-1100 | The first marked position from `from`, and no marked position before it. |
| Screen.RunEnd | src/main.rs:1089-1097 | The end of the run of marked positions from `from`. |
| Screen.SearchMatchForward | src/main.rs:1083-1100 | The first match at or after the position, or after the current match's run when skipping. |
| Screen.LastMatch | src/main.rs:1106-1120 | The last marked position up to `upto`, and none after it. |
| Screen.RunStart | src/main.rs:1111-1115 | The start of the run of marked positions holding `i`. |
| Screen.BackFrom | src/main.rs:1106-1122 | Where the backward scan starts looking: at or before the position. |
| Screen.SearchMatchBackward | src/main.rs:1068-1124 | A position past the line panics on its first look, and only such a position does. Otherwise the result is the start of the run holding the last match at or before the scan point, past the current run when skipping. |
| Screen.BackwardIsMatchStart | src/main.rs:1103-1124 | A backward result is the start of a match at or before the position. |
| Screen.ClampX | src/main.rs:402 | `None` (overflow) exactly when `x + dx` leaves `i16`, or when the width cast to `i16` underflows on `- 1`. Otherwise the column is on screen, kept when already inside, and -1 on a zero-width area. |
| Screen.ClampIdempotent | src/main.rs:402 | Clamping a clamped column again changes nothing. |
| QHash.PartSizes | src/qhash.rs:57-58 | For a small file, the part count is at most 20 and the part size at most 500. The last part starts inside the file and the parts reach its end. |
| QHash.SizeBounds | src/qhash.rs:57-58 | The same bounds, over plain numbers. |
| QHash.MakeIntervals | src/qhash.rs:53-65 | An empty file panics. Otherwise at most 20 intervals, each 1 to 500 bytes, start at 0, follow one another and end at the file end. |
| QHash.LayParts | src/qhash.rs:59-63 | The loop lays `parts` intervals that tile the file. |
| QHash.TilesOfParts | src/qhash.rs:59-63 | Intervals of `partsize` bytes cut at the end of the file tile it. |
| QHash.TilesCover | src/qhash.rs:98-110 | Every byte of the file lies in one interval, and intervals do not overlap, as the unit test checks. |
| QHash.StartsGrow | src/qhash.rs:105-108 | Every later interval starts at or after the end of an earlier one. |
| QHash.CoveringInterval | src/qhash.rs:98-110 | The interval holding an offset. |

## Left out

- Threads, the mutex and the condition variables of `FileSearch`. The scanner is a state machine of claim, scan and commit steps; the waits are the `None` results of `Scanner.Claim` and `Scanner.SplitHasMatches`. As written, the claim can wait while a chunk is free (`Scanner.ClaimWaitsWithWork`).
- File I/O: the file is a byte sequence. A read is a slice, and a short read of a shrunk file is `Cache.ReadChunk`'s `None`. `file.metadata()` is the sequence length.
- The regex engine and `Regex::captures_iter` are function parameters. `Lines.SkipIsSound` assumes that a match in a line is a match in its chunk (`Lines.Monotone`); the source relies on this without stating it.
- `Arc::into_inner(split).unwrap()` on a stale cache hit is left out. It panics only when another holder of the chunk is alive, which the single-threaded caller does not arrange.
- The line walks of `Lines` take the loaded chunks as data (`Lines.Ctx`) instead of calling the cache. `Cache.GetIsFresh` proves that `get` on a coherent cache returns exactly what a fresh read gives, and that as written it panics on an empty chunk. The walks report that panic as `Defect` when they load an empty chunk (`Lines.NextFrom`, `Lines.PrevFromAsWritten`). `Lines.AgreesIsLoaded` shows that any view the cache as written fills is loaded.
- `Lines::get`, `is_filtered_line`, `set_current_line`, `update_patterns` and `get_file_search` are thin forwarding wrappers and are not modelled separately.
- `all_hidden_splits` is never set in the source, so it is always clear. The model keeps it as data (`Lines.Ctx.allHidden`).
- Scanner.NoWorkBelow: for the search as written the lemma requires that nothing is in progress. With a chunk in progress it is false (`Scanner.SearchNextSkipsChunk`, `Scanner.ClaimWaitsWithWork`).
- Patterns.Add: `Regex::new(...).unwrap()` at src/pattern.rs:128 panics on an invalid regex. Regex compilation is foreign code, so the model treats every pattern as compilable and `Add` never fails.
- Patterns.With: the same `Regex::new(...).unwrap()` panic when recompiling at src/pattern.rs:156 is not modelled, for the same reason.
- Lines.PrevLineAsWrittenIsShown: visibility of the as-written result is proved only for loaded views. In a loaded view no chunk is empty, none is marked all hidden, and the lists name lines of their own chunk. `Lines.StaleIndexReturnsHidden` shows that the property fails once a chunk is marked all hidden, which the source never does.
- Lines.PrevLineAsWritten: in a release build `line_ends.len() - 2` on a one-line chunk wraps instead of panicking; both are modelled as `Defect`.
- Screen.RenderRows: for an empty line the render loop lays out no row while `line_parts` counts one; the contract states each, not their agreement. The `break 'a` once the screen is full is rendering and is not modelled.
- The rendering itself (styles, spans, the terminal), key handling and the rest of `src/main.rs` beyond the helpers listed above.
- `match_has_mode` is abstracted to one mark bit per character (`marks` in `Screen.SearchMatchForward` and `Screen.SearchMatchBackward`). Indexing past the line is the `OutOfLine` outcome.
- QHash.MakeIntervals: the floating-point branch for files over 10000 bytes, the MD5 digest and the file metadata of `src/qhash.rs` are left out.
- Patterns: the display style of a pattern and `MarkStyle` are left out; the regex text `build_re` produces is represented by its character class (`Patterns.WordClass`).
- `u64` and `usize` overflow of offsets and counts: file offsets are unbounded naturals. Underflows the source can reach are modelled (`Lines.LastLineId`, `Screen.LineParts`, `QHash.MakeIntervals`).
- The unit test in `src/cache.rs` reads a file from the author's machine and is not modelled.
- `src/log.rs` (logging) is not part of this model.

## Findings

| source | as written | input that shows it | evidently intended | confidence | as-written member | corrected member |
|---|---|---|---|---|---|---|
| src/search.rs:300 | the file length is pushed as the final boundary even when the scan already ended there | a file longer than the chunk size whose only newline past it is its last byte | no empty final chunk (an empty chunk makes `get` panic on `end - 1` at src/cache.rs:176) | not executed | Partition.DuplicateFinalBoundary | Partition.SplitFileDistinctDropsDuplicate |
| src/search.rs:157-160 | the downward search resumes below an in-progress chunk `k` with bound `k - 1`, so chunk `k - 1` is never looked at | chunks 0 and 1 dirty, chunk 1 in progress, current chunk 2 | the chunk just below is searched too | not executed | Scanner.SearchNextSkipsChunk | Scanner.SearchNextCorrected |
| src/lines.rs:301-303 | the `usize::MAX` marker becomes `line_ends.len() - 2`, the next-to-last line | chunks "a\nb\n" and "c\n", all lines shown, `prev_line` from offset 4 | the last line, `line_ends.len() - 1` | not executed | Lines.PrevSkipsLastLine | Lines.PrevLineIsLast |
| src/lines.rs:291-296 | a skipped chunk does not reset the line index, so the chunk before is entered at an index from a later chunk | chunks "a\n" and "b\nc\nd\n", offset 0 tagged, tagged mode, inclusive `prev_line` from offset 6 | enter the chunk before at its last line | not executed | Lines.PrevStaleIndexPanics | Lines.PrevLineIsShown |
| src/cache.rs:176 | each line is matched on `buf[start..end-1]`, which drops the last byte of a final line with no newline | a chunk holding "ab" | match the whole text of the last line | not executed | Cache.LastByteDroppedExample | Cache.LineTextIsLine |
