/** The background scanner of `src/search.rs`: per match class (tag
    patterns, search patterns) a dirty bit and a has-matches bit per chunk,
    the choice of the next chunk to scan around the current one, and the
    claim/commit steps of a worker. Threads, the mutex and the condition
    variables are replaced by explicit steps of a system state; the regex
    engine is a function parameter. */
module Scanner {
  import opened Wrappers
  import opened Bytes
  import opened Seqs
  import opened Partition
  import opened Patterns

  /** `FileSearchReState`: the state of one match class. */
  datatype ReState = ReState(hasMatches: seq<bool>, dirty: seq<bool>, reSeq: nat, re: RegexSet)

  /** `FileSearchInner` without the thread handles; the file is its
      contents. */
  datatype Scanner = Scanner(
    file: seq<byte>,
    bounds: seq<nat>,
    maxSplitLen: nat,
    classes: seq<ReState>,
    inProgress: seq<bool>,
    current: nat)
  {
    /** Shape of the state: the boundaries tile the file, and every bitmap
        has one bit per chunk. */
    ghost predicate Valid() {
      && |bounds| >= 1 && NonDecreasing(bounds) && Last(bounds) == |file|
      && |inProgress| == |bounds|
      && (forall i | 0 <= i < |classes| ::
            |classes[i].dirty| == |bounds| && |classes[i].hasMatches| == |bounds|)
      && current <= |bounds|
    }
  }

  /** A scanner over the boundaries `bounds`: every class starts clean
      with no matches, nothing is in progress, and the buffer is sized to
      the largest chunk. */
  function NewScannerOn(file: seq<byte>, bounds: seq<nat>, numRes: nat): (s: Scanner)
    requires |bounds| >= 1 && NonDecreasing(bounds) && Last(bounds) == |file|
    ensures s.Valid() && s.bounds == bounds
    ensures |s.classes| == numRes && s.current == 0
    ensures forall i | 0 <= i < numRes :: s.classes[i].re == [] && s.classes[i].reSeq == 0
    ensures forall k | 0 <= k < |s.bounds| :: !s.inProgress[k]
    ensures forall i, k | 0 <= i < numRes && 0 <= k < |s.bounds| ::
      !s.classes[i].dirty[k] && !s.classes[i].hasMatches[k]
    ensures forall k | 0 <= k < |s.bounds| :: ChunkLen(s.bounds, k) <= s.maxSplitLen
  {
    var n := |bounds|;
    var clean := seq(n, _ => false);
    Scanner(file, bounds, MaxSplitLen(bounds), seq(numRes, _ => ReState(clean, clean, 0, [])), clean, 0)
  }

  /** `FileSearch::new` as written: split the file with `split_file`, whose
      last chunk may be empty, measure the largest chunk, and start every
      class clean with nothing in progress. */
  function NewScanner(file: seq<byte>, numRes: nat): (s: Scanner)
    ensures s.Valid()
    ensures s.bounds == SplitFile(file, SPLIT_CHUNK_SIZE)
    ensures |s.classes| == numRes && s.current == 0
    ensures forall i | 0 <= i < numRes :: s.classes[i].re == [] && s.classes[i].reSeq == 0
    ensures forall k | 0 <= k < |s.bounds| :: !s.inProgress[k]
    ensures forall i, k | 0 <= i < numRes && 0 <= k < |s.bounds| ::
      !s.classes[i].dirty[k] && !s.classes[i].hasMatches[k]
    ensures forall k | 0 <= k < |s.bounds| :: ChunkLen(s.bounds, k) <= s.maxSplitLen
  {
    SplitOrder(file, SPLIT_CHUNK_SIZE);
    NewScannerOn(file, SplitFile(file, SPLIT_CHUNK_SIZE), numRes)
  }

  /** `FileSearch::new` over the corrected split: the same start state,
      and no chunk is empty. */
  function NewScannerCorrected(file: seq<byte>, numRes: nat): (s: Scanner)
    ensures s.Valid()
    ensures s.bounds == SplitFileDistinct(file, SPLIT_CHUNK_SIZE)
    ensures StrictlyIncreasing(s.bounds) && (|file| > 0 ==> s.bounds[0] > 0)
    ensures |s.classes| == numRes && s.current == 0
    ensures forall i | 0 <= i < numRes :: s.classes[i].re == [] && s.classes[i].reSeq == 0
    ensures forall k | 0 <= k < |s.bounds| :: !s.inProgress[k]
    ensures forall i, k | 0 <= i < numRes && 0 <= k < |s.bounds| ::
      !s.classes[i].dirty[k] && !s.classes[i].hasMatches[k]
    ensures forall k | 0 <= k < |s.bounds| :: ChunkLen(s.bounds, k) <= s.maxSplitLen
  {
    var bounds := SplitFileDistinct(file, SPLIT_CHUNK_SIZE);
    assert NonDecreasing(bounds);
    NewScannerOn(file, bounds, numRes)
  }

  /** `set_re`: install a new match set for class `ix`, mark every chunk
      dirty and bump the class's sequence number. */
  function SetRe(s: Scanner, ix: nat, re: RegexSet): (r: Scanner)
    requires s.Valid() && ix < |s.classes|
    ensures r.Valid() && r.bounds == s.bounds && |r.classes| == |s.classes|
    ensures r.classes[ix].re == re && r.classes[ix].reSeq == s.classes[ix].reSeq + 1
    ensures forall k | 0 <= k < |s.bounds| :: r.classes[ix].dirty[k]
    ensures r.classes[ix].hasMatches == s.classes[ix].hasMatches
    ensures forall i | 0 <= i < |s.classes| && i != ix :: r.classes[i] == s.classes[i]
    ensures r.(classes := s.classes) == s
  {
    var c := s.classes[ix];
    s.(classes := s.classes[ix := c.(dirty := seq(|s.bounds|, _ => true), reSeq := c.reSeq + 1, re := re)])
  }

  /** `set_current_split`. An id past the chunk count would make the next
      search slice the bitmaps out of range, so the caller must not pass
      one. */
  function SetCurrentSplit(s: Scanner, id: nat): (r: Scanner)
    requires s.Valid() && id <= |s.bounds|
    ensures r.Valid() && r.current == id && r.(current := s.current) == s
  {
    s.(current := id)
  }

  /** `split_dirty[from..].first_one()`, as an absolute index. */
  function FirstSetFrom(bits: seq<bool>, from: nat): (r: Option<nat>)
    ensures r.Some? ==> from <= r.value < |bits| && bits[r.value]
    ensures r.Some? ==> forall k | from <= k < r.value :: !bits[k]
    ensures r.None? ==> forall k | from <= k < |bits| :: !bits[k]
    decreases |bits| - from
  {
    if from >= |bits| then None
    else if bits[from] then Some(from)
    else FirstSetFrom(bits, from + 1)
  }

  /** `split_dirty[..below].last_one()`. */
  function LastSetBelow(bits: seq<bool>, below: nat): (r: Option<nat>)
    requires below <= |bits|
    ensures r.Some? ==> r.value < below && bits[r.value]
    ensures r.Some? ==> forall k | r.value < k < below :: !bits[k]
    ensures r.None? ==> forall k | 0 <= k < below :: !bits[k]
  {
    if below == 0 then None
    else if bits[below - 1] then Some(below - 1)
    else LastSetBelow(bits, below - 1)
  }

  /** The outcome of one half-step of the search. */
  datatype Step = Found(id: nat) | Next(at: Option<nat>)

  /** The upward half-step: the first dirty chunk at or above `u`; if it is
      in progress, continue just above it. */
  function UpStep(dirty: seq<bool>, busy: seq<bool>, u: nat): (r: Step)
    requires |busy| == |dirty| >= 1
    ensures r.Found? ==> u <= r.id < |dirty| && dirty[r.id] && !busy[r.id]
    ensures r.Next? && r.at.Some? ==> u < r.at.value < |dirty|
  {
    match FirstSetFrom(dirty, u)
    case None => Next(None)
    case Some(k) =>
      if busy[k] then Next(if k < |dirty| - 1 then Some(k + 1) else None)
      else Found(k)
  }

  /** The downward half-step: the last dirty chunk below `d`; if it is in
      progress, continue below it. As written the search resumes with
      `k - 1` as the new exclusive bound, which never looks at chunk
      `k - 1`; the corrected step resumes with `k`. */
  function DownStep(dirty: seq<bool>, busy: seq<bool>, d: nat, asWritten: bool): (r: Step)
    requires |busy| == |dirty| && d <= |dirty|
    ensures r.Found? ==> r.id < d && dirty[r.id] && !busy[r.id]
    ensures r.Next? && r.at.Some? ==> r.at.value < d
  {
    match LastSetBelow(dirty, d)
    case None => Next(None)
    case Some(k) =>
      if busy[k] then Next(if k > 0 then Some(if asWritten then k - 1 else k) else None)
      else Found(k)
  }

  /** Every claimable chunk (dirty, not in progress) lies in one of the
      ranges the search has still to look at. */
  ghost predicate Pending(dirty: seq<bool>, busy: seq<bool>, up: Option<nat>, down: Option<nat>)
    requires |busy| == |dirty|
  {
    forall k | 0 <= k < |dirty| && dirty[k] && !busy[k] ::
      (up.Some? && up.value <= k) || (down.Some? && k < down.value)
  }

  /** The loop of `search_next`: alternate one step up and one step down
      until a claimable chunk is found or both directions are exhausted.
      The result is always claimable; with the corrected downward step,
      nothing pending is ever missed. */
  function SearchLoop(dirty: seq<bool>, busy: seq<bool>, up: Option<nat>, down: Option<nat>, asWritten: bool)
    : (r: Option<nat>)
    requires |busy| == |dirty| >= 1
    requires up.Some? ==> up.value <= |dirty|
    requires down.Some? ==> down.value <= |dirty|
    ensures r.Some? ==> r.value < |dirty| && dirty[r.value] && !busy[r.value]
    ensures !asWritten && Pending(dirty, busy, up, down) && r.None? ==>
      forall k | 0 <= k < |dirty| :: dirty[k] ==> busy[k]
    decreases (if up.Some? then |dirty| + 1 - up.value else 0) + (if down.Some? then down.value + 1 else 0)
  {
    if up.None? && down.None? then None
    else
      var us := if up.Some? then UpStep(dirty, busy, up.value) else Next(None);
      if us.Found? then Some(us.id)
      else
        var ds := if down.Some? then DownStep(dirty, busy, down.value, asWritten) else Next(None);
        if ds.Found? then Some(ds.id)
        else
          assert !asWritten && Pending(dirty, busy, up, down) ==> Pending(dirty, busy, us.at, ds.at) by {
            if !asWritten && Pending(dirty, busy, up, down) {
              StepsKeepPending(dirty, busy, up, down);
            }
          }
          SearchLoop(dirty, busy, us.at, ds.at, asWritten)
  }

  /** One round of unproductive corrected steps leaves every claimable
      chunk in the remaining ranges. */
  lemma StepsKeepPending(dirty: seq<bool>, busy: seq<bool>, up: Option<nat>, down: Option<nat>)
    requires |busy| == |dirty| >= 1
    requires up.Some? ==> up.value <= |dirty|
    requires down.Some? ==> down.value <= |dirty|
    requires Pending(dirty, busy, up, down)
    requires up.Some? ==> UpStep(dirty, busy, up.value).Next?
    requires down.Some? ==> DownStep(dirty, busy, down.value, false).Next?
    ensures Pending(dirty, busy,
      if up.Some? then UpStep(dirty, busy, up.value).at else None,
      if down.Some? then DownStep(dirty, busy, down.value, false).at else None)
  {
  }

  /** `search_next` as written: search class `ix` outward from the current
      chunk. */
  function SearchNext(s: Scanner, ix: nat): (r: Option<nat>)
    requires s.Valid() && ix < |s.classes|
    ensures r.Some? ==> r.value < |s.bounds| && s.classes[ix].dirty[r.value] && !s.inProgress[r.value]
  {
    SearchLoop(s.classes[ix].dirty, s.inProgress, Some(s.current), Some(s.current), true)
  }

  /** `search_next` with the corrected downward step. */
  function SearchNextCorrected(s: Scanner, ix: nat): (r: Option<nat>)
    requires s.Valid() && ix < |s.classes|
    ensures r.Some? ==> r.value < |s.bounds| && s.classes[ix].dirty[r.value] && !s.inProgress[r.value]
    ensures r.None? <==> forall k | 0 <= k < |s.bounds| :: s.classes[ix].dirty[k] ==> s.inProgress[k]
  {
    SearchLoop(s.classes[ix].dirty, s.inProgress, Some(s.current), Some(s.current), false)
  }

  /** With no chunk in progress both versions pick the first dirty chunk at
      or after the current one, and otherwise the last dirty chunk before
      it. */
  lemma SearchNextIdle(s: Scanner, ix: nat)
    requires s.Valid() && ix < |s.classes|
    requires forall k | 0 <= k < |s.bounds| :: !s.inProgress[k]
    ensures SearchNext(s, ix) == SearchNextCorrected(s, ix)
    ensures var dirty := s.classes[ix].dirty;
      SearchNext(s, ix) == if FirstSetFrom(dirty, s.current).Some? then FirstSetFrom(dirty, s.current)
        else LastSetBelow(dirty, s.current)
  {
    var dirty := s.classes[ix].dirty;
    if FirstSetFrom(dirty, s.current).None? && LastSetBelow(dirty, s.current).None? {
      assert SearchNext(s, ix) == SearchLoop(dirty, s.inProgress, None, None, true);
      assert SearchNextCorrected(s, ix) == SearchLoop(dirty, s.inProgress, None, None, false);
    }
  }

  /** As written the downward search skips the chunk just below an
      in-progress one: with chunks 0 and 1 dirty, chunk 1 in progress and
      the cursor in chunk 2, chunk 0 is claimable but not found. */
  lemma SearchNextSkipsChunk()
    ensures var s := Scanner([0, 0, 0], [1, 2, 3], 1,
        [ReState([false, false, false], [true, true, false], 1, [])], [false, true, false], 2);
      && s.Valid()
      && s.classes[0].dirty[0] && !s.inProgress[0]
      && SearchNext(s, 0).None?
      && SearchNextCorrected(s, 0) == Some(0)
  {
    var dirty := [true, true, false];
    var busy := [false, true, false];
    assert FirstSetFrom(dirty, 2).None?;
    assert LastSetBelow(dirty, 2) == Some(1);
    assert LastSetBelow(dirty, 1) == Some(0);
    assert SearchLoop(dirty, busy, Some(2), Some(2), true) == SearchLoop(dirty, busy, None, Some(0), true);
    assert SearchLoop(dirty, busy, None, Some(0), true) == SearchLoop(dirty, busy, None, None, true);
  }

  /** A chunk handed to a worker: class, chunk, the class's sequence number
      and match set at claim time, and the byte range to read. */
  datatype Job = Job(ix: nat, split: nat, seqNo: nat, re: RegexSet, start: nat, end: nat)

  /** `search_next` as written (`asWritten`) or corrected. */
  function SearchNextBy(s: Scanner, ix: nat, asWritten: bool): Option<nat>
    requires s.Valid() && ix < |s.classes|
  {
    if asWritten then SearchNext(s, ix) else SearchNextCorrected(s, ix)
  }

  /** The first class, from `i` on, whose search finds a chunk to scan. */
  function FirstClassWithWork(s: Scanner, i: nat, asWritten: bool): (r: Option<(nat, nat)>)
    requires s.Valid() && i <= |s.classes|
    ensures r.None? ==> forall k | i <= k < |s.classes| :: SearchNextBy(s, k, asWritten).None?
    ensures r.Some? ==> i <= r.value.0 < |s.classes| && SearchNextBy(s, r.value.0, asWritten) == Some(r.value.1)
    ensures r.Some? ==> forall k | i <= k < r.value.0 :: SearchNextBy(s, k, asWritten).None?
    decreases |s.classes| - i
  {
    if i == |s.classes| then None
    else
      var here := SearchNextBy(s, i, asWritten);
      if here.Some? then Some((i, here.value))
      else
        var rest := FirstClassWithWork(s, i + 1, asWritten);
        assert forall k | i <= k <= i :: SearchNextBy(s, k, asWritten) == here;
        rest
  }

  /** No chunk of any class can be claimed: every dirty chunk is in
      progress. */
  ghost predicate NothingClaimable(s: Scanner)
    requires s.Valid()
  {
    forall i, k | 0 <= i < |s.classes| && 0 <= k < |s.bounds| :: s.classes[i].dirty[k] ==> s.inProgress[k]
  }

  /** No chunk is in progress. */
  ghost predicate Idle(s: Scanner)
    requires s.Valid()
  {
    forall k | 0 <= k < |s.bounds| :: !s.inProgress[k]
  }

  /** The claim step of `search_thread`: take the chunk the search finds
      for the first class with work, mark it in progress, and capture what
      the worker needs. `None` is the wait for a new match set. With
      `asWritten` the search is `search_next` as written, which may wait
      while a chunk is claimable (`ClaimWaitsWithWork`); the corrected
      search waits exactly when nothing is claimable. With no chunk in
      progress both wait exactly when nothing is dirty. */
  function Claim(s: Scanner, asWritten: bool): (r: Option<(Scanner, Job)>)
    requires s.Valid()
    ensures NothingClaimable(s) ==> r.None?
    ensures !asWritten && r.None? ==> NothingClaimable(s)
    ensures Idle(s) ==> (r.None? <==>
      forall i, k | 0 <= i < |s.classes| && 0 <= k < |s.bounds| :: !s.classes[i].dirty[k])
    ensures r.Some? ==> var (s', job) := r.value;
      && s'.Valid()
      && job.ix < |s.classes| && job.split < |s.bounds|
      && (forall i | 0 <= i < job.ix :: SearchNextBy(s, i, asWritten).None?)
      && (!asWritten ==> forall i, k | 0 <= i < job.ix && 0 <= k < |s.bounds| ::
            s.classes[i].dirty[k] ==> s.inProgress[k])
      && s.classes[job.ix].dirty[job.split] && !s.inProgress[job.split]
      && s' == s.(inProgress := s.inProgress[job.split := true])
      && job.seqNo == s.classes[job.ix].reSeq && job.re == s.classes[job.ix].re
      && job.start == Start(s.bounds, job.split) && job.end == s.bounds[job.split]
  {
    match FirstClassWithWork(s, 0, asWritten)
    case None =>
      assert !asWritten || Idle(s) ==> NothingClaimable(s) by {
        if !asWritten || Idle(s) {
          NoWorkBelow(s, |s.classes|, asWritten);
        }
      }
      assert Idle(s) ==> forall i, k | 0 <= i < |s.classes| && 0 <= k < |s.bounds| :: !s.classes[i].dirty[k] by {
        if Idle(s) {
          forall i, k | 0 <= i < |s.classes| && 0 <= k < |s.bounds|
            ensures !s.classes[i].dirty[k]
          {
            assert !s.inProgress[k];
          }
        }
      }
      None
    case Some((ix, id)) =>
      assert !asWritten ==> forall i, k | 0 <= i < ix && 0 <= k < |s.bounds| ::
          s.classes[i].dirty[k] ==> s.inProgress[k] by {
        if !asWritten {
          NoWorkBelow(s, ix, asWritten);
        }
      }
      var c := s.classes[ix];
      Some((s.(inProgress := s.inProgress[id := true]),
            Job(ix, id, c.reSeq, c.re, Start(s.bounds, id), s.bounds[id])))
  }

  /** Classes whose search finds nothing have every dirty chunk in
      progress: always with the corrected search, and with the search as
      written when no chunk is in progress. */
  lemma NoWorkBelow(s: Scanner, n: nat, asWritten: bool)
    requires s.Valid() && n <= |s.classes|
    requires forall i | 0 <= i < n :: SearchNextBy(s, i, asWritten).None?
    requires asWritten ==> Idle(s)
    ensures forall i, k | 0 <= i < n && 0 <= k < |s.bounds| :: s.classes[i].dirty[k] ==> s.inProgress[k]
  {
    forall i, k | 0 <= i < n && 0 <= k < |s.bounds|
      ensures s.classes[i].dirty[k] ==> s.inProgress[k]
    {
      assert SearchNextBy(s, i, asWritten).None?;
      if asWritten {
        SearchNextIdle(s, i);
      }
      assert SearchNextCorrected(s, i).None?;
    }
  }

  /** As written a worker waits although a chunk is claimable: in the state
      of `SearchNextSkipsChunk` the source's claim waits while the
      corrected claim takes chunk 0. */
  lemma ClaimWaitsWithWork()
    ensures var s := Scanner([0, 0, 0], [1, 2, 3], 1,
        [ReState([false, false, false], [true, true, false], 1, [])], [false, true, false], 2);
      && s.Valid() && !NothingClaimable(s)
      && Claim(s, true).None?
      && Claim(s, false).Some? && Claim(s, false).value.1.split == 0
  {
    var s := Scanner([0, 0, 0], [1, 2, 3], 1,
        [ReState([false, false, false], [true, true, false], 1, [])], [false, true, false], 2);
    SearchNextSkipsChunk();
    assert s.classes[0].dirty[0] && !s.inProgress[0];
    assert FirstClassWithWork(s, 1, true).None?;
    assert FirstClassWithWork(s, 0, true).None?;
    assert FirstClassWithWork(s, 0, false) == Some((0, 0));
  }

  /** The commit step of `search_thread`: release the chunk and, unless the
      class's match set changed meanwhile, record the result and clear the
      dirty bit. */
  function Commit(s: Scanner, job: Job, m: bool): (r: Scanner)
    requires s.Valid() && job.ix < |s.classes| && job.split < |s.bounds|
    ensures r.Valid() && r.file == s.file && r.bounds == s.bounds && r.current == s.current
    ensures |r.classes| == |s.classes|
    ensures !r.inProgress[job.split]
    ensures r.inProgress == s.inProgress[job.split := false]
    ensures job.seqNo == s.classes[job.ix].reSeq ==>
      && !r.classes[job.ix].dirty[job.split] && r.classes[job.ix].hasMatches[job.split] == m
      && r.classes[job.ix].dirty == s.classes[job.ix].dirty[job.split := false]
      && r.classes[job.ix].hasMatches == s.classes[job.ix].hasMatches[job.split := m]
    ensures job.seqNo != s.classes[job.ix].reSeq ==> r.classes == s.classes
    ensures forall i | 0 <= i < |s.classes| && i != job.ix :: r.classes[i] == s.classes[i]
    ensures r.classes[job.ix].reSeq == s.classes[job.ix].reSeq && r.classes[job.ix].re == s.classes[job.ix].re
  {
    var s1 := s.(inProgress := s.inProgress[job.split := false]);
    var c := s.classes[job.ix];
    if c.reSeq == job.seqNo then
      s1.(classes := s.classes[job.ix := c.(dirty := c.dirty[job.split := false],
                                           hasMatches := c.hasMatches[job.split := m])])
    else s1
  }

  /** The worker's scan of a claimed chunk: does the captured match set
      match the chunk's bytes. */
  function Scan(s: Scanner, engine: Engine, job: Job): bool
    requires s.Valid() && job.start <= job.end <= |s.file|
  {
    IsMatch(engine, job.re, s.file[job.start..job.end])
  }

  /** A claim (as written or corrected) followed directly by its commit leaves one dirty chunk fewer
      in the claimed class and nothing more in progress. */
  lemma ClaimCommitProgress(s: Scanner, m: bool, asWritten: bool)
    requires s.Valid() && Claim(s, asWritten).Some?
    ensures var (s1, job) := Claim(s, asWritten).value;
      var s2 := Commit(s1, job, m);
      && CountTrue(s2.classes[job.ix].dirty) == CountTrue(s.classes[job.ix].dirty) - 1
      && s2.inProgress == s.inProgress
  {
    var (s1, job) := Claim(s, asWritten).value;
    CountTrueClear(s.classes[job.ix].dirty, job.split);
    assert s.inProgress[job.split := true][job.split := false] == s.inProgress;
  }

  /** After `set_re` a job claimed under the old match set is discarded at
      commit: only its in-progress bit is released. */
  lemma StaleJobDiscarded(s: Scanner, job: Job, re: RegexSet, m: bool)
    requires s.Valid() && job.ix < |s.classes| && job.split < |s.bounds|
    requires job.seqNo <= s.classes[job.ix].reSeq
    ensures var r := Commit(SetRe(s, job.ix, re), job, m);
      && r.classes == SetRe(s, job.ix, re).classes
      && r.classes[job.ix].dirty[job.split]
  {
  }

  /** A recorded result is correct: for a clean chunk, the has-matches bit
      is whether the class's current match set matches the chunk. */
  ghost predicate CleanOk(s: Scanner, engine: Engine, i: nat, k: nat)
    requires s.Valid() && i < |s.classes| && k < |s.bounds|
  {
    !s.classes[i].dirty[k] ==> s.classes[i].hasMatches[k] == IsMatch(engine, s.classes[i].re, ChunkBytes(s.file, s.bounds, k))
  }

  ghost predicate Sound(s: Scanner, engine: Engine)
    requires s.Valid()
  {
    forall i, k | 0 <= i < |s.classes| && 0 <= k < |s.bounds| :: CleanOk(s, engine, i, k)
  }

  /** A job in flight: it names a real chunk and class, reads exactly that
      chunk, and if its sequence number is still current it carries the
      current match set. */
  ghost predicate JobOk(s: Scanner, job: Job)
    requires s.Valid()
  {
    && job.ix < |s.classes| && job.split < |s.bounds|
    && job.start == Start(s.bounds, job.split) && job.end == s.bounds[job.split]
    && job.seqNo <= s.classes[job.ix].reSeq
    && (job.seqNo == s.classes[job.ix].reSeq ==> job.re == s.classes[job.ix].re)
  }

  /** The scanner with its workers' jobs in flight. */
  datatype System = System(s: Scanner, jobs: seq<Job>)

  ghost predicate Inv(sys: System, engine: Engine) {
    && sys.s.Valid()
    && Sound(sys.s, engine)
    && (forall j | 0 <= j < |sys.jobs| :: JobOk(sys.s, sys.jobs[j]))
  }

  /** A fresh scanner, over the split as written or the corrected one,
      with no workers running satisfies the invariant. */
  lemma NewSatisfiesInv(file: seq<byte>, numRes: nat, engine: Engine)
    ensures Inv(System(NewScanner(file, numRes), []), engine)
    ensures Inv(System(NewScannerCorrected(file, numRes), []), engine)
  {
    NewOnSatisfiesInv(NewScanner(file, numRes), engine);
    NewOnSatisfiesInv(NewScannerCorrected(file, numRes), engine);
  }

  /** A valid scanner whose classes have the empty match set and are clean
      without matches has correct results. */
  lemma NewOnSatisfiesInv(s: Scanner, engine: Engine)
    requires s.Valid()
    requires forall i | 0 <= i < |s.classes| :: s.classes[i].re == []
    requires forall i, k | 0 <= i < |s.classes| && 0 <= k < |s.bounds| ::
      !s.classes[i].dirty[k] && !s.classes[i].hasMatches[k]
    ensures Inv(System(s, []), engine)
  {
    forall i, k | 0 <= i < |s.classes| && 0 <= k < |s.bounds|
      ensures CleanOk(s, engine, i, k)
    {
      assert !s.classes[i].dirty[k];
      assert !s.classes[i].hasMatches[k];
    }
  }

  /** `set_re` keeps the invariant. */
  lemma SetReKeepsInv(sys: System, engine: Engine, ix: nat, re: RegexSet)
    requires Inv(sys, engine) && ix < |sys.s.classes|
    ensures Inv(System(SetRe(sys.s, ix, re), sys.jobs), engine)
  {
    var s' := SetRe(sys.s, ix, re);
    forall i, k | 0 <= i < |s'.classes| && 0 <= k < |s'.bounds|
      ensures CleanOk(s', engine, i, k)
    {
      assert CleanOk(sys.s, engine, i, k);
    }
    forall j | 0 <= j < |sys.jobs|
      ensures JobOk(s', sys.jobs[j])
    {
      assert JobOk(sys.s, sys.jobs[j]);
    }
  }

  /** A claim, as written or corrected, keeps the invariant, the new job
      included. */
  lemma ClaimKeepsInv(sys: System, engine: Engine, asWritten: bool)
    requires Inv(sys, engine) && Claim(sys.s, asWritten).Some?
    ensures var (s', job) := Claim(sys.s, asWritten).value;
      Inv(System(s', sys.jobs + [job]), engine)
  {
    var (s', job) := Claim(sys.s, asWritten).value;
    var jobs := sys.jobs + [job];
    forall i, k | 0 <= i < |s'.classes| && 0 <= k < |s'.bounds|
      ensures CleanOk(s', engine, i, k)
    {
      assert CleanOk(sys.s, engine, i, k);
    }
    forall j | 0 <= j < |jobs|
      ensures JobOk(s', jobs[j])
    {
      if j < |sys.jobs| {
        assert JobOk(sys.s, sys.jobs[j]);
      }
    }
  }

  /** A worker finishing job `j` (scan, then commit) keeps the invariant,
      whatever happened since the claim. */
  lemma FinishKeepsInv(sys: System, engine: Engine, j: nat)
    requires Inv(sys, engine) && j < |sys.jobs|
    ensures var job := sys.jobs[j];
      Inv(System(Commit(sys.s, job, Scan(sys.s, engine, job)), sys.jobs[..j] + sys.jobs[j + 1..]), engine)
  {
    var s := sys.s;
    var job := sys.jobs[j];
    assert JobOk(s, job);
    assert Start(s.bounds, job.split) <= s.bounds[job.split] <= Last(s.bounds);
    var m := Scan(s, engine, job);
    var s' := Commit(s, job, m);
    var jobs := sys.jobs[..j] + sys.jobs[j + 1..];
    forall i, k | 0 <= i < |s'.classes| && 0 <= k < |s'.bounds|
      ensures CleanOk(s', engine, i, k)
    {
      assert CleanOk(s, engine, i, k);
    }
    forall q | 0 <= q < |jobs|
      ensures JobOk(s', jobs[q])
    {
      if q < j {
        assert JobOk(s, sys.jobs[q]);
      } else {
        assert jobs[q] == sys.jobs[q + 1];
        assert JobOk(s, sys.jobs[q + 1]);
      }
    }
  }

  /** `split_has_matches` on a clean chunk: `None` stands for the wait on a
      dirty one. */
  function SplitHasMatches(s: Scanner, ix: nat, id: nat): (r: Option<bool>)
    requires s.Valid() && ix < |s.classes| && id < |s.bounds|
    ensures r.None? <==> s.classes[ix].dirty[id]
    ensures r.Some? ==> r.value == s.classes[ix].hasMatches[id]
  {
    if s.classes[ix].dirty[id] then None else Some(s.classes[ix].hasMatches[id])
  }

  /** Under the invariant an answer about a clean chunk is what the class's
      current match set says about the chunk's bytes. */
  lemma SplitHasMatchesSound(sys: System, engine: Engine, ix: nat, id: nat)
    requires Inv(sys, engine) && ix < |sys.s.classes| && id < |sys.s.bounds|
    ensures SplitHasMatches(sys.s, ix, id).Some? ==>
      SplitHasMatches(sys.s, ix, id).value
        == IsMatch(engine, sys.s.classes[ix].re, ChunkBytes(sys.s.file, sys.s.bounds, id))
  {
    assert CleanOk(sys.s, engine, ix, id);
  }
}
