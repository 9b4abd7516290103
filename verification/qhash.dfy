/** The sampling plan of the quick file hash in `src/qhash.rs`: the byte
    intervals `make_intervals` picks for a small file (at most twenty parts
    of at most 500 bytes). */
module QHash {
  import opened Wrappers
  import opened Arith
  import opened Seqs

  /** Most intervals read and the most bytes each reads. */
  const NPARTS: nat := 20
  const PSIZE: nat := 500

  /** The intervals start at 0, each starts where the one before ends, the
      last ends at the end of the file, and none is empty or longer than
      `PSIZE`. */
  ghost predicate Tiles(iv: seq<(nat, nat)>, filesize: nat) {
    && |iv| >= 1
    && iv[0].0 == 0
    && Last(iv).0 + Last(iv).1 == filesize
    && (forall i | 0 <= i < |iv| - 1 :: iv[i].0 + iv[i].1 == iv[i + 1].0)
    && (forall i | 0 <= i < |iv| :: 1 <= iv[i].1 <= PSIZE)
  }

  /** The part count and part size of a file of at most `NPARTS * PSIZE`
      bytes: the last part starts inside the file and the parts together
      reach its end. */
  lemma PartSizes(filesize: nat)
    requires 1 <= filesize <= NPARTS * PSIZE
    ensures var parts := (filesize + PSIZE - 1) / PSIZE;
      var partsize := (filesize + parts - 1) / parts;
      && 1 <= parts <= NPARTS && 1 <= partsize <= PSIZE
      && (parts - 1) * partsize < filesize <= parts * partsize
  {
    var parts := (filesize + PSIZE - 1) / PSIZE;
    var partsize := (filesize + parts - 1) / parts;
    var r := (filesize + parts - 1) % parts;
    SizeBounds(filesize, parts, partsize, r);
  }

  /** `PartSizes` over plain numbers: the part count brackets the file
      size in steps of `PSIZE`, and the part size is the rounded-up share of
      each part. */
  lemma SizeBounds(filesize: nat, parts: nat, partsize: nat, r: nat)
    requires 1 <= filesize <= NPARTS * PSIZE
    requires PSIZE * (parts - 1) < filesize <= PSIZE * parts
    requires parts >= 1 && partsize * parts + r == filesize + parts - 1 && r < parts
    ensures 1 <= parts <= NPARTS && 1 <= partsize <= PSIZE
    ensures (parts - 1) * partsize < filesize <= parts * partsize
  {
    MulMono(PSIZE + 1, partsize, parts);
    MulMono(partsize, PSIZE / 2, parts);
    MulMono(partsize, 0, parts);
    assert (parts - 1) * partsize == parts * partsize - partsize;
    assert parts * partsize == partsize * parts;
  }

  /** `make_intervals` for a file of at most `NPARTS * PSIZE` bytes:
      `parts` intervals of `partsize` bytes, the last one cut at the end of
      the file. `None` is the panic of an empty file: it has no parts, so
      `filesize + parts - 1` underflows (and the division by the part count
      divides by zero). */
  method MakeIntervals(filesize: nat) returns (r: Option<seq<(nat, nat)>>)
    requires filesize <= NPARTS * PSIZE
    ensures r.None? <==> filesize == 0
    ensures r.Some? ==> Tiles(r.value, filesize) && |r.value| <= NPARTS
  {
    var parts := (filesize + PSIZE - 1) / PSIZE;
    if parts == 0 {
      return None;
    }
    PartSizes(filesize);
    var partsize := (filesize + parts - 1) / parts;
    var intervals := LayParts(filesize, parts, partsize);
    return Some(intervals);
  }

  /** The loop of `make_intervals`: interval `i` starts at `i * partsize`
      and reads `partsize` bytes or up to the end of the file. */
  method LayParts(filesize: nat, parts: nat, partsize: nat) returns (iv: seq<(nat, nat)>)
    requires parts >= 1 && 1 <= partsize <= PSIZE
    requires (parts - 1) * partsize < filesize <= parts * partsize
    ensures |iv| == parts && Tiles(iv, filesize)
  {
    iv := [];
    var i := 0;
    while i < parts
      invariant i <= parts && |iv| == i
      invariant forall j | 0 <= j < i :: iv[j].0 == j * partsize
      invariant forall j | 0 <= j < i :: iv[j].1 == Min(partsize, filesize - j * partsize)
    {
      var offset := i * partsize;
      MulMono(i, parts - 1, partsize);
      var len := Min(partsize, filesize - offset);
      iv := iv + [(offset, len)];
      i := i + 1;
    }
    TilesOfParts(iv, filesize, partsize);
  }

  /** Intervals of `partsize` bytes laid back to back, the last cut at the
      end of the file, tile it. */
  lemma TilesOfParts(iv: seq<(nat, nat)>, filesize: nat, partsize: nat)
    requires |iv| >= 1 && 1 <= partsize <= PSIZE
    requires (|iv| - 1) * partsize < filesize <= |iv| * partsize
    requires forall j | 0 <= j < |iv| :: iv[j].0 == j * partsize
    requires forall j | 0 <= j < |iv| :: iv[j].1 == Min(partsize, filesize - j * partsize)
    ensures Tiles(iv, filesize)
  {
    var n := |iv|;
    forall j | 0 <= j < n
      ensures j * partsize < filesize
      ensures 1 <= iv[j].1 <= PSIZE
    {
      MulMono(j, n - 1, partsize);
    }
    forall j | 0 <= j < n - 1
      ensures iv[j].0 + iv[j].1 == iv[j + 1].0
    {
      MulMono(j + 1, n - 1, partsize);
      assert (j + 1) * partsize == j * partsize + partsize;
    }
    assert n * partsize == (n - 1) * partsize + partsize;
  }

  /** Every byte of the file lies in exactly one interval. */
  lemma {:induction false} TilesCover(iv: seq<(nat, nat)>, filesize: nat, off: nat)
    requires Tiles(iv, filesize) && off < filesize
    ensures exists i | 0 <= i < |iv| :: iv[i].0 <= off < iv[i].0 + iv[i].1
    ensures forall i, j | 0 <= i < j < |iv| :: iv[i].0 + iv[i].1 <= iv[j].0
  {
    StartsGrow(iv, filesize, 0);
    var k := CoveringInterval(iv, filesize, off, 0);
  }

  /** Each interval ends where the next starts, so every later interval
      starts at or after the end of interval `i`. */
  lemma {:induction false} StartsGrow(iv: seq<(nat, nat)>, filesize: nat, i: nat)
    requires Tiles(iv, filesize) && i <= |iv|
    ensures forall a, b | i <= a < b < |iv| :: iv[a].0 + iv[a].1 <= iv[b].0
    decreases |iv| - i
  {
    if i < |iv| {
      StartsGrow(iv, filesize, i + 1);
      forall b | i < b < |iv|
        ensures iv[i].0 + iv[i].1 <= iv[b].0
      {
        if b > i + 1 {
          assert iv[i + 1].0 + iv[i + 1].1 <= iv[b].0;
        }
      }
    }
  }

  /** The interval holding `off`, searched from interval `i` on. */
  lemma {:induction false} CoveringInterval(iv: seq<(nat, nat)>, filesize: nat, off: nat, i: nat) returns (k: nat)
    requires Tiles(iv, filesize) && off < filesize
    requires i < |iv| && iv[i].0 <= off
    ensures i <= k < |iv| && iv[k].0 <= off < iv[k].0 + iv[k].1
    decreases |iv| - i
  {
    if off < iv[i].0 + iv[i].1 {
      k := i;
    } else {
      assert i + 1 < |iv|;
      k := CoveringInterval(iv, filesize, off, i + 1);
    }
  }
}
