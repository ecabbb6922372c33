/**
 * The descending chunked walk of `scrape_hackernews` (scrape_hackernews.py):
 * the choice of the start id, the chunks of ids requested, the checkpoint
 * saved after each chunk, and what a resume from a checkpoint covers.
 */
module Walk {
  import opened Wrappers
  import opened Stories

  function Max(a: int, b: int): int {
    if a >= b then a else b
  }

  /** Python's `range(hi, lo, -1)`: hi, hi - 1, ..., lo + 1 (empty when hi <= lo). */
  function Range(hi: int, lo: int): seq<int> {
    seq(Max(hi - lo, 0), k => hi - k)
  }

  /** The ids of `range(hi, lo, -1)` are exactly those in the half-open interval (lo, hi]. */
  lemma RangeMember(hi: int, lo: int, x: int)
    ensures x in Range(hi, lo) <==> lo < x <= hi
  {
    if lo < x <= hi {
      assert Range(hi, lo)[hi - x] == x;
    }
  }

  /** Two adjacent descending ranges make one. */
  lemma RangeSplit(hi: int, mid: int, lo: int)
    requires lo <= mid <= hi
    ensures Range(hi, mid) + Range(mid, lo) == Range(hi, lo)
  {
  }

  /**
   * The first id walked: the id below a truthy checkpoint, otherwise the id
   * below `max_id`; a checkpoint of 0 is falsy and counts as absent.
   */
  function StartId(maxId: int, checkpoint: Option<int>): (s: int)
    ensures checkpoint == Some(0) ==> s == maxId - 1
    ensures checkpoint.Some? && checkpoint.value != 0 ==> s == checkpoint.value - 1
    ensures checkpoint.None? ==> s == maxId - 1
  {
    if checkpoint.Some? && checkpoint.value != 0 then checkpoint.value - 1 else maxId - 1
  }

  /** `range(current_id, max(1, current_id - chunk_size), -1)`. */
  function ChunkIds(current: int, size: int): seq<int> {
    Range(current, Max(1, current - size))
  }

  /** A chunk taken while `current_id > 1` is non-empty, at most `chunk_size` long, and descends by one from `current_id` to no lower than 2. */
  lemma ChunkShape(current: int, size: int)
    requires size > 0 && current > 1
    ensures var c := ChunkIds(current, size);
      && 1 <= |c| <= size
      && c[0] == current
      && c[|c| - 1] == Max(2, current - size + 1)
      && (forall k :: 0 <= k < |c| ==> 2 <= c[k] <= current)
      && (forall k :: 0 <= k < |c| - 1 ==> c[k + 1] == c[k] - 1)
  {
  }

  /** The chunks the `while current_id > 1` loop walks from `current`, in order. */
  function Walk(current: int, size: int): seq<seq<int>>
    requires size > 0
    decreases Max(current, 0)
  {
    if current <= 1 then [] else [ChunkIds(current, size)] + Walk(current - size, size)
  }

  /** The checkpoints saved by the walk from `current`: `chunk_ids[0]` of every chunk. */
  function Checkpoints(current: int, size: int): seq<int>
    requires size > 0
    decreases Max(current, 0)
  {
    if current <= 1 then [] else [current] + Checkpoints(current - size, size)
  }

  /** The chunks laid end to end. */
  function Concat(chunks: seq<seq<int>>): seq<int> {
    if |chunks| == 0 then [] else chunks[0] + Concat(chunks[1..])
  }

  lemma {:induction false} ConcatAppend(a: seq<seq<int>>, b: seq<seq<int>>)
    ensures Concat(a + b) == Concat(a) + Concat(b)
  {
    if a == [] {
      assert a + b == b;
    } else {
      assert (a + b)[0] == a[0];
      assert (a + b)[1..] == a[1..] + b;
      ConcatAppend(a[1..], b);
    }
  }

  /**
   * The chunks of a walk from `s`, laid end to end, are exactly
   * s, s - 1, ..., 2: adjacent, disjoint, and never id 1.
   */
  lemma {:induction false} WalkCovers(s: int, size: int)
    requires size > 0
    ensures Concat(Walk(s, size)) == Range(s, 1)
    decreases Max(s, 0)
  {
    if s > 1 {
      WalkCovers(s - size, size);
      assert Walk(s, size)[1..] == Walk(s - size, size);
      if s - size >= 1 {
        RangeSplit(s, s - size, 1);
      }
    }
  }

  /** Chunk `j` of a walk from `s` starts at `s - j * size`, which is still above 1. */
  lemma {:induction false} WalkChunkAt(s: int, size: int, j: int)
    requires size > 0 && 0 <= j < |Walk(s, size)|
    ensures s - j * size > 1
    ensures Walk(s, size)[j] == ChunkIds(s - j * size, size)
    decreases j
  {
    if j > 0 {
      WalkChunkAt(s - size, size, j - 1);
      assert Walk(s, size)[j] == Walk(s - size, size)[j - 1];
      assert s - size - (j - 1) * size == s - j * size;
    }
  }

  /** One checkpoint is saved per chunk, and it is that chunk's first (highest) id, `s - j * size`. */
  lemma {:induction false} CheckpointAt(s: int, size: int, j: int)
    requires size > 0 && 0 <= j < |Walk(s, size)|
    ensures |Checkpoints(s, size)| == |Walk(s, size)|
    ensures |Walk(s, size)[j]| > 0 && Checkpoints(s, size)[j] == Walk(s, size)[j][0] == s - j * size
    decreases j
  {
    CheckpointsLength(s, size);
    if j > 0 {
      CheckpointAt(s - size, size, j - 1);
      assert Walk(s, size)[j] == Walk(s - size, size)[j - 1];
      assert Checkpoints(s, size)[j] == Checkpoints(s - size, size)[j - 1];
      assert s - size - (j - 1) * size == s - j * size;
    }
  }

  /** Successive checkpoints fall by exactly `size`. */
  lemma CheckpointsDescend(s: int, size: int, j: int)
    requires size > 0 && 0 <= j && j + 1 < |Walk(s, size)|
    ensures |Checkpoints(s, size)| == |Walk(s, size)|
    ensures Checkpoints(s, size)[j + 1] == Checkpoints(s, size)[j] - size
  {
    CheckpointAt(s, size, j);
    CheckpointAt(s, size, j + 1);
    assert s - (j + 1) * size == s - j * size - size;
  }

  lemma {:induction false} CheckpointsLength(s: int, size: int)
    requires size > 0
    ensures |Checkpoints(s, size)| == |Walk(s, size)|
    decreases Max(s, 0)
  {
    if s > 1 {
      CheckpointsLength(s - size, size);
    }
  }

  /** The number of chunks is the least `n` with `s - n * size <= 1`. */
  lemma {:induction false} WalkLength(s: int, size: int)
    requires size > 0
    ensures s - |Walk(s, size)| * size <= 1
    ensures |Walk(s, size)| > 0 ==> s - (|Walk(s, size)| - 1) * size > 1
    decreases Max(s, 0)
  {
    if s > 1 {
      WalkLength(s - size, size);
      var n := |Walk(s - size, size)|;
      assert |Walk(s, size)| == n + 1;
      assert s - (n + 1) * size == s - size - n * size;
      assert n > 0 ==> s - n * size == s - size - (n - 1) * size;
    }
  }

  lemma MulMono(x: int, y: int, b: int)
    requires x <= y && b > 0
    ensures x * b <= y * b
  {
  }

  /** Euclidean division is fixed by its bounds; for a positive divisor it is Python's `//`. */
  lemma DivUnique(a: int, b: int, q: int)
    requires b > 0 && q * b <= a < (q + 1) * b
    ensures a / b == q
  {
    var q', r' := a / b, a % b;
    assert a == q' * b + r' && 0 <= r' < b;
    if q' < q {
      MulMono(q' + 1, q, b);
      assert false;
    } else if q < q' {
      MulMono(q + 1, q', b);
      assert false;
    }
  }

  /** `total_chunks_estimate = (start_id - 1) // chunk_size + 1`. */
  function TotalChunksEstimate(s: int, size: int): int
    requires size > 0
  {
    (s - 1) / size + 1
  }

  /**
   * A walk from `s >= 2` takes `(s - 2) // size + 1` chunks, and the printed
   * estimate never falls below the number of chunks for `s >= 0`.
   */
  lemma ChunkCount(s: int, size: int)
    requires size > 0
    ensures s > 1 ==> |Walk(s, size)| == (s - 2) / size + 1
    ensures s >= 0 ==> |Walk(s, size)| <= TotalChunksEstimate(s, size)
  {
    WalkLength(s, size);
    var n := |Walk(s, size)|;
    if s > 1 {
      assert n > 0;
      DivUnique(s - 2, size, n - 1);
      assert (n - 1) * size <= s - 2;
      if s - 1 < n * size {
        DivUnique(s - 1, size, n - 1);
      } else {
        DivUnique(s - 1, size, n);
      }
    } else if s == 1 {
      DivUnique(0, size, 0);
    } else if s == 0 {
      DivUnique(-1, size, -1);
    }
  }

  /** The estimate is one too high when `start_id - 1` is a multiple of `chunk_size`. */
  lemma EstimateOvershoots()
    ensures |Walk(1001, 1000)| == 1 && TotalChunksEstimate(1001, 1000) == 2
  {
    assert Walk(1001, 1000) == [ChunkIds(1001, 1000)] + Walk(1, 1000);
  }

  /** The chunks before `k` cover s, ..., max(1, s - k * size) + 1. */
  lemma {:induction false} WalkPrefix(s: int, size: int, k: int)
    requires size > 0 && 0 <= k <= |Walk(s, size)|
    ensures Concat(Walk(s, size)[..k]) == Range(s, Max(1, s - k * size))
    decreases k
  {
    if k > 0 {
      var rest := Walk(s - size, size);
      assert Walk(s, size)[..k] == [ChunkIds(s, size)] + rest[..k - 1];
      WalkPrefix(s - size, size, k - 1);
      assert s - size - (k - 1) * size == s - k * size;
      if k - 1 > 0 {
        RangeSplit(s, s - size, Max(1, s - k * size));
      }
    }
  }

  /**
   * After a crash that follows chunk `k`'s checkpoint `c`, a resume starts at
   * `c - 1`: it walks every id of the original walk that no completed chunk
   * covered, walks no id outside the original walk, and walks again exactly
   * the already-completed ids below `c`, at most `size - 1` of them.
   */
  lemma ResumeAfterCheckpoint(maxId: int, s: int, size: int, k: int)
    requires size > 0 && 1 <= k <= |Walk(s, size)|
    ensures |Checkpoints(s, size)| == |Walk(s, size)|
    ensures var c := Checkpoints(s, size)[k - 1];
      var done := Concat(Walk(s, size)[..k]);
      var redo := Concat(Walk(StartId(maxId, Some(c)), size));
      && (forall id :: id in Concat(Walk(s, size)) && id !in done ==> id in redo)
      && (forall id :: id in redo ==> id in Concat(Walk(s, size)))
      && (forall id :: id in redo && id in done <==> id in Range(c - 1, Max(1, s - k * size)))
      && |Range(c - 1, Max(1, s - k * size))| <= size - 1
  {
    CheckpointAt(s, size, k - 1);
    WalkChunkAt(s, size, k - 1);
    var c := Checkpoints(s, size)[k - 1];
    assert c == s - (k - 1) * size > 1;
    assert StartId(maxId, Some(c)) == c - 1;
    assert s - k * size == c - size;
    WalkCovers(s, size);
    WalkCovers(c - 1, size);
    WalkPrefix(s, size, k);
    ResumeRanges(s, c, size, Max(1, s - k * size));
  }

  /** The interval facts behind a resume: ids (1, s] minus (lo, s] against (1, c - 1]. */
  lemma ResumeRanges(s: int, c: int, size: int, lo: int)
    requires size > 0 && 1 < c <= s && lo == Max(1, c - size)
    ensures forall id :: id in Range(s, 1) && id !in Range(s, lo) ==> id in Range(c - 1, 1)
    ensures forall id :: id in Range(c - 1, 1) ==> id in Range(s, 1)
    ensures forall id :: id in Range(c - 1, 1) && id in Range(s, lo) <==> id in Range(c - 1, lo)
    ensures |Range(c - 1, lo)| <= size - 1
  {
    forall id
      ensures id in Range(s, 1) && id !in Range(s, lo) ==> id in Range(c - 1, 1)
      ensures id in Range(c - 1, 1) ==> id in Range(s, 1)
      ensures id in Range(c - 1, 1) && id in Range(s, lo) <==> id in Range(c - 1, lo)
    {
      RangeMember(s, 1, id);
      RangeMember(s, lo, id);
      RangeMember(c - 1, 1, id);
      RangeMember(c - 1, lo, id);
    }
  }

  /** One turn of the loop moves the chunk at `current`, and its checkpoint `chunk_ids[0]`, from the walk ahead to the walk done. */
  lemma WalkStep(start: int, size: int, requested: seq<seq<int>>, saved: seq<int>, current: int,
                 requested': seq<seq<int>>, saved': seq<int>)
    requires size > 0 && current > 1
    requires Walk(start, size) == requested + Walk(current, size)
    requires Checkpoints(start, size) == saved + Checkpoints(current, size)
    requires requested' == requested + [ChunkIds(current, size)]
    requires saved' == saved + [ChunkIds(current, size)[0]]
    ensures Walk(start, size) == requested' + Walk(current - size, size)
    ensures Checkpoints(start, size) == saved' + Checkpoints(current - size, size)
  {
    assert ChunkIds(current, size)[0] == current;
    assert Walk(current, size) == [ChunkIds(current, size)] + Walk(current - size, size);
    assert Checkpoints(current, size) == [current] + Checkpoints(current - size, size);
  }

  /** The records the walk yields grow by those of the new chunk. */
  lemma RowsStep(fetchUrl: int -> Option<Record>, requested: seq<seq<int>>, chunk: seq<int>)
    ensures Yielded(fetchUrl, Concat(requested + [chunk]))
         == Yielded(fetchUrl, Concat(requested)) + Yielded(fetchUrl, chunk)
  {
    ConcatAppend(requested, [chunk]);
    assert [chunk][1..] == [];
    assert Concat([chunk]) == chunk;
    YieldedAppend(fetchUrl, Concat(requested), chunk);
  }

  /**
   * The `while current_id > 1` loop of `scrape_hackernews` from `startId`:
   * returns the chunks of ids requested, the checkpoints saved (one
   * `save_last_processed_id` per chunk), the records written to the CSV file
   * and the chunk counter. `fetchUrl` is `fetch_url` applied to an id.
   */
  method WalkFrom(startId: int, chunkSize: int, fetchUrl: int -> Option<Record>)
    returns (requested: seq<seq<int>>, saved: seq<int>, rows: seq<Record>, chunkCount: nat)
    requires chunkSize > 0
    ensures requested == Walk(startId, chunkSize)
    ensures Concat(requested) == Range(startId, 1)
    ensures saved == Checkpoints(startId, chunkSize)
    ensures chunkCount == |requested|
    ensures rows == Yielded(fetchUrl, Range(startId, 1))
  {
    var currentId := startId;
    chunkCount := 0;
    requested, saved, rows := [], [], [];
    while currentId > 1
      invariant Walk(startId, chunkSize) == requested + Walk(currentId, chunkSize)
      invariant Checkpoints(startId, chunkSize) == saved + Checkpoints(currentId, chunkSize)
      invariant chunkCount == |requested|
      invariant rows == Yielded(fetchUrl, Concat(requested))
      decreases Max(currentId, 0)
    {
      var chunkIds := ChunkIds(currentId, chunkSize);
      var stories := FetchAndProcess(fetchUrl, chunkIds);
      RowsStep(fetchUrl, requested, chunkIds);
      rows := rows + stories;
      var lastProcessedId := chunkIds[0];
      WalkStep(startId, chunkSize, requested, saved, currentId, requested + [chunkIds], saved + [lastProcessedId]);
      saved := saved + [lastProcessedId];
      requested := requested + [chunkIds];
      chunkCount := chunkCount + 1;
      currentId := currentId - chunkSize;
    }
    WalkCovers(startId, chunkSize);
  }

  /**
   * `scrape_hackernews` without its I/O: the start id from the checkpoint or
   * `max_id`, the printed chunk estimate, and the walk. `fetch` stands for the
   * HTTP request and JSON decoding of one id.
   */
  method Scrape(maxId: int, checkpoint: Option<int>, chunkSize: int, fetch: int -> Option<Item>)
    returns (requested: seq<seq<int>>, saved: seq<int>, rows: seq<Record>, chunkCount: nat, totalChunksEstimate: int)
    requires chunkSize > 0
    ensures requested == Walk(StartId(maxId, checkpoint), chunkSize)
    ensures Concat(requested) == Range(StartId(maxId, checkpoint), 1)
    ensures saved == Checkpoints(StartId(maxId, checkpoint), chunkSize)
    ensures chunkCount == |requested|
    ensures rows == Yielded(FetchUrl(fetch), Range(StartId(maxId, checkpoint), 1))
    ensures totalChunksEstimate == TotalChunksEstimate(StartId(maxId, checkpoint), chunkSize)
    ensures StartId(maxId, checkpoint) >= 0 ==> chunkCount <= totalChunksEstimate
  {
    var startId := StartId(maxId, checkpoint);
    totalChunksEstimate := TotalChunksEstimate(startId, chunkSize);
    requested, saved, rows, chunkCount := WalkFrom(startId, chunkSize, FetchUrl(fetch));
    ChunkCount(startId, chunkSize);
  }
}
