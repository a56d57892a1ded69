/**
 * The encrypted-stream pipeline of the player: a prefetch scheduler that
 * keeps at most PREFETCH_CHUNKS range fetches outstanding or waiting, a
 * reassembly queue for chunks that complete out of order, and a pump that
 * appends to the sink only the chunk that starts at the append cursor.
 *
 * Ranges are inclusive byte ranges, as in an HTTP Range request (RFC 9110,
 * section 14.2). Network completions arrive as explicit calls of
 * `Complete`, in any order; the sink (a media source with one source
 * buffer) is abstract state: its ready state, its `updating` flag and a
 * ghost log of the byte ranges appended to it.
 */
module StreamPipeline {
  import opened Wrappers
  import CtrCounter
  import ContentRange
  import BufferWindow

  /** Bytes per range request: 2 MiB, a multiple of the cipher block size. */
  const CHUNK_SIZE: nat := 2 * 1024 * 1024
  /** Fetches outstanding plus chunks waiting in the queue never exceed this. */
  const PREFETCH_CHUNKS: nat := 2

  /** An inclusive byte range `[start, end]`. */
  datatype ByteRange = ByteRange(start: nat, end: nat)

  /** The argument given to the sink's `endOfStream`: none, "network" or "decode". */
  datatype EndReason = Normal | NetworkError | DecodeError

  /** The media source's ready state: "closed", "open" or "ended". */
  datatype ReadyState = Closed | Open | Ended(reason: EndReason)

  function Min(a: int, b: int): int
  {
    if a <= b then a else b
  }

  /** A range request succeeded when the origin answered 206 or 200. */
  predicate RangeStatusOk(status: int)
  {
    status == 206 || status == 200
  }

  /** The range the scheduler requests when its fetch cursor is at `start`. */
  function ChunkAt(start: nat, totalSize: nat): ByteRange
    requires start < totalSize
  {
    ByteRange(start, Min(start + CHUNK_SIZE - 1, totalSize - 1))
  }

  /** `rs` holds chunks `n`, `n + 1`, ... of the object, in order. */
  predicate ChunksFrom(rs: seq<ByteRange>, n: nat, totalSize: nat)
  {
    forall i :: 0 <= i < |rs| ==> rs[i].start == (n + i) * CHUNK_SIZE && WellIssued(rs[i], totalSize)
  }

  /** `rs` holds chunks 0, 1, ..., |rs| - 1 of the object, in order. */
  predicate IsChunkPrefix(rs: seq<ByteRange>, totalSize: nat)
  {
    ChunksFrom(rs, 0, totalSize)
  }

  /** Non-empty ranges, each starting right after the previous one ends, the first at `from`. */
  predicate Contiguous(rs: seq<ByteRange>, from: nat)
  {
    forall i :: 0 <= i < |rs| ==>
      rs[i].start <= rs[i].end && rs[i].start == (if i == 0 then from else rs[i - 1].end + 1)
  }

  /** The first byte after contiguous ranges that start at `from`. */
  function EndOf(rs: seq<ByteRange>, from: nat): nat
  {
    if rs == [] then from else rs[|rs| - 1].end + 1
  }

  /** The ranges that one prefetch pass issues from `cursor` with `slots` free places. */
  function Plan(cursor: nat, totalSize: nat, slots: nat): seq<ByteRange>
    decreases slots
  {
    if slots == 0 || cursor >= totalSize then []
    else [ChunkAt(cursor, totalSize)] + Plan(ChunkAt(cursor, totalSize).end + 1, totalSize, slots - 1)
  }

  /** One step of a pass: the plan from `start` is the chunk at `start` followed by the plan after it. */
  lemma PlanStep(done: seq<ByteRange>, start: nat, totalSize: nat, slots: nat)
    requires start < totalSize && slots > 0
    ensures done + Plan(start, totalSize, slots)
            == (done + [ChunkAt(start, totalSize)]) + Plan(ChunkAt(start, totalSize).end + 1, totalSize, slots - 1)
  {
  }

  /** Position of the first queued chunk that starts at `start`, or -1 (`findIndex`). */
  function IndexOfStart(queue: seq<ByteRange>, start: nat): (idx: int)
    ensures -1 <= idx < |queue|
    ensures idx == -1 <==> forall k :: 0 <= k < |queue| ==> queue[k].start != start
    ensures idx >= 0 ==> queue[idx].start == start && forall k :: 0 <= k < idx ==> queue[k].start != start
  {
    if queue == [] then -1
    else if queue[0].start == start then 0
    else
      var i := IndexOfStart(queue[1..], start);
      if i == -1 then -1 else i + 1
  }

  // ---------------------------------------------------------------------
  // The chunk schedule

  /** The chunks in order tile `[0, min(n * CHUNK_SIZE, totalSize))` without gaps or overlaps. */
  lemma ChunkPrefixTiles(rs: seq<ByteRange>, totalSize: nat)
    requires IsChunkPrefix(rs, totalSize)
    ensures Contiguous(rs, 0)
    ensures EndOf(rs, 0) == Min(|rs| * CHUNK_SIZE, totalSize)
  {
  }

  /**
   * One pass from the start of chunk `n` issues chunks `n`, `n + 1`, ... of
   * the object, at most `slots` of them.
   */
  lemma {:induction false} PlanChunks(n: nat, totalSize: nat, slots: nat)
    requires n * CHUNK_SIZE <= totalSize
    ensures var p := Plan(n * CHUNK_SIZE, totalSize, slots);
            |p| <= slots && ChunksFrom(p, n, totalSize)
    decreases slots
  {
    var cursor := n * CHUNK_SIZE;
    if slots > 0 && cursor < totalSize {
      var r := ChunkAt(cursor, totalSize);
      var p := Plan(cursor, totalSize, slots);
      var rest := Plan(r.end + 1, totalSize, slots - 1);
      assert p == [r] + rest;
      if r.end + 1 < totalSize {
        assert r.end + 1 == (n + 1) * CHUNK_SIZE;
        PlanChunks(n + 1, totalSize, slots - 1);
      } else {
        assert rest == [];
      }
      forall k | 0 <= k < |p|
        ensures p[k].start == (n + k) * CHUNK_SIZE && WellIssued(p[k], totalSize)
      {
        if k > 0 {
          assert p[k] == rest[k - 1];
        }
      }
    }
  }

  /**
   * The ranges of one pass lie end to end from the cursor, and the pass
   * stops short of `slots` only when the object is exhausted.
   */
  lemma {:induction false} PlanTiles(cursor: nat, totalSize: nat, slots: nat)
    ensures var p := Plan(cursor, totalSize, slots);
            && Contiguous(p, cursor)
            && (|p| < slots ==> EndOf(p, cursor) == (if cursor < totalSize then totalSize else cursor))
    decreases slots
  {
    if slots > 0 && cursor < totalSize {
      var r := ChunkAt(cursor, totalSize);
      var p := Plan(cursor, totalSize, slots);
      var rest := Plan(r.end + 1, totalSize, slots - 1);
      PlanTiles(r.end + 1, totalSize, slots - 1);
      assert p == [r] + rest;
      forall k | 1 <= k < |p|
        ensures p[k].start <= p[k].end && p[k].start == p[k - 1].end + 1
      {
        assert p[k] == rest[k - 1];
      }
    }
  }

  /** With enough slots, one pass from 0 requests the whole object in ceil(totalSize / CHUNK_SIZE) ranges. */
  lemma {:induction false} PlanCoversObject(totalSize: nat, slots: nat)
    requires slots * CHUNK_SIZE >= totalSize
    ensures EndOf(Plan(0, totalSize, slots), 0) == totalSize
    ensures |Plan(0, totalSize, slots)| == (totalSize + CHUNK_SIZE - 1) / CHUNK_SIZE
  {
    PlanCoversFrom(0, totalSize, slots);
  }

  lemma {:induction false} PlanCoversFrom(n: nat, totalSize: nat, slots: nat)
    requires n * CHUNK_SIZE <= totalSize
    requires (n + slots) * CHUNK_SIZE >= totalSize
    ensures EndOf(Plan(n * CHUNK_SIZE, totalSize, slots), n * CHUNK_SIZE) == totalSize
    ensures |Plan(n * CHUNK_SIZE, totalSize, slots)| == (totalSize - n * CHUNK_SIZE + CHUNK_SIZE - 1) / CHUNK_SIZE
    decreases slots
  {
    var cursor := n * CHUNK_SIZE;
    if cursor < totalSize {
      var r := ChunkAt(cursor, totalSize);
      var p := Plan(cursor, totalSize, slots);
      if cursor + CHUNK_SIZE >= totalSize {
        assert p == [r] + Plan(totalSize, totalSize, slots - 1);
      } else {
        PlanCoversFrom(n + 1, totalSize, slots - 1);
        var rest := Plan(cursor + CHUNK_SIZE, totalSize, slots - 1);
        assert p == [r] + rest;
        CeilingStep(totalSize - cursor - CHUNK_SIZE);
      }
    }
  }

  /** One more chunk's worth of bytes needs exactly one more chunk. */
  lemma CeilingStep(rem: nat)
    ensures (rem + CHUNK_SIZE + CHUNK_SIZE - 1) / CHUNK_SIZE == (rem + CHUNK_SIZE - 1) / CHUNK_SIZE + 1
  {
  }

  /**
   * Every chunk starts on a cipher-block boundary, so the counter derived
   * from `floor(start / 16)` is exact, and a full-width increment of the
   * chunk's counter by `j` gives the counter of block `start / 16 + j` of
   * the object. The increment the decrypt call performs is the 64-bit one,
   * `ChunkKeystream64` below.
   */
  lemma ChunkKeystreamAligned(iv: seq<CtrCounter.byte>, r: ByteRange, totalSize: nat, j: nat)
    requires WellIssued(r, totalSize)
    ensures r.start % CtrCounter.BLOCK_SIZE == 0
    ensures CtrCounter.BlockIndex(r.start) * CtrCounter.BLOCK_SIZE == r.start
    ensures CtrCounter.CounterBlock(CtrCounter.ChunkCounter(iv, r.start), j)
            == CtrCounter.ChunkCounter(iv, r.start + j * CtrCounter.BLOCK_SIZE)
  {
    assert r.start == (r.start / CHUNK_SIZE * 131072) * CtrCounter.BLOCK_SIZE;
    CtrCounter.ChunkCountersContinue(iv, r.start, r.start + j * CtrCounter.BLOCK_SIZE);
  }

  /**
   * The decrypt call is given the chunk's counter with `length: 64`, so it
   * increments only the low 8 bytes. For a 16-byte IV whose low half does
   * not carry at the chunk's own counter, block `j` of the chunk gets the
   * counter of block `start / 16 + j` of the object exactly when the low
   * half does not carry at that block either.
   */
  lemma ChunkKeystream64(iv: seq<CtrCounter.byte>, r: ByteRange, totalSize: nat, j: nat)
    requires |iv| == 16 && WellIssued(r, totalSize) && j < CtrCounter.Pow256(8)
    requires CtrCounter.BigEndian(iv[8..]) + CtrCounter.BlockIndex(r.start) < CtrCounter.Pow256(8)
    ensures CtrCounter.Counter64Block(CtrCounter.ChunkCounter(iv, r.start), j)
              == CtrCounter.ChunkCounter(iv, r.start + j * CtrCounter.BLOCK_SIZE)
            <==> CtrCounter.BigEndian(iv[8..]) + CtrCounter.BlockIndex(r.start) + j < CtrCounter.Pow256(8)
  {
    CtrCounter.Counter64Continues(iv, CtrCounter.BlockIndex(r.start), j);
    ChunkKeystreamAligned(iv, r, totalSize, j);
  }

  /** A range as the scheduler issues it for an object of `totalSize` bytes. */
  predicate WellIssued(r: ByteRange, totalSize: nat)
  {
    r.start < totalSize && r.start % CHUNK_SIZE == 0 && r == ChunkAt(r.start, totalSize)
  }

  /** Issued ranges laid end to end from 0 are the chunks 0, 1, ... of the object, in order. */
  lemma {:induction false} IssuedAreChunks(rs: seq<ByteRange>, totalSize: nat, n: nat)
    requires Contiguous(rs, 0) && forall i :: 0 <= i < |rs| ==> WellIssued(rs[i], totalSize)
    requires n <= |rs|
    ensures IsChunkPrefix(rs[..n], totalSize)
    decreases n
  {
    if n > 0 {
      IssuedAreChunks(rs, totalSize, n - 1);
      assert rs[..n - 1] == rs[..n][..n - 1];
      if n > 1 {
        assert rs[n - 2].start == (n - 2) * CHUNK_SIZE;
      }
      assert rs[n - 1].start == (n - 1) * CHUNK_SIZE;
    }
  }

  /** Two different issued chunks, the first starting no later, do not overlap. */
  lemma ChunksApart(a: ByteRange, b: ByteRange, totalSize: nat)
    requires WellIssued(a, totalSize) && WellIssued(b, totalSize) && a != b && a.start <= b.start
    ensures a.end < b.start
  {
  }

  // ---------------------------------------------------------------------
  // The pipeline invariant, over plain values

  /** A chunk that was issued (it starts before the fetch cursor) and not yet appended. */
  ghost predicate Outstanding(r: ByteRange, totalSize: Option<nat>, fetchCursor: nat, appendCursor: nat)
  {
    totalSize.Some? && WellIssued(r, totalSize.value) && appendCursor <= r.start < fetchCursor
  }

  /**
   * The fetch cursor sits on a chunk boundary or at the end; what was
   * appended is issued chunks laid end to end from 0 up to the append
   * cursor, which does not pass the fetch cursor.
   */
  ghost predicate CursorsOk(totalSize: Option<nat>, fetchCursor: nat, appendCursor: nat, appended: seq<ByteRange>)
  {
    && (totalSize.None? ==> fetchCursor == 0 && appended == [])
    && (totalSize.Some? ==>
          && fetchCursor <= totalSize.value
          && (fetchCursor % CHUNK_SIZE == 0 || fetchCursor == totalSize.value)
          && forall i :: 0 <= i < |appended| ==> WellIssued(appended[i], totalSize.value))
    && Contiguous(appended, 0) && EndOf(appended, 0) == appendCursor && appendCursor <= fetchCursor
  }

  /** Outstanding fetches and queued chunks: disjoint, issued, not yet appended, and at most PREFETCH_CHUNKS together. */
  ghost predicate WindowOk(totalSize: Option<nat>, fetchCursor: nat, appendCursor: nat,
                           inFlight: nat, queue: seq<ByteRange>, pending: set<ByteRange>)
  {
    && inFlight == |pending|
    && inFlight + |queue| <= PREFETCH_CHUNKS
    && (forall r :: r in pending ==> Outstanding(r, totalSize, fetchCursor, appendCursor))
    && (forall k :: 0 <= k < |queue| ==>
          Outstanding(queue[k], totalSize, fetchCursor, appendCursor) && queue[k] !in pending)
    && (forall j, k :: 0 <= j < k < |queue| ==> queue[j] != queue[k])
  }

  /** The set of ranges in a sequence. */
  function Elements(rs: seq<ByteRange>): set<ByteRange>
  {
    if rs == [] then {} else {rs[0]} + Elements(rs[1..])
  }

  /** A pass moves the fetch cursor forward, to a chunk boundary or the end of the object. */
  lemma {:induction false} PlanEnd(cursor: nat, totalSize: nat, slots: nat)
    requires cursor <= totalSize && (cursor % CHUNK_SIZE == 0 || cursor == totalSize)
    ensures var e := EndOf(Plan(cursor, totalSize, slots), cursor);
            cursor <= e <= totalSize && (e % CHUNK_SIZE == 0 || e == totalSize)
    decreases slots
  {
    if slots > 0 && cursor < totalSize {
      var r := ChunkAt(cursor, totalSize);
      PlanEnd(r.end + 1, totalSize, slots - 1);
      var rest := Plan(r.end + 1, totalSize, slots - 1);
      assert Plan(cursor, totalSize, slots) == [r] + rest;
    }
  }

  /** Consecutive chunks from chunk `n` are distinct, and each starts in `[n * CHUNK_SIZE, (n + |rs|) * CHUNK_SIZE)`. */
  lemma {:induction false} ElementsOfChunks(rs: seq<ByteRange>, n: nat, totalSize: nat)
    requires ChunksFrom(rs, n, totalSize)
    ensures |Elements(rs)| == |rs|
    ensures forall r :: r in Elements(rs) ==>
              WellIssued(r, totalSize) && n * CHUNK_SIZE <= r.start < (n + |rs|) * CHUNK_SIZE
  {
    if rs != [] {
      var rest := rs[1..];
      ChunksFromTail(rs, n, totalSize);
      ElementsOfChunks(rest, n + 1, totalSize);
      assert rs[0].start == n * CHUNK_SIZE;
    }
  }

  lemma ChunksFromTail(rs: seq<ByteRange>, n: nat, totalSize: nat)
    requires ChunksFrom(rs, n, totalSize) && rs != []
    ensures ChunksFrom(rs[1..], n + 1, totalSize)
  {
    forall i | 0 <= i < |rs| - 1
      ensures rs[1..][i].start == (n + 1 + i) * CHUNK_SIZE && WellIssued(rs[1..][i], totalSize)
    {
      assert rs[1..][i] == rs[i + 1];
    }
  }

  /** The ranges of a pass are distinct issued chunks that start between the old and the new fetch cursor. */
  lemma PlanMembers(cursor: nat, totalSize: nat, slots: nat)
    requires cursor % CHUNK_SIZE == 0 || cursor == totalSize
    ensures var p := Plan(cursor, totalSize, slots);
            && |Elements(p)| == |p|
            && forall r :: r in Elements(p) ==> WellIssued(r, totalSize) && cursor <= r.start < EndOf(p, cursor)
  {
    var p := Plan(cursor, totalSize, slots);
    if cursor < totalSize {
      var n := cursor / CHUNK_SIZE;
      assert n * CHUNK_SIZE == cursor;
      PlanChunks(n, totalSize, slots);
      ElementsOfChunks(p, n, totalSize);
      if p != [] {
        assert p[|p| - 1].start == (n + |p| - 1) * CHUNK_SIZE;
      }
    }
  }

  /** A pass keeps the window: all of its ranges become outstanding, and the queued chunks stay as they were. */
  lemma PlanKeepsWindow(totalSize: nat, fetchCursor: nat, appendCursor: nat, inFlight: nat,
                        queue: seq<ByteRange>, pending: set<ByteRange>, slots: nat)
    requires WindowOk(Some(totalSize), fetchCursor, appendCursor, inFlight, queue, pending)
    requires fetchCursor <= totalSize && (fetchCursor % CHUNK_SIZE == 0 || fetchCursor == totalSize)
    requires appendCursor <= fetchCursor
    requires inFlight + |queue| + slots <= PREFETCH_CHUNKS
    ensures var p := Plan(fetchCursor, totalSize, slots);
            WindowOk(Some(totalSize), EndOf(p, fetchCursor), appendCursor, inFlight + |p|, queue,
                     pending + Elements(p))
  {
    var p := Plan(fetchCursor, totalSize, slots);
    var added := Elements(p);
    PlanEnd(fetchCursor, totalSize, slots);
    PlanMembers(fetchCursor, totalSize, slots);
    PlanAtMost(fetchCursor, totalSize, slots);
    assert pending * added == {} by {
      forall r | r in pending ensures r !in added {
      }
    }
    assert |pending + added| == |pending| + |added|;
  }

  /** A pass issues at most `slots` ranges. */
  lemma {:induction false} PlanAtMost(cursor: nat, totalSize: nat, slots: nat)
    ensures |Plan(cursor, totalSize, slots)| <= slots
    decreases slots
  {
    if slots > 0 && cursor < totalSize {
      PlanAtMost(ChunkAt(cursor, totalSize).end + 1, totalSize, slots - 1);
    }
  }

  /** A whole prefetch pass keeps the invariant. */
  lemma PlanKeepsInvariant(totalSize: nat, fetchCursor: nat, appendCursor: nat, inFlight: nat,
                           queue: seq<ByteRange>, pending: set<ByteRange>,
                           appended: seq<ByteRange>, slots: nat)
    requires CursorsOk(Some(totalSize), fetchCursor, appendCursor, appended)
    requires WindowOk(Some(totalSize), fetchCursor, appendCursor, inFlight, queue, pending)
    requires inFlight + |queue| + slots <= PREFETCH_CHUNKS
    ensures var p := Plan(fetchCursor, totalSize, slots);
            && CursorsOk(Some(totalSize), EndOf(p, fetchCursor), appendCursor, appended)
            && WindowOk(Some(totalSize), EndOf(p, fetchCursor), appendCursor, inFlight + |p|, queue,
                        pending + Elements(p))
  {
    PlanEnd(fetchCursor, totalSize, slots);
    PlanKeepsWindow(totalSize, fetchCursor, appendCursor, inFlight, queue, pending, slots);
  }

  /** Free places in the window of PREFETCH_CHUNKS for `inFlight` fetches and `queued` chunks. */
  function FreeSlots(inFlight: nat, queued: nat): nat
  {
    if inFlight + queued >= PREFETCH_CHUNKS then 0 else PREFETCH_CHUNKS - inFlight - queued
  }

  /**
   * The issuing loop of a prefetch pass: request the chunk at the cursor
   * while fewer than PREFETCH_CHUNKS fetches are outstanding or queued and
   * data is left. It issues exactly the pass `Plan` describes.
   */
  method IssueFetches(fetchCursor: nat, totalSize: nat, inFlight: nat, queued: nat)
    returns (cursor: nat, outstanding: nat, ghost issued: seq<ByteRange>)
    ensures issued == Plan(fetchCursor, totalSize, FreeSlots(inFlight, queued))
    ensures var p := Plan(fetchCursor, totalSize, FreeSlots(inFlight, queued));
            cursor == EndOf(p, fetchCursor) && outstanding == inFlight + |p|
  {
    ghost var slots := FreeSlots(inFlight, queued);
    ghost var plan := Plan(fetchCursor, totalSize, slots);
    issued := [];
    cursor := fetchCursor;
    outstanding := inFlight;
    while outstanding + queued < PREFETCH_CHUNKS && cursor < totalSize
      invariant |issued| <= slots && outstanding == inFlight + |issued|
      invariant cursor == EndOf(issued, fetchCursor)
      invariant plan == issued + Plan(cursor, totalSize, slots - |issued|)
      decreases totalSize - cursor
    {
      var start := cursor;
      var end := Min(start + CHUNK_SIZE - 1, totalSize - 1);
      PlanStep(issued, start, totalSize, slots - |issued|);
      outstanding := outstanding + 1;
      // here the player starts fetchDecryptRange(start, end); it completes through Session.Complete
      issued := issued + [ByteRange(start, end)];
      cursor := end + 1;
    }
  }

  /** A completed fetch leaves the window, whether its chunk joins the queue (success) or is dropped (failure). */
  lemma CompletionKeepsWindow(totalSize: Option<nat>, fetchCursor: nat, appendCursor: nat, inFlight: nat,
                              queue: seq<ByteRange>, pending: set<ByteRange>, r: ByteRange)
    requires WindowOk(totalSize, fetchCursor, appendCursor, inFlight, queue, pending) && r in pending
    ensures inFlight >= 1
    ensures WindowOk(totalSize, fetchCursor, appendCursor, inFlight - 1, queue + [r], pending - {r})
    ensures WindowOk(totalSize, fetchCursor, appendCursor, inFlight - 1, queue, pending - {r})
  {
    var q := queue + [r];
    forall k | 0 <= k < |queue| ensures q[k] != r {
      assert q[k] == queue[k];
    }
  }

  /** Taking a chunk out of the queue keeps the window; the chunk is then neither queued nor outstanding. */
  lemma SpliceKeepsWindow(totalSize: Option<nat>, fetchCursor: nat, appendCursor: nat, inFlight: nat,
                          queue: seq<ByteRange>, pending: set<ByteRange>, idx: nat)
    requires WindowOk(totalSize, fetchCursor, appendCursor, inFlight, queue, pending) && idx < |queue|
    ensures var rest := queue[..idx] + queue[idx + 1..];
            && WindowOk(totalSize, fetchCursor, appendCursor, inFlight, rest, pending)
            && queue[idx] !in rest && queue[idx] !in pending
  {
    var rest := queue[..idx] + queue[idx + 1..];
    forall k | 0 <= k < |rest| ensures rest[k] == queue[if k < idx then k else k + 1] {
    }
  }

  /**
   * Appending the queued chunk that starts at the append cursor keeps the
   * invariant: the appended chunks stay laid end to end, and the append
   * cursor moves past the new one without passing the fetch cursor.
   */
  lemma AppendKeepsInvariant(totalSize: nat, fetchCursor: nat, appendCursor: nat, inFlight: nat,
                             queue: seq<ByteRange>, pending: set<ByteRange>,
                             appended: seq<ByteRange>, item: ByteRange)
    requires CursorsOk(Some(totalSize), fetchCursor, appendCursor, appended)
    requires WindowOk(Some(totalSize), fetchCursor, appendCursor, inFlight, queue, pending)
    requires Outstanding(item, Some(totalSize), fetchCursor, appendCursor) && item.start == appendCursor
    requires item !in pending && item !in queue
    ensures CursorsOk(Some(totalSize), fetchCursor, item.end + 1, appended + [item])
    ensures WindowOk(Some(totalSize), fetchCursor, item.end + 1, inFlight, queue, pending)
  {
    AppendKeepsCursors(totalSize, fetchCursor, appendCursor, appended, item);
    AppendKeepsWindow(totalSize, fetchCursor, appendCursor, inFlight, queue, pending, item);
  }

  lemma AppendKeepsCursors(totalSize: nat, fetchCursor: nat, appendCursor: nat,
                           appended: seq<ByteRange>, item: ByteRange)
    requires CursorsOk(Some(totalSize), fetchCursor, appendCursor, appended)
    requires Outstanding(item, Some(totalSize), fetchCursor, appendCursor) && item.start == appendCursor
    ensures CursorsOk(Some(totalSize), fetchCursor, item.end + 1, appended + [item])
  {
    var a := appended + [item];
    assert forall i :: 0 <= i < |appended| ==> a[i] == appended[i];
    if fetchCursor != totalSize {
      AlignedGap(item.start, fetchCursor);
    }
    assert item.end + 1 <= fetchCursor;
    assert Contiguous(a, 0);
  }

  /** Two chunk boundaries are at least a chunk apart. */
  lemma AlignedGap(a: nat, b: nat)
    requires a % CHUNK_SIZE == 0 && b % CHUNK_SIZE == 0 && a < b
    ensures a + CHUNK_SIZE <= b
  {
  }

  lemma AppendKeepsWindow(totalSize: nat, fetchCursor: nat, appendCursor: nat, inFlight: nat,
                          queue: seq<ByteRange>, pending: set<ByteRange>, item: ByteRange)
    requires WindowOk(Some(totalSize), fetchCursor, appendCursor, inFlight, queue, pending)
    requires Outstanding(item, Some(totalSize), fetchCursor, appendCursor) && item.start == appendCursor
    requires item !in pending && item !in queue
    ensures WindowOk(Some(totalSize), fetchCursor, item.end + 1, inFlight, queue, pending)
  {
    forall r | r in pending
      ensures item.end < r.start
    {
      ChunksApart(item, r, totalSize);
    }
    forall k | 0 <= k < |queue|
      ensures item.end < queue[k].start
    {
      ChunksApart(item, queue[k], totalSize);
    }
  }

  /** Taking entry `k` out of a queue keeps every other entry: each entry is either the one taken or still there. */
  lemma SpliceMembers(q: seq<ByteRange>, k: nat)
    requires k < |q|
    ensures forall x :: x in q <==> x == q[k] || x in q[..k] + q[k + 1..]
  {
    assert q == q[..k] + [q[k]] + q[k + 1..];
  }

  // ---------------------------------------------------------------------
  // The session

  /**
   * The per-playback pipeline state, with the sink it drives. `pending` and
   * `appended` are the ghost record of the outstanding fetches and of what
   * the sink has been given.
   */
  class Session {
    var aborted: bool
    var totalSize: Option<nat>
    var fetchCursor: nat
    var appendCursor: nat
    var inFlight: nat
    var queue: seq<ByteRange>
    var readyState: ReadyState
    var updating: bool
    var playbackStarted: bool
    ghost var pending: set<ByteRange>
    ghost var appended: seq<ByteRange>

    ghost predicate Valid()
      reads this
    {
      && CursorsOk(totalSize, fetchCursor, appendCursor, appended)
      && WindowOk(totalSize, fetchCursor, appendCursor, inFlight, queue, pending)
      && (readyState == Closed ==> totalSize.None? && queue == [] && pending == {})
      && (updating ==> readyState == Open)
      && (readyState == Ended(Normal) ==>
            totalSize.Some? && appendCursor == totalSize.value && queue == [] && pending == {})
    }

    /**
     * What the sink has been given is chunks 0, 1, ... of the object in
     * order, so it holds exactly the bytes `[0, appendCursor)`; once the
     * stream has ended normally, that is the whole object.
     */
    lemma AppendedTiles()
      requires Valid()
      ensures Contiguous(appended, 0) && EndOf(appended, 0) == appendCursor
      ensures totalSize.Some? ==> IsChunkPrefix(appended, totalSize.value)
      ensures readyState == Ended(Normal) ==> EndOf(appended, 0) == totalSize.value
    {
      if totalSize.Some? {
        IssuedAreChunks(appended, totalSize.value, |appended|);
        assert appended[..|appended|] == appended;
      }
    }

    constructor ()
      ensures Valid()
      ensures !aborted && totalSize.None? && readyState == Closed && !updating && !playbackStarted
      ensures fetchCursor == 0 && appendCursor == 0 && inFlight == 0 && queue == []
      ensures pending == {} && appended == []
    {
      aborted := false;
      totalSize := None;
      fetchCursor := 0;
      appendCursor := 0;
      inFlight := 0;
      queue := [];
      readyState := Closed;
      updating := false;
      playbackStarted := false;
      pending := {};
      appended := [];
    }

    /** The effect cleanup: later triggers find the session aborted. */
    method Abort()
      requires Valid()
      modifies this`aborted
      ensures Valid() && aborted
    {
      aborted := true;
    }

    /**
     * `endOfStream(reason)` inside the player's `try`: the media source
     * refuses it (and the error is swallowed) unless it is open and its
     * buffer is idle.
     */
    method TryEndOfStream(reason: EndReason)
      requires Valid()
      requires reason == Normal ==>
                 totalSize.Some? && appendCursor == totalSize.value && queue == [] && pending == {}
      modifies this`readyState
      ensures Valid()
      ensures readyState == if old(readyState) == Open && !updating then Ended(reason) else old(readyState)
    {
      if readyState == Open && !updating {
        readyState := Ended(reason);
      }
    }

    /**
     * The `sourceopen` handler: check the media type, probe the total size
     * with a `bytes=0-0` request whose status and Content-Range value are
     * given, reset the cursors and pump once. With nothing queued yet, that
     * first pump only starts the prefetch from byte 0, or ends the stream
     * of an empty object.
     */
    method SourceOpen(mimeSupported: bool, probeStatus: int, contentRange: string,
                      now: real, buffered: seq<BufferWindow.TimeRange>, appendAccepted: bool)
      requires Valid() && readyState == Closed
      modifies this`totalSize, this`fetchCursor, this`inFlight, this`pending, this`queue, this`readyState,
               this`updating, this`appended, this`appendCursor, this`playbackStarted
      ensures Valid()
      ensures old(aborted) ==> readyState == Closed && totalSize.None? && appended == [] && pending == {}
      ensures !old(aborted) && !(mimeSupported && RangeStatusOk(probeStatus)) ==>
                readyState == Ended(DecodeError) && totalSize.None? && pending == {}
      ensures !old(aborted) && mimeSupported && RangeStatusOk(probeStatus) ==>
                && totalSize == ContentRange.ParseTotalSize(contentRange)
                && appendCursor == 0 && appended == [] && queue == [] && !updating
                && readyState == (if totalSize == Some(0) then Ended(Normal) else Open)
      ensures !old(aborted) && mimeSupported && RangeStatusOk(probeStatus) && totalSize.Some?
              && BufferWindow.SumAhead(buffered, now) <= BufferWindow.MAX_BUFFER_AHEAD_SECONDS ==>
                var p := Plan(0, totalSize.value, PREFETCH_CHUNKS);
                pending == Elements(p) && inFlight == |p| && fetchCursor == EndOf(p, 0)
      ensures !old(aborted) && mimeSupported && RangeStatusOk(probeStatus)
              && (totalSize.None? || BufferWindow.SumAhead(buffered, now) > BufferWindow.MAX_BUFFER_AHEAD_SECONDS) ==>
                pending == {} && inFlight == 0 && fetchCursor == 0
    {
      if aborted {
        return;
      }
      readyState := Open;
      if !mimeSupported || !RangeStatusOk(probeStatus) {
        TryEndOfStream(DecodeError);
        return;
      }
      totalSize := ContentRange.ParseTotalSize(contentRange);
      fetchCursor := 0;
      appendCursor := 0;
      OpenValid();
      FirstPump(now, buffered, appendAccepted);
    }

    /**
     * The pump at the end of `sourceopen`, with the media source open and
     * nothing fetched, queued or appended yet: it only starts the prefetch
     * from byte 0, or ends the stream of an empty object.
     */
    method FirstPump(now: real, buffered: seq<BufferWindow.TimeRange>, appendAccepted: bool)
      requires Valid() && !aborted && readyState == Open && !updating
      requires fetchCursor == 0 && appendCursor == 0 && appended == [] && queue == [] && pending == {}
      modifies this`fetchCursor, this`inFlight, this`pending, this`queue, this`readyState,
               this`updating, this`appended, this`appendCursor, this`playbackStarted
      ensures Valid()
      ensures appendCursor == 0 && appended == [] && queue == [] && !updating
      ensures readyState == (if totalSize == Some(0) then Ended(Normal) else Open)
      ensures old(PrefetchAllowed(now, buffered)) ==>
                var p := Plan(0, totalSize.value, PREFETCH_CHUNKS);
                pending == Elements(p) && inFlight == |p| && fetchCursor == EndOf(p, 0)
      ensures !old(PrefetchAllowed(now, buffered)) ==> pending == {} && inFlight == 0 && fetchCursor == 0
    {
      Prefetch(now, buffered);
      assert queue == [] && appended == [] && appendCursor == 0 && !updating && readyState == Open;
      assert IndexOfStart(queue, appendCursor) == -1;
      AppendNext(appendAccepted);
    }

    /** A prefetch pass runs: not aborted, media source open, size known, at most the limit buffered ahead. */
    predicate PrefetchAllowed(now: real, buffered: seq<BufferWindow.TimeRange>)
      reads this
    {
      && !aborted && readyState == Open && totalSize.Some?
      && BufferWindow.SumAhead(buffered, now) <= BufferWindow.MAX_BUFFER_AHEAD_SECONDS
    }

    /**
     * Issue range fetches from the fetch cursor while there is room in the
     * window and data left, unless the session is aborted, the media source
     * is not open, the size is unknown, or more than the limit is buffered
     * ahead. The loop runs to completion before any fetch completes, so its
     * counters are kept in locals and stored once it ends.
     */
    method Prefetch(now: real, buffered: seq<BufferWindow.TimeRange>)
      requires Valid()
      modifies this`fetchCursor, this`inFlight, this`pending
      ensures Valid()
      ensures !old(PrefetchAllowed(now, buffered)) ==>
                pending == old(pending) && inFlight == old(inFlight) && fetchCursor == old(fetchCursor)
      ensures old(PrefetchAllowed(now, buffered)) ==>
                var p := Plan(old(fetchCursor), totalSize.value, FreeSlots(old(inFlight), |queue|));
                && pending == old(pending) + Elements(p)
                && inFlight == old(inFlight) + |p|
                && fetchCursor == EndOf(p, old(fetchCursor))
      ensures old(fetchCursor) <= fetchCursor
      ensures forall r :: r in pending ==> r in old(pending) || old(fetchCursor) <= r.start
    {
      var go := !aborted && readyState == Open && totalSize.Some?;
      if go {
        var bufferedAhead := BufferWindow.BufferedAheadSeconds(buffered, now);
        go := bufferedAhead <= BufferWindow.MAX_BUFFER_AHEAD_SECONDS;
      }
      assert go == PrefetchAllowed(now, buffered);
      if go {
        IssuePass();
      }
    }

    /** Outstanding fetches and queued chunks fit in the window. */
    lemma WindowBound()
      requires Valid()
      ensures inFlight + |queue| <= PREFETCH_CHUNKS
    {
    }

    /**
     * The issuing part of a prefetch pass, once the gates are passed: the
     * ranges the loop issues become outstanding, and they are the plan's.
     */
    method IssuePass()
      requires Valid() && readyState == Open && totalSize.Some?
      modifies this`fetchCursor, this`inFlight, this`pending
      ensures Valid()
      ensures var p := Plan(old(fetchCursor), totalSize.value, FreeSlots(old(inFlight), |queue|));
              && pending == old(pending) + Elements(p)
              && inFlight == old(inFlight) + |p|
              && fetchCursor == EndOf(p, old(fetchCursor))
      ensures old(fetchCursor) <= fetchCursor
      ensures forall r :: r in pending ==> r in old(pending) || old(fetchCursor) <= r.start
    {
      WindowBound();
      var cursor, outstanding;
      ghost var issued;
      cursor, outstanding, issued := IssueFetches(fetchCursor, totalSize.value, inFlight, |queue|);
      ghost var slots := FreeSlots(inFlight, |queue|);
      PlanKeepsInvariant(totalSize.value, fetchCursor, appendCursor, inFlight, queue, pending, appended, slots);
      PlanMembers(fetchCursor, totalSize.value, slots);
      fetchCursor := cursor;
      inFlight := outstanding;
      pending := pending + Elements(issued);
      OpenValid();
    }

    /** While the media source is open, the invariant is the cursor and window invariants. */
    lemma OpenValid()
      requires readyState == Open
      requires CursorsOk(totalSize, fetchCursor, appendCursor, appended)
      requires WindowOk(totalSize, fetchCursor, appendCursor, inFlight, queue, pending)
      ensures Valid()
    {
    }

    /**
     * Completion of the fetch of `[start, end]`: on success the chunk joins
     * the queue (also after an abort: the player does not check for it
     * there); on failure the media source is ended with a network error;
     * either way the fetch is no longer outstanding and the pump runs. A
     * chunk that arrives is then queued or appended, unless its append
     * failed and ended the stream.
     */
    method Complete(start: nat, end: nat, ok: bool,
                    now: real, buffered: seq<BufferWindow.TimeRange>, appendAccepted: bool)
      requires Valid() && ByteRange(start, end) in pending
      modifies this`fetchCursor, this`inFlight, this`pending, this`queue, this`readyState,
               this`updating, this`appended, this`appendCursor, this`playbackStarted
      ensures Valid()
      ensures ByteRange(start, end) !in pending
      ensures ok ==> ByteRange(start, end) in queue || ByteRange(start, end) in appended
                     || readyState == Ended(DecodeError)
      ensures old(aborted) ==>
                && appended == old(appended)
                && queue == (if ok then old(queue) + [ByteRange(start, end)] else old(queue))
                && readyState == (if !ok && old(readyState) == Open && !old(updating)
                                  then Ended(NetworkError) else old(readyState))
      ensures !ok && old(readyState) == Open && !old(updating) ==> readyState == Ended(NetworkError)
      // the other queued chunks stay queued or reach the sink, and the fetch cursor does not move back
      ensures forall x :: x in old(queue) ==> x in queue || x in appended || readyState == Ended(DecodeError)
      ensures old(fetchCursor) <= fetchCursor
      // the other fetches stay outstanding, and the first append starts playback
      ensures old(pending) - {ByteRange(start, end)} <= pending
      ensures playbackStarted == (old(playbackStarted) || (appended != old(appended) && old(appendCursor) == 0))
    {
      var r := ByteRange(start, end);
      Settled(r, ok);
      ghost var settled := queue;
      assert forall x :: x in old(queue) ==> x in settled;
      assert ok ==> r in settled;
      HandlerPump(now, buffered, appendAccepted);
      assert forall x :: x in settled ==> x in queue || x in appended || readyState == Ended(DecodeError);
    }

    /**
     * A pump as the two event handlers that end with one see it (a fetch
     * that settles and an `updateend`): `Pump`'s contract without the
     * prefetch plan, which neither handler states, so that their proofs do
     * not carry it. An aborted session or a media source that is no longer
     * open is left as it is, a busy buffer receives nothing, only the chunk
     * at the append cursor can leave the queue, no queued chunk is lost
     * unless an append fails, and no fetch starts before the old fetch cursor.
     */
    method HandlerPump(now: real, buffered: seq<BufferWindow.TimeRange>, appendAccepted: bool)
      requires Valid()
      modifies this`fetchCursor, this`inFlight, this`pending, this`queue, this`readyState,
               this`updating, this`appended, this`appendCursor, this`playbackStarted
      ensures Valid()
      ensures old(aborted) || old(readyState) != Open ==>
                appended == old(appended) && queue == old(queue) && readyState == old(readyState)
                && updating == old(updating)
      ensures !old(aborted) && old(readyState) == Open && old(updating) ==>
                queue == old(queue) && appended == old(appended) && readyState == Open && updating
      ensures IndexOfStart(old(queue), old(appendCursor)) < 0 ==> appended == old(appended) && queue == old(queue)
      ensures var k := IndexOfStart(old(queue), old(appendCursor));
              !old(aborted) && old(readyState) == Open && !old(updating) && k < 0 ==>
                readyState == (if totalSize.Some? && old(appendCursor) >= totalSize.value
                                  && old(queue) == [] && inFlight == 0
                               then Ended(Normal) else Open)
      ensures var k := IndexOfStart(old(queue), old(appendCursor));
              !old(aborted) && old(readyState) == Open && !old(updating) && k >= 0 ==>
                && (appendAccepted ==>
                      appended == old(appended) + [old(queue)[k]] && queue == old(queue)[..k] + old(queue)[k + 1..])
                && (!appendAccepted ==> readyState == Ended(DecodeError))
      ensures forall x :: x in old(queue) ==> x in queue || x in appended || readyState == Ended(DecodeError)
      ensures old(fetchCursor) <= fetchCursor
      ensures old(pending) <= pending
      ensures forall r :: r in pending ==> r in old(pending) || old(fetchCursor) <= r.start
      ensures playbackStarted == (old(playbackStarted) || (appended != old(appended) && old(appendCursor) == 0))
    {
      Pump(now, buffered, appendAccepted);
    }

    /**
     * The `then`/`catch`/`finally` of one fetch, up to the pump: a chunk that
     * arrives joins the queue, a failure ends the media source with a
     * network error, and the fetch is no longer outstanding.
     */
    method Settled(r: ByteRange, ok: bool)
      requires Valid() && r in pending
      modifies this`queue, this`readyState, this`inFlight, this`pending
      ensures Valid()
      ensures r.start < fetchCursor
      ensures pending == old(pending) - {r} && inFlight == old(inFlight) - 1
      ensures queue == (if ok then old(queue) + [r] else old(queue))
      ensures readyState == (if !ok && old(readyState) == Open && !updating then Ended(NetworkError) else old(readyState))
    {
      CompletionKeepsWindow(totalSize, fetchCursor, appendCursor, inFlight, queue, pending, r);
      if ok {
        queue := queue + [r];
      } else {
        TryEndOfStream(NetworkError);
      }
      inFlight := inFlight - 1;
      pending := pending - {r};
    }

    /**
     * The sink's `updateend` event: a maintenance pass issues its removal
     * requests, then the pump runs. `removalAccepted` says whether the sink
     * accepts some request of the pass: the first removal it accepts makes
     * the buffer busy again, so every later request of the pass is refused
     * (and the error swallowed) and the pump appends nothing until that
     * removal's own `updateend`. A real sink always refuses the empty
     * forced-trim request `[0, 0]`; the model does not track which request
     * is accepted.
     */
    method UpdateEnd(now: real, buffered: seq<BufferWindow.TimeRange>, removalAccepted: bool, appendAccepted: bool)
      returns (removals: seq<BufferWindow.TimeRange>)
      requires Valid() && updating
      modifies this`fetchCursor, this`inFlight, this`pending, this`queue, this`readyState,
               this`updating, this`appended, this`appendCursor, this`playbackStarted
      ensures Valid()
      ensures removals == (if old(aborted) then [] else BufferWindow.RemovalRequests(buffered, now))
      ensures old(aborted) ==> appended == old(appended) && queue == old(queue)
      ensures removalAccepted && removals != [] ==>
                updating && appended == old(appended) && queue == old(queue) && readyState == old(readyState)
      ensures var k := IndexOfStart(old(queue), old(appendCursor));
              !old(aborted) && !(removalAccepted && removals != []) && k >= 0 && appendAccepted ==>
                appended == old(appended) + [old(queue)[k]] && queue == old(queue)[..k] + old(queue)[k + 1..]
      ensures IndexOfStart(old(queue), old(appendCursor)) < 0 ==> appended == old(appended) && queue == old(queue)
      // with the buffer left idle: the end of the stream, or the decode error of a refused append
      ensures var k := IndexOfStart(old(queue), old(appendCursor));
              !old(aborted) && old(readyState) == Open && !(removalAccepted && removals != []) && k < 0 ==>
                readyState == (if totalSize.Some? && old(appendCursor) >= totalSize.value
                                  && old(queue) == [] && inFlight == 0
                               then Ended(Normal) else Open)
      ensures var k := IndexOfStart(old(queue), old(appendCursor));
              !old(aborted) && old(readyState) == Open && !(removalAccepted && removals != []) && k >= 0 ==>
                (!appendAccepted ==> readyState == Ended(DecodeError))
      ensures forall x :: x in old(queue) ==> x in queue || x in appended || readyState == Ended(DecodeError)
      ensures old(fetchCursor) <= fetchCursor
      ensures old(pending) <= pending
      ensures playbackStarted == (old(playbackStarted) || (appended != old(appended) && old(appendCursor) == 0))
    {
      removals := TrimBuffer(now, buffered, removalAccepted);
      ghost var busy := updating;
      HandlerPump(now, buffered, appendAccepted);
      if busy {
        // a removal the sink accepted keeps the buffer busy: the pump appends nothing
        assert queue == old(queue);
      }
    }

    /**
     * The maintenance pass of an `updateend`: the append or removal that
     * just finished leaves the buffer idle, and a removal request the sink
     * accepts makes it busy again.
     */
    method TrimBuffer(now: real, buffered: seq<BufferWindow.TimeRange>, removalAccepted: bool)
      returns (removals: seq<BufferWindow.TimeRange>)
      requires Valid() && updating
      modifies this`updating
      ensures Valid()
      ensures removals == (if aborted then [] else BufferWindow.RemovalRequests(buffered, now))
      ensures updating == (removalAccepted && removals != [])
    {
      if aborted {
        // teardown has dropped the source buffer: the pass returns at once
        removals := [];
      } else {
        removals := BufferWindow.MaintainBufferedRanges(buffered, now);
      }
      updating := removalAccepted && removals != [];
    }

    /**
     * One pump: keep the prefetch going, then, if the sink is idle, either
     * signal the end of the stream (everything appended, nothing queued or
     * outstanding) or append the queued chunk that starts at the append
     * cursor, if it has arrived. `appendAccepted` says whether the sink
     * accepts the append or throws.
     */
    method Pump(now: real, buffered: seq<BufferWindow.TimeRange>, appendAccepted: bool)
      requires Valid()
      modifies this`fetchCursor, this`inFlight, this`pending, this`queue, this`readyState,
               this`updating, this`appended, this`appendCursor, this`playbackStarted
      ensures Valid()
      ensures old(aborted) || old(readyState) != Open ==>
                appended == old(appended) && queue == old(queue) && readyState == old(readyState)
                && updating == old(updating) && pending == old(pending) && fetchCursor == old(fetchCursor)
      // no queued chunk is lost, unless an append fails and ends the stream
      ensures forall x :: x in old(queue) ==> x in queue || x in appended || readyState == Ended(DecodeError)
      // the prefetch pass: exactly the ranges of `Plan` when its gates pass, nothing otherwise
      ensures old(PrefetchAllowed(now, buffered)) ==>
                var p := Plan(old(fetchCursor), totalSize.value, FreeSlots(old(inFlight), |old(queue)|));
                && pending == old(pending) + Elements(p)
                && inFlight == old(inFlight) + |p|
                && fetchCursor == EndOf(p, old(fetchCursor))
      ensures !old(PrefetchAllowed(now, buffered)) ==>
                pending == old(pending) && inFlight == old(inFlight) && fetchCursor == old(fetchCursor)
      ensures old(fetchCursor) <= fetchCursor
      ensures old(pending) <= pending
      ensures forall r :: r in pending ==> r in old(pending) || old(fetchCursor) <= r.start
      // the append: only the queued chunk at the append cursor, taken out of the queue
      ensures !old(aborted) && old(readyState) == Open && old(updating) ==>
                queue == old(queue) && appended == old(appended) && readyState == Open && updating
      ensures var k := IndexOfStart(old(queue), old(appendCursor));
              !old(aborted) && old(readyState) == Open && !old(updating) && k < 0 ==>
                && queue == old(queue) && appended == old(appended) && !updating
                && readyState == (if totalSize.Some? && old(appendCursor) >= totalSize.value
                                     && old(queue) == [] && inFlight == 0
                                  then Ended(Normal) else Open)
      ensures var k := IndexOfStart(old(queue), old(appendCursor));
              !old(aborted) && old(readyState) == Open && !old(updating) && k >= 0 ==>
                && queue == old(queue)[..k] + old(queue)[k + 1..]
                && (appendAccepted ==>
                      && appended == old(appended) + [old(queue)[k]] && appendCursor == old(queue)[k].end + 1
                      && updating && readyState == Open)
                && (!appendAccepted ==> appended == old(appended) && readyState == Ended(DecodeError))
      // the first append starts playback
      ensures playbackStarted == (old(playbackStarted) || (appended != old(appended) && old(appendCursor) == 0))
    {
      if aborted || readyState != Open {
        return;
      }
      Prefetch(now, buffered);
      AppendNext(appendAccepted);
    }

    /**
     * The second half of a pump, with the media source open: if the sink is
     * idle, end the stream when everything is appended and nothing is
     * queued or outstanding, or else append the queued chunk that starts at
     * the append cursor, if it has arrived.
     */
    method AppendNext(appendAccepted: bool)
      requires Valid() && readyState == Open
      modifies this`queue, this`readyState, this`updating, this`appended, this`appendCursor, this`playbackStarted
      ensures Valid()
      ensures old(updating) ==> queue == old(queue) && appended == old(appended) && readyState == Open && updating
      ensures forall x :: x in old(queue) ==> x in queue || x in appended || readyState == Ended(DecodeError)
      ensures var k := IndexOfStart(old(queue), old(appendCursor));
              !old(updating) && k < 0 ==>
                && queue == old(queue) && appended == old(appended) && !updating
                && readyState == (if totalSize.Some? && old(appendCursor) >= totalSize.value
                                     && old(queue) == [] && inFlight == 0
                                  then Ended(Normal) else Open)
      ensures var k := IndexOfStart(old(queue), old(appendCursor));
              !old(updating) && k >= 0 ==>
                && queue == old(queue)[..k] + old(queue)[k + 1..]
                && (appendAccepted ==>
                      && appended == old(appended) + [old(queue)[k]] && appendCursor == old(queue)[k].end + 1
                      && updating && readyState == Open)
                && (!appendAccepted ==> appended == old(appended) && readyState == Ended(DecodeError))
      // the first append starts playback
      ensures playbackStarted == (old(playbackStarted) || (appended != old(appended) && old(appendCursor) == 0))
    {
      if updating {
        return;
      }
      if totalSize.Some? && appendCursor >= totalSize.value && |queue| == 0 && inFlight == 0 {
        TryEndOfStream(Normal);
        return;
      }
      var nextIdx := IndexOfStart(queue, appendCursor);
      if nextIdx == -1 {
        return;
      }
      AppendQueued(nextIdx, appendAccepted);
    }

    /**
     * Takes the chunk at `idx`, the one that starts at the append cursor,
     * out of the queue and appends it; an append the sink refuses throws,
     * and the stream then ends with a decode error.
     */
    method AppendQueued(idx: nat, appendAccepted: bool)
      requires Valid() && readyState == Open && !updating
      requires idx < |queue| && queue[idx].start == appendCursor
      modifies this`queue, this`readyState, this`updating, this`appended, this`appendCursor, this`playbackStarted
      ensures Valid()
      ensures queue == old(queue)[..idx] + old(queue)[idx + 1..]
      ensures appendAccepted ==>
                && appended == old(appended) + [old(queue)[idx]] && appendCursor == old(queue)[idx].end + 1
                && updating && readyState == Open
      ensures !appendAccepted ==> appended == old(appended) && readyState == Ended(DecodeError)
      ensures forall x :: x in old(queue) ==> x in queue || x in appended || readyState == Ended(DecodeError)
      ensures playbackStarted == (old(playbackStarted) || (appended != old(appended) && old(appendCursor) == 0))
    {
      SpliceMembers(queue, idx);
      var item := SpliceOut(idx);
      if appendAccepted {
        StartAppend(item);
      } else {
        TryEndOfStream(DecodeError);
      }
    }

    /** Takes the queued chunk at `idx` out of the queue. */
    method SpliceOut(idx: nat) returns (item: ByteRange)
      requires Valid() && idx < |queue|
      modifies this`queue
      ensures Valid()
      ensures item == old(queue)[idx] && queue == old(queue)[..idx] + old(queue)[idx + 1..]
      ensures Outstanding(item, totalSize, fetchCursor, appendCursor) && item !in pending && item !in queue
    {
      SpliceKeepsWindow(totalSize, fetchCursor, appendCursor, inFlight, queue, pending, idx);
      item := queue[idx];
      queue := queue[..idx] + queue[idx + 1..];
    }

    /**
     * Appends `item`, the chunk at the append cursor, to the sink: the
     * buffer becomes busy, the cursor moves past the chunk, and the first
     * append starts playback.
     */
    method StartAppend(item: ByteRange)
      requires Valid() && readyState == Open && !updating
      requires Outstanding(item, totalSize, fetchCursor, appendCursor) && item.start == appendCursor
      requires item !in pending && item !in queue
      modifies this`updating, this`appended, this`appendCursor, this`playbackStarted
      ensures Valid()
      ensures updating && appended == old(appended) + [item] && appendCursor == item.end + 1
      ensures playbackStarted == (old(playbackStarted) || old(appendCursor) == 0)
    {
      AppendKeepsInvariant(totalSize.value, fetchCursor, appendCursor, inFlight, queue, pending, appended, item);
      var wasInitial := appendCursor == 0;
      updating := true;
      appended := appended + [item];
      appendCursor := item.end + 1;
      if wasInitial {
        playbackStarted := true;
      }
    }
  }
}
