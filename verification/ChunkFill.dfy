/**
 Filling an entry with the chunks of a body, and the 206 response served from it.

 An entry keeps the chunk size the cache was built with; the fill loop steps by the
 chunk size of the current policy, which may have been replaced since.
 */
module ChunkFill {
  import opened CacheTypes
  import opened Decimal
  import opened Range
  import opened Chunks

  // ---------------------------------------------------------------------
  // The fill loop
  // ---------------------------------------------------------------------

  /** The chunks of a body that the loop stores. */
  ghost function Filled(body: Bytes, step: nat): (chunks: ChunkMap)
    requires step > 0
    ensures chunks.Keys == FirstNumbers(ChunkCount(|body|, step))
  {
    CountedBegin(body, step);
    AllChunks(body, step, ChunkCount(|body|, step))
  }

  /** One turn of the loop adds the next chunk. */
  lemma ChunkAdded(body: Bytes, step: nat, i: nat, at: nat, end: nat)
    requires step > 0 && at < |body| && at == Min(Offset(i, step), |body|) && end == Min(at + step, |body|)
    requires Begin(body, step, i)
    ensures at < end && end == Min(Offset(i + 1, step), |body|) && Begin(body, step, i + 1)
    ensures AllChunks(body, step, i + 1) == AllChunks(body, step, i)[i := body[at..end]]
  {
    assert Offset(i + 1, step) == Offset(i, step) + step;
  }

  lemma StopsAt(body: Bytes, step: nat, index: nat)
    requires step > 0 && Offset(index, step) >= |body| && Begin(body, step, index)
    ensures index == ChunkCount(|body|, step)
  {
    CountedBegin(body, step);
  }

  /** The first `index` chunks, up to `offset`, are stored on top of what was there before. */
  ghost predicate Stored(before: ChunkMap, chunks: ChunkMap, body: Bytes, step: nat, index: nat, offset: nat)
    requires step > 0
  {
    && offset == Min(Offset(index, step), |body|) && Begin(body, step, index)
    && chunks == before + AllChunks(body, step, index)
  }

  lemma StoredNone(before: ChunkMap, body: Bytes, step: nat)
    requires step > 0
    ensures Stored(before, before, body, step, 0, 0)
  {
    assert FirstNumbers(0) == {};
    assert before + AllChunks(body, step, 0) == before;
  }

  lemma StoredMore(before: ChunkMap, chunks: ChunkMap, body: Bytes, step: nat, index: nat, offset: nat, end: nat)
    requires step > 0 && Stored(before, chunks, body, step, index, offset)
    requires offset < |body| && end == Min(offset + step, |body|)
    ensures offset < end && Stored(before, chunks[index := body[offset..end]], body, step, index + 1, end)
  {
    ChunkAdded(body, step, index, offset, end);
    var stored := AllChunks(body, step, index);
    assert (before + stored)[index := body[offset..end]] == before + stored[index := body[offset..end]];
  }

  lemma StoredAll(before: ChunkMap, chunks: ChunkMap, body: Bytes, step: nat, index: nat, offset: nat)
    requires step > 0 && Stored(before, chunks, body, step, index, offset) && offset >= |body|
    ensures chunks == before + Filled(body, step)
  {
    StopsAt(body, step, index);
  }

  /** The fill loop, for any entry and any step: it stores the chunks of the body and leaves
      every other chunk as it was. */
  method Fill(entry: ChunkedEntry, body: Bytes, step: nat)
    requires step > 0
    modifies entry
    ensures entry.chunks == old(entry.chunks) + Filled(body, step)
  {
    var offset := 0;
    var index := 0;
    ghost var before := entry.chunks;
    StoredNone(before, body, step);
    while offset < |body|
      invariant Stored(before, entry.chunks, body, step, index, offset)
      decreases |body| - offset
    {
      var end := Min(offset + step, |body|);
      StoredMore(before, entry.chunks, body, step, index, offset, end);
      entry.AddChunk(index, body[offset..end]);
      offset := end;
      index := index + 1;
    }
    StoredAll(before, entry.chunks, body, step, index, offset);
  }

  /** A body put in the cache: under a new key the entry has the size of the cache and exactly
      the chunks the loop stored. */
  method Populate(cache: ChunkCache, key: Key, body: Bytes, step: nat) returns (entry: ChunkedEntry)
    requires step > 0
    modifies cache, if key in cache.entries then {cache.entries[key]} else {}
    ensures key in cache.entries && cache.entries[key] == entry
    ensures key !in old(cache.entries) ==>
              entry.total == |body| && entry.size == cache.size && entry.chunks == Filled(body, step)
    ensures key in old(cache.entries) ==>
              entry == old(cache.entries)[key] && entry.chunks == old(cache.entries[key].chunks) + Filled(body, step)
  {
    entry := cache.GetOrCreate(key, |body|);
    ghost var before := entry.chunks;
    Fill(entry, body, step);
    assert before == map[] ==> before + Filled(body, step) == Filled(body, step);
  }

  // ---------------------------------------------------------------------
  // The step and the size
  // ---------------------------------------------------------------------

  /** With the step of its own size, filling keeps an entry describing the body and makes it complete. */
  lemma SameSizeFills(before: ChunkMap, body: Bytes, size: nat)
    requires size > 0 && CutFrom(before, size, body)
    ensures CutFrom(before + Filled(body, size), size, body)
    ensures (before + Filled(body, size)).Keys == FirstNumbers(ChunkCount(|body|, size))
  {
    OnlyCounted(before, size, body);
    CountedBegin(body, size);
    AllChunksCut(body, size, ChunkCount(|body|, size));
  }

  lemma OneChunk(body: Bytes, step: nat)
    requires 0 < |body| <= step
    ensures Filled(body, step) == map[0 := body]
  {
    CountedBegin(body, step);
    assert Offset(1, step) == step;
    assert ChunkCount(|body|, step) == 1;
    assert body[0..|body|] == body;
    assert FirstNumbers(1) == {0};
  }

  lemma FilledIsCut(body: Bytes, step: nat)
    requires step > 0
    ensures CutFrom(Filled(body, step), step, body)
  {
    CountedBegin(body, step);
    AllChunksCut(body, step, ChunkCount(|body|, step));
  }

  lemma FirstChunk(body: Bytes, step: nat)
    requires step > 0 && body != []
    ensures 0 in Filled(body, step) && Filled(body, step)[0] == body[..Min(step, |body|)]
    ensures 1 in Filled(body, step) <==> step < |body|
  {
    CountedBegin(body, step);
    assert Offset(1, step) == step;
  }

  /** The stored chunks are those the entry stands for if and only if the step is its size, or
      the body is a single chunk for both. */
  lemma FilledIsCutIff(body: Bytes, step: nat, size: nat)
    requires step > 0 && size > 0
    ensures CutFrom(Filled(body, step), size, body) <==> step == size || |body| <= Min(step, size)
  {
    FilledIsCut(body, step);
    if body == [] {
      assert Filled(body, step) == map[];
    } else if |body| <= Min(step, size) {
      OneChunk(body, step);
      assert Cut(body, 0, size) == body;
    } else if step != size {
      FirstChunk(body, step);
      assert |Cut(body, 0, size)| == Min(size, |body|);
    }
  }

  // ---------------------------------------------------------------------
  // What is served from a filled entry
  // ---------------------------------------------------------------------

  ghost predicate Slice(body: Bytes, start: nat, end: nat, got: Got)
    requires start <= end < |body|
  {
    got == Data(body[start..end + 1])
  }

  /** Every range of the body is served, with its own bytes. */
  ghost predicate ServesAll(chunks: ChunkMap, size: nat, body: Bytes)
    requires size > 0
  {
    forall start: nat, end: nat :: start <= end < |body| ==> Slice(body, start, end, Served(chunks, size, start, end))
  }

  /** No range of the body is served with other bytes, and none panics. */
  ghost predicate NeverWrong(chunks: ChunkMap, size: nat, body: Bytes)
    requires size > 0
  {
    forall start: nat, end: nat :: start <= end < |body| ==>
      Served(chunks, size, start, end).Absent? || Slice(body, start, end, Served(chunks, size, start, end))
  }

  /** Whatever is served for a range is as long as the range. */
  ghost predicate LengthsRight(chunks: ChunkMap, size: nat, body: Bytes)
    requires size > 0
  {
    forall start: nat, end: nat :: start <= end < |body| && Served(chunks, size, start, end).Data? ==>
      |Served(chunks, size, start, end).bytes| == end - start + 1
  }

  /** A range within the size is cut out of chunk 0 alone. */
  lemma FromFirstChunk(chunks: ChunkMap, size: nat, start: nat, end: nat)
    requires start <= end < size && 0 in chunks
    ensures var to := if end < |chunks[0]| then end + 1 else |chunks[0]|;
            Served(chunks, size, start, end) == if start <= to then Data(chunks[0][start..to]) else Panicked
  {
    var first, last := start / size, end / size;
    InRange(size, start, end, first, last);
    OffsetsGrow(1, last, size);
    assert Offset(1, size) == size;
    assert Gather(chunks, size, start, end, 1, 0) == Data([]);
    var to := if end < |chunks[0]| then end + 1 else |chunks[0]|;
    if start <= to { assert chunks[0][start..to] + [] == chunks[0][start..to]; }
  }

  /** A step shorter than the size: the byte behind the first chunk is served as nothing, and
      the one after it makes the slice panic. */
  lemma ShortStep(body: Bytes, step: nat, size: nat)
    requires 0 < step < size && step < |body|
    ensures Served(Filled(body, step), size, step, step) == Data([])
    ensures step + 1 < size ==> Served(Filled(body, step), size, step + 1, step + 1) == Panicked
  {
    FirstChunk(body, step);
    FromFirstChunk(Filled(body, step), size, step, step);
    if step + 1 < size { FromFirstChunk(Filled(body, step), size, step + 1, step + 1); }
  }

  /** A step longer than the size: the first bytes up to that of the second chunk are not
      served, or with one byte too many. */
  lemma LongStep(body: Bytes, step: nat, size: nat)
    requires 0 < size < step && size < |body|
    ensures var got := Served(Filled(body, step), size, 0, size);
            if step < |body| then got.Data? && |got.bytes| == size + 2 else got == Absent
  {
    FirstChunk(body, step);
    var m := Filled(body, step);
    assert 0 / size == 0 && size / size == 1;
    assert Offset(1, size) == size;
    if step < |body| {
      assert |m[1]| > 0;
      assert Gather(m, size, 0, size, 2, 1) == Data([]);
      assert Gather(m, size, 0, size, 1, 1) == Behind(m[1][0..1], Data([]));
    }
  }

  /** A body in one chunk: each range is served with its bytes or not at all. */
  lemma OneChunkServes(body: Bytes, size: nat, start: nat, end: nat)
    requires size > 0 && start <= end < |body|
    ensures var got := Served(map[0 := body], size, start, end);
            got == Absent || Slice(body, start, end, got)
  {
    var m: ChunkMap := map[0 := body];
    var first, last := start / size, end / size;
    InRange(size, start, end, first, last);
    if first == 0 {
      assert Gather(m, size, start, end, 1, last) == if last == 0 then Data([]) else Absent;
      assert body[start..end + 1] + [] == body[start..end + 1];
    }
  }

  lemma CutServesAll(body: Bytes, step: nat, size: nat)
    requires step > 0 && size > 0 && (step == size || |body| <= Min(step, size))
    ensures ServesAll(Filled(body, step), size, body)
  {
    FilledIsCutIff(body, step, size);
    forall start: nat, end: nat | start <= end < |body|
      ensures Slice(body, start, end, Served(Filled(body, step), size, start, end))
    {
      if step != size {
        OneChunk(body, step);
        OneChunk(body, size);
      }
      AllTouchedWhen(Filled(body, step), size, body, start, end);
      ServedIsSlice(Filled(body, step), size, body, start, end);
    }
  }

  /** After a fill every range is served as the slice of the body if and only if the step is
      the size of the entry, or the body is a single chunk for both. */
  lemma ServesAllIff(body: Bytes, step: nat, size: nat)
    requires step > 0 && size > 0
    ensures ServesAll(Filled(body, step), size, body) <==> step == size || |body| <= Min(step, size)
  {
    var m := Filled(body, step);
    if step == size || |body| <= Min(step, size) {
      CutServesAll(body, step, size);
    } else if step < size {
      ShortStep(body, step, size);
      assert !Slice(body, step, step, Served(m, size, step, step));
    } else {
      LongStep(body, step, size);
      assert !Slice(body, 0, size, Served(m, size, 0, size));
    }
  }

  /** And no range is served wrongly if and only if the step is the size of the entry, or the
      body is a single chunk for the step; the same decides whether every answer has its
      announced length. */
  lemma NeverWrongIff(body: Bytes, step: nat, size: nat)
    requires step > 0 && size > 0
    ensures NeverWrong(Filled(body, step), size, body) <==> step == size || |body| <= step
    ensures LengthsRight(Filled(body, step), size, body) <==> step == size || |body| <= step
  {
    var m := Filled(body, step);
    if step == size {
      CutServesAll(body, step, size);
      assert forall start: nat, end: nat :: start <= end < |body| ==> Slice(body, start, end, Served(m, size, start, end));
    } else if |body| <= step {
      forall start: nat, end: nat | start <= end < |body|
        ensures Served(m, size, start, end).Absent? || Slice(body, start, end, Served(m, size, start, end))
      {
        OneChunk(body, step);
        OneChunkServes(body, size, start, end);
      }
    } else if step < size {
      ShortStep(body, step, size);
      assert |Served(m, size, step, step).bytes| == 0;
    } else {
      LongStep(body, step, size);
      assert |Served(m, size, 0, size).bytes| == size + 2;
    }
  }

  // ---------------------------------------------------------------------
  // The 206 response
  // ---------------------------------------------------------------------

  datatype Reply = PassedOn | Crashed | Partial(data: Bytes, contentRange: string, contentLength: string)

  /** The header texts read as the range and the total, and as the length of the range. */
  predicate Announces(r: Reply, start: nat, end: nat, total: nat)
    requires r.Partial? && start <= end
  {
    ParseU64(r.contentLength) == Some(end - start + 1) && ParseContentRange(Some(r.contentRange)) == Some((start, end, total))
  }

  /** The 206 path, for any entry: what is served for a satisfiable range is sent, with header
      texts that read as the range, the total, and the length of the range. */
  method ServePartial(entry: ChunkedEntry, request: RangeRequest) returns (r: Reply)
    requires entry.size > 0 && entry.total <= U64_MAX
    ensures var end := if request.end.Some? then request.end.value else entry.total - 1;
            if request.Normalize(entry.total).None? then r == PassedOn
            else
              match Served(entry.chunks, entry.size, request.start, end)
              case Absent => r == PassedOn
              case Panicked => r == Crashed
              case Data(bytes) => r.Partial? && r.data == bytes && Announces(r, request.start, end, entry.total)
  {
    var normalized := request.Normalize(entry.total);
    if normalized.None? { return PassedOn; }
    var start, end := normalized.value.start, normalized.value.end.value;
    var data := entry.GetRange(start, end);
    match data
    case Absent => return PassedOn;
    case Panicked => return Crashed;
    case Data(bytes) =>
      ContentRangeReadsBack(start, end, entry.total);
      ParseDec(end - start + 1);
      return Partial(bytes, BuildContentRange(start, end, entry.total), Dec(end - start + 1));
  }

  /** From an entry that describes a body: served if and only if the range is satisfiable and
      its chunks are there, with the slice of the body, and both texts read as what was served. */
  method ServeBody(entry: ChunkedEntry, request: RangeRequest, ghost body: Bytes) returns (r: Reply)
    requires entry.Describes(body) && |body| <= U64_MAX
    ensures var end := if request.end.Some? then request.end.value else |body| - 1;
            if request.Normalize(|body|).None? || !AllTouched(entry.chunks, entry.size, request.start, end)
            then r == PassedOn
            else r.Partial? && r.data == body[request.start..end + 1]
                 && |r.data| == end - request.start + 1 && Announces(r, request.start, end, |body|)
  {
    r := ServePartial(entry, request);
    if request.Normalize(|body|).Some? {
      var end := if request.end.Some? then request.end.value else |body| - 1;
      ServedIsSlice(entry.chunks, entry.size, body, request.start, end);
    }
  }

  /** The layer is built with a chunk size of 4, and its policy then replaced by one with a
      chunk size of 2.  For a body of eight bytes `bytes=2-3` is answered with no data and a
      Content-Length of 2, and `bytes=3-3` panics. */
  method ReplacedPolicy(key: Key, body: Bytes) returns (empty: Reply, crash: Reply)
    requires |body| == 8
    ensures empty.Partial? && empty.data == [] && ParseU64(empty.contentLength) == Some(2)
    ensures crash == Crashed
  {
    var cache := new ChunkCache(4);
    var entry := Populate(cache, key, body, 2);
    ShortStep(body, 2, 4);
    EmptyRange(body);
    empty := ServePartial(entry, RangeRequest(2, Some(3)));
    crash := ServePartial(entry, RangeRequest(3, Some(3)));
  }

  lemma EmptyRange(body: Bytes)
    requires |body| == 8
    ensures Served(Filled(body, 2), 4, 2, 3) == Data([])
  {
    FirstChunk(body, 2);
    FromFirstChunk(Filled(body, 2), 4, 2, 3);
  }
}
