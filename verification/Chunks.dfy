/**
 Bodies stored as fixed-size chunks: filling an entry, cutting ranges out of it,
 and the 206 response served from it.
 */
module Chunks {
  import opened CacheTypes
  import opened Decimal
  import opened Range

  type Bytes = seq<Byte>

  // ---------------------------------------------------------------------
  // The simple form: slicing the body
  // ---------------------------------------------------------------------

  function Min(a: int, b: int): int { if a < b then a else b }

  /** The part of the body between two offsets, cut off at its end. */
  function Cut(body: Bytes, from: nat, to: nat): Bytes
    requires from <= to && from <= |body|
  {
    body[from..Min(to, |body|)]
  }

  /** How many chunks a body of `total` bytes has: `total` divided by the size, rounded up. */
  function ChunkCount(total: nat, size: nat): nat
    requires size > 0
  {
    total / size + (if total % size == 0 then 0 else 1)
  }

  /** Where chunk `i` begins; by steps, so that reasoning about it stays linear. */
  function Offset(i: nat, size: nat): nat { if i == 0 then 0 else Offset(i - 1, size) + size }

  lemma {:induction false} OffsetIs(i: nat, size: nat)
    ensures Offset(i, size) == i * size
  {
    if i > 0 {
      OffsetIs(i - 1, size);
      assert (i - 1) * size + size == i * size;
    }
  }

  lemma {:induction false} OffsetsGrow(i: nat, j: nat, size: nat)
    ensures i <= j ==> Offset(i, size) <= Offset(j, size)
    ensures i < j ==> Offset(i, size) + size <= Offset(j, size)
  {
    if i < j { OffsetsGrow(i, j - 1, size); }
  }

  /** Byte `n` lies in chunk `n / size`, and is its first byte when the division is exact. */
  lemma InChunk(n: nat, size: nat)
    requires size > 0
    ensures Offset(n / size, size) <= n < Offset(n / size, size) + size
    ensures n % size == 0 <==> Offset(n / size, size) == n
  {
    OffsetIs(n / size, size);
    assert n == size * (n / size) + n % size;
  }

  /** Chunk `i` exists exactly when it begins within the body. */
  lemma CountedChunks(i: nat, total: nat, size: nat)
    requires size > 0
    ensures i < ChunkCount(total, size) <==> Offset(i, size) < total
  {
    var q := total / size;
    InChunk(total, size);
    OffsetsGrow(i, q, size);
    OffsetsGrow(q, i, size);
  }

  // ---------------------------------------------------------------------
  // The chunked form
  // ---------------------------------------------------------------------

  type ChunkMap = map<nat, Bytes>

  /** Every chunk present is the part of `body` it stands for. */
  ghost predicate CutFrom(chunks: ChunkMap, size: nat, body: Bytes)
    requires size > 0
  {
    forall i :: i in chunks ==> Offset(i, size) < |body| && chunks[i] == Cut(body, Offset(i, size), Offset(i, size) + size)
  }

  ghost predicate Has(chunks: ChunkMap, from: nat, to: nat) { forall i :: from <= i < to ==> i in chunks }

  ghost function FirstNumbers(n: nat): (numbers: set<nat>)
    ensures forall i: nat :: i in numbers <==> i < n
  {
    if n == 0 then {} else FirstNumbers(n - 1) + {n - 1}
  }

  lemma {:induction false} FirstNumbersSize(n: nat)
    ensures |FirstNumbers(n)| == n
  {
    if n > 0 { FirstNumbersSize(n - 1); }
  }

  lemma SubsetSize<X>(a: set<X>, b: set<X>)
    requires a <= b
    ensures |a| <= |b| && (|a| == |b| <==> a == b)
  {
    assert b == a + (b - a);
  }

  /** Pigeonholes: a full count means a full set exactly when no chunk number is out of range,
      and a full set has a full count exactly when no chunk number is out of range. */
  lemma CountDecides(numbers: set<nat>, n: nat)
    ensures numbers <= FirstNumbers(n) ==> (|numbers| == n <==> FirstNumbers(n) <= numbers)
    ensures |numbers| == n ==> (FirstNumbers(n) <= numbers <==> numbers <= FirstNumbers(n))
    ensures FirstNumbers(n) <= numbers ==> (|numbers| == n <==> numbers <= FirstNumbers(n))
  {
    FirstNumbersSize(n);
    if numbers <= FirstNumbers(n) { SubsetSize(numbers, FirstNumbers(n)); }
    if FirstNumbers(n) <= numbers { SubsetSize(FirstNumbers(n), numbers); }
  }

  ghost function Sum<X(!new)>(f: map<X, nat>, xs: set<X>): nat
    requires xs <= f.Keys
  {
    if xs == {} then 0
    else
      var x :| x in xs;
      f[x] + Sum(f, xs - {x})
  }

  lemma {:induction false} SumAny<X(!new)>(f: map<X, nat>, xs: set<X>, x: X)
    requires xs <= f.Keys && x in xs
    ensures Sum(f, xs) == f[x] + Sum(f, xs - {x})
    decreases |xs|
  {
    var y :| y in xs && Sum(f, xs) == f[y] + Sum(f, xs - {y});
    if x != y {
      SumAny(f, xs - {y}, x);
      SumAny(f, xs - {x}, y);
      assert xs - {y} - {x} == xs - {x} - {y};
    }
  }

  /** Taking members with positive values away makes a sum smaller. */
  lemma {:induction false} SumSubset<X(!new)>(f: map<X, nat>, g: map<X, nat>, xs: set<X>, ys: set<X>)
    requires xs <= ys <= g.Keys && xs <= f.Keys
    requires (forall x :: x in xs ==> f[x] == g[x]) && (forall y :: y in ys ==> g[y] > 0)
    ensures Sum(f, xs) <= Sum(g, ys) && (Sum(f, xs) == Sum(g, ys) <==> xs == ys)
    decreases |ys|
  {
    if ys != {} {
      var y :| y in ys;
      SumAny(g, ys, y);
      SumSubset(f, g, xs - {y}, ys - {y});
      if y in xs {
        SumAny(f, xs, y);
        assert xs == xs - {y} + {y} && ys == ys - {y} + {y};
      } else {
        assert xs - {y} == xs;
      }
    }
  }

  /** A sum of smaller values is smaller, and equal only when all values are. */
  lemma {:induction false} SumBelow<X(!new)>(f: map<X, nat>, g: map<X, nat>, xs: set<X>)
    requires xs <= f.Keys && xs <= g.Keys && forall x :: x in xs ==> f[x] <= g[x]
    ensures Sum(f, xs) <= Sum(g, xs) && (Sum(f, xs) == Sum(g, xs) <==> forall x :: x in xs ==> f[x] == g[x])
    decreases |xs|
  {
    if xs != {} {
      var x :| x in xs;
      SumAny(f, xs, x);
      SumAny(g, xs, x);
      SumBelow(f, g, xs - {x});
    }
  }

  function Sizes(chunks: ChunkMap): map<nat, nat> { map i | i in chunks :: |chunks[i]| }

  lemma TakeLast(sizes: map<nat, nat>, n: nat)
    requires n > 0 && FirstNumbers(n) <= sizes.Keys
    ensures FirstNumbers(n - 1) <= sizes.Keys && n - 1 in sizes
    ensures Sum(sizes, FirstNumbers(n)) == sizes[n - 1] + Sum(sizes, FirstNumbers(n - 1))
  {
    var last: nat := n - 1;
    assert last in FirstNumbers(n) && last in sizes;
    assert FirstNumbers(n) - {last} == FirstNumbers(last);
    SumAny(sizes, FirstNumbers(n), last);
  }

  /** The first `n` chunks together are as long as the part of the body they cover. */
  lemma {:induction false} SizesAddUp(chunks: ChunkMap, size: nat, body: Bytes, n: nat)
    requires size > 0 && CutFrom(chunks, size, body) && FirstNumbers(n) <= chunks.Keys
    ensures Sum(Sizes(chunks), FirstNumbers(n)) == Min(Offset(n, size), |body|)
  {
    if n > 0 {
      TakeLast(Sizes(chunks), n);
      SizesAddUp(chunks, size, body, n - 1);
      ChunkSize(chunks, size, body, n - 1);
      assert Sizes(chunks)[n - 1] == |chunks[n - 1]|;
    } else {
      assert FirstNumbers(0) == {};
    }
  }

  lemma ChunkSize(chunks: ChunkMap, size: nat, body: Bytes, i: nat)
    requires size > 0 && CutFrom(chunks, size, body) && i in chunks
    ensures Min(Offset(i, size), |body|) + |chunks[i]| == Min(Offset(i + 1, size), |body|)
  {
  }

  /** The bytes of the range from offset `at` on. */
  function Remaining(body: Bytes, at: nat, start: nat, end: nat): Bytes
    requires start <= end < |body|
  {
    if at > end then [] else body[(if start > at then start else at)..end + 1]
  }

  lemma Joined(body: Bytes, i: nat, j: nat, k: nat)
    requires i <= j <= k <= |body|
    ensures body[i..j] + body[j..k] == body[i..k]
  {
  }

  lemma Within(body: Bytes, at: nat, to: nat, i: nat, j: nat)
    requires at <= to <= |body| && i <= j <= to - at
    ensures body[at..to][i..j] == body[at + i..at + j]
  {
    forall k | 0 <= k < j - i
      ensures body[at..to][i..j][k] == body[at + i..at + j][k]
    {
    }
  }

  /** Where, within a chunk that begins at `at`, the bytes of the range begin and stop. */
  function PieceStart(at: nat, start: nat): nat { if start > at then start - at else 0 }

  function PieceEnd(at: nat, length: nat, end: nat): int {
    if end < at + length then end - at + 1 else length
  }

  /** One step of cutting a range: what is taken from the chunk at `at` is followed by what is
      still to be taken behind it. */
  lemma NextPiece(body: Bytes, at: nat, size: nat, start: nat, end: nat, chunk: Bytes)
    requires start <= end < |body| && at <= end && start < at + size
    requires chunk == Cut(body, at, at + size)
    ensures PieceStart(at, start) <= PieceEnd(at, |chunk|, end) <= |chunk|
    ensures chunk[PieceStart(at, start)..PieceEnd(at, |chunk|, end)] + Remaining(body, at + size, start, end)
            == Remaining(body, at, start, end)
  {
    var from, to := PieceStart(at, start), PieceEnd(at, |chunk|, end);
    Within(body, at, at + |chunk|, from, to);
    assert at + from == if start > at then start else at;
    if at + size <= end {
      assert to == size;
      Joined(body, at + from, at + size, end + 1);
    } else {
      assert at + to == end + 1;
    }
  }

  /** Chunk `i` and the range have an offset in common. */
  ghost predicate Touches(i: nat, size: nat, start: nat, end: nat) {
    Offset(i, size) <= end && start < Offset(i, size) + size
  }

  ghost predicate AllTouched(chunks: ChunkMap, size: nat, start: nat, end: nat) {
    forall i: nat :: Touches(i, size, start, end) ==> i in chunks
  }

  /** The chunks a range touches are those from the one with its first byte to the one with its last. */
  lemma TouchedIsBetween(i: nat, size: nat, start: nat, end: nat)
    requires size > 0
    ensures Touches(i, size, start, end) <==> start / size <= i <= end / size
  {
    InChunk(start, size);
    InChunk(end, size);
    OffsetsGrow(start / size, i, size);
    OffsetsGrow(i, start / size, size);
    OffsetsGrow(end / size, i, size);
    OffsetsGrow(i, end / size, size);
  }

  // ---------------------------------------------------------------------
  // What `get_range` computes, for any chunks whatever
  // ---------------------------------------------------------------------

  /** The bytes gathered, a chunk found missing, or a slice out of bounds. */
  datatype Got = Data(bytes: Bytes) | Absent | Panicked

  function Behind(front: Bytes, got: Got): Got { if got.Data? then Data(front + got.bytes) else got }

  function Gather(chunks: ChunkMap, size: nat, start: nat, end: nat, i: nat, last: nat): Got
    decreases last + 1 - i
  {
    if i > last then Data([])
    else if i !in chunks then Absent
    else
      var from, to := PieceStart(Offset(i, size), start), PieceEnd(Offset(i, size), |chunks[i]|, end);
      if from <= to <= |chunks[i]|
      then Behind(chunks[i][from..to], Gather(chunks, size, start, end, i + 1, last))
      else Panicked
  }

  function Served(chunks: ChunkMap, size: nat, start: nat, end: nat): Got
    requires size > 0
  {
    Gather(chunks, size, start, end, start / size, end / size)
  }

  lemma Regrouped(a: Bytes, b: Bytes, got: Got)
    ensures Behind(a, Behind(b, got)) == Behind(a + b, got)
  {
    if got.Data? { assert a + (b + got.bytes) == a + b + got.bytes; }
  }

  lemma {:induction false} GatherIsSlice(chunks: ChunkMap, size: nat, body: Bytes, start: nat, end: nat, i: nat, last: nat)
    requires size > 0 && CutFrom(chunks, size, body) && start <= end < |body| && i <= last + 1
    requires Offset(last, size) <= end < Offset(last + 1, size) && start < Offset(i, size) + size
    ensures Gather(chunks, size, start, end, i, last)
            == if Has(chunks, i, last + 1) then Data(Remaining(body, Offset(i, size), start, end)) else Absent
    decreases last + 1 - i
  {
    if i <= last && i in chunks {
      OffsetsGrow(i, last, size);
      assert Offset(i + 1, size) == Offset(i, size) + size;
      NextPiece(body, Offset(i, size), size, start, end, chunks[i]);
      GatherIsSlice(chunks, size, body, start, end, i + 1, last);
      assert Has(chunks, i, last + 1) <==> Has(chunks, i + 1, last + 1);
    }
  }

  lemma TouchedAre(chunks: ChunkMap, size: nat, start: nat, end: nat, first: nat, last: nat)
    requires size > 0 && first == start / size && last == end / size
    ensures AllTouched(chunks, size, start, end) <==> Has(chunks, first, last + 1)
  {
    forall i: nat
      ensures Touches(i, size, start, end) <==> first <= i <= last
    {
      TouchedIsBetween(i, size, start, end);
    }
  }

  lemma InRange(size: nat, start: nat, end: nat, first: nat, last: nat)
    requires size > 0 && start <= end && first == start / size && last == end / size
    ensures first <= last && Offset(first, size) <= start < Offset(first, size) + size
    ensures Offset(last, size) <= end < Offset(last + 1, size)
  {
    InChunk(start, size);
    InChunk(end, size);
    OffsetsGrow(last + 1, first, size);
    assert Offset(last + 1, size) == Offset(last, size) + size;
  }

  /** The chunked form refines slicing: for chunks cut from a body, nothing if and only if some
      chunk the range touches is missing, and otherwise exactly the bytes of the body. */
  lemma ServedIsSlice(chunks: ChunkMap, size: nat, body: Bytes, start: nat, end: nat)
    requires size > 0 && CutFrom(chunks, size, body) && start <= end < |body|
    ensures Served(chunks, size, start, end)
            == if AllTouched(chunks, size, start, end) then Data(body[start..end + 1]) else Absent
  {
    var first, last := start / size, end / size;
    InRange(size, start, end, first, last);
    TouchedAre(chunks, size, start, end, first, last);
    GatherIsSlice(chunks, size, body, start, end, first, last);
  }

  class ChunkedEntry {
    const total: nat
    const size: nat
    var chunks: ChunkMap

    constructor (total: nat, size: nat)
      ensures this.total == total && this.size == size && chunks == map[]
    {
      this.total := total;
      this.size := size;
      this.chunks := map[];
    }

    /** The entry describes `body`: its length, and chunks cut from it. */
    ghost predicate Describes(body: Bytes)
      reads this
    {
      size > 0 && total == |body| && CutFrom(chunks, size, body)
    }

    method AddChunk(index: nat, data: Bytes)
      modifies this
      ensures chunks == old(chunks)[index := data]
    {
      chunks := chunks[index := data];
    }

    method GetChunk(index: nat) returns (r: Option<Bytes>)
      ensures r == if index in chunks then Some(chunks[index]) else None
    {
      return if index in chunks then Some(chunks[index]) else None;
    }

    method ChunkStart(i: nat) returns (at: nat)
      ensures at == Offset(i, size)
    {
      OffsetIs(i, size);
      return i * size;
    }

    method GetRange(start: nat, end: nat) returns (r: Got)
      requires size > 0
      ensures r == Served(chunks, size, start, end)
    {
      var startChunk, endChunk := start / size, end / size;
      var result := [];
      var i := startChunk;
      while i <= endChunk
        invariant Behind(result, Gather(chunks, size, start, end, i, endChunk)) == Served(chunks, size, start, end)
        decreases endChunk + 1 - i
      {
        var found := GetChunk(i);
        if found.None? { return Absent; }
        var chunk := found.value;
        var chunkStart := ChunkStart(i);
        var dataStart, dataEnd := PieceStart(chunkStart, start), PieceEnd(chunkStart, |chunk|, end);
        if !(dataStart <= dataEnd <= |chunk|) { return Panicked; }
        Regrouped(result, chunk[dataStart..dataEnd], Gather(chunks, size, start, end, i + 1, endChunk));
        result := result + chunk[dataStart..dataEnd];
        i := i + 1;
      }
      assert result + [] == result;
      return Data(result);
    }

    function IsComplete(): bool
      reads this
      requires size > 0
    {
      |chunks| == ChunkCount(total, size)
    }

    ghost function HeldBytes(): nat
      reads this
    {
      Sum(Sizes(chunks), chunks.Keys)
    }

    /** The inner loop of `stats`. */
    method CountBytes() returns (bytes: nat)
      ensures bytes == HeldBytes()
    {
      bytes := 0;
      var todo := chunks.Keys;
      while todo != {}
        invariant todo <= chunks.Keys && bytes + Sum(Sizes(chunks), todo) == HeldBytes()
      {
        var i :| i in todo;
        SumAny(Sizes(chunks), todo, i);
        bytes := bytes + |chunks[i]|;
        todo := todo - {i};
      }
    }
  }

  // ---------------------------------------------------------------------
  // Completeness
  // ---------------------------------------------------------------------

  lemma OnlyCounted(chunks: ChunkMap, size: nat, body: Bytes)
    requires size > 0 && CutFrom(chunks, size, body)
    ensures chunks.Keys <= FirstNumbers(ChunkCount(|body|, size))
  {
    forall i | i in chunks
      ensures i in FirstNumbers(ChunkCount(|body|, size))
    {
      CountedChunks(i, |body|, size);
    }
  }

  /** The first `n` chunks begin within the body. */
  ghost predicate Begin(body: Bytes, size: nat, n: nat) { forall i: nat :: i < n ==> Offset(i, size) < |body| }

  lemma CountedBegin(body: Bytes, size: nat)
    requires size > 0
    ensures Begin(body, size, ChunkCount(|body|, size))
    ensures Offset(ChunkCount(|body|, size), size) >= |body|
  {
    CountedChunks(ChunkCount(|body|, size), |body|, size);
    forall i: nat | i < ChunkCount(|body|, size)
      ensures Offset(i, size) < |body|
    {
      CountedChunks(i, |body|, size);
    }
  }

  /** The first `n` chunks of a body. */
  ghost function AllChunks(body: Bytes, size: nat, n: nat): (chunks: ChunkMap)
    requires size > 0 && Begin(body, size, n)
    ensures chunks.Keys == FirstNumbers(n)
  {
    map i: nat | i in FirstNumbers(n) :: Cut(body, Offset(i, size), Offset(i, size) + size)
  }

  lemma AllChunksCut(body: Bytes, size: nat, n: nat)
    requires size > 0 && Begin(body, size, n)
    ensures CutFrom(AllChunks(body, size, n), size, body)
  {
  }

  lemma AllSizes(body: Bytes, size: nat, n: nat)
    requires size > 0 && Begin(body, size, n) && Offset(n, size) >= |body|
    ensures Sum(Sizes(AllChunks(body, size, n)), FirstNumbers(n)) == |body|
    ensures forall i: nat :: i < n ==> Sizes(AllChunks(body, size, n))[i] > 0
  {
    AllChunksCut(body, size, n);
    SizesAddUp(AllChunks(body, size, n), size, body, n);
  }

  /** The chunks present never hold more than the body, and hold as much only when all are there. */
  lemma HeldBytes(chunks: ChunkMap, size: nat, body: Bytes)
    requires size > 0 && CutFrom(chunks, size, body)
    ensures var n := ChunkCount(|body|, size);
            && Sum(Sizes(chunks), chunks.Keys) <= |body|
            && (Sum(Sizes(chunks), chunks.Keys) == |body| <==> chunks.Keys == FirstNumbers(n))
  {
    var n := ChunkCount(|body|, size);
    OnlyCounted(chunks, size, body);
    CountedBegin(body, size);
    var all := AllChunks(body, size, n);
    AllSizes(body, size, n);
    SumSubset(Sizes(chunks), Sizes(all), chunks.Keys, FirstNumbers(n));
  }

  /** For an entry that describes a body, `is_complete` holds if and only if every chunk is
      there, and if and only if the bytes held are as many as the body has. */
  lemma CompleteMeansAll(entry: ChunkedEntry, body: Bytes)
    requires entry.Describes(body)
    ensures entry.IsComplete() <==> Has(entry.chunks, 0, ChunkCount(|body|, entry.size))
    ensures entry.IsComplete() <==> entry.chunks.Keys == FirstNumbers(ChunkCount(|body|, entry.size))
    ensures entry.HeldBytes() <= |body| && (entry.IsComplete() <==> entry.HeldBytes() == |body|)
  {
    OnlyCounted(entry.chunks, entry.size, body);
    CountDecides(entry.chunks.Keys, ChunkCount(|body|, entry.size));
    HeldBytes(entry.chunks, entry.size, body);
  }

  /** For any entry, however its chunks got there, what `is_complete` promises fails exactly
      when some chunk number lies beyond the last chunk of the body. */
  lemma CompleteOnlyInRange(entry: ChunkedEntry)
    requires entry.size > 0 && entry.IsComplete()
    ensures var n := ChunkCount(entry.total, entry.size);
            Has(entry.chunks, 0, n) <==> forall i :: i in entry.chunks ==> i < n
  {
    CountDecides(entry.chunks.Keys, ChunkCount(entry.total, entry.size));
    if Has(entry.chunks, 0, ChunkCount(entry.total, entry.size)) {
      assert FirstNumbers(ChunkCount(entry.total, entry.size)) <= entry.chunks.Keys;
    }
  }

  /** The case that fails: of two chunks one is missing, and one beyond the end makes up for it
      in the count. */
  method CountedAsComplete() returns (entry: ChunkedEntry)
    ensures entry.total == 2 && entry.size == 1 && entry.IsComplete() && 1 !in entry.chunks
  {
    entry := new ChunkedEntry(2, 1);
    entry.AddChunk(0, [0]);
    entry.AddChunk(7, [0]);
    assert entry.chunks.Keys == {0, 7};
  }

  lemma AllTouchedWhen(chunks: ChunkMap, size: nat, body: Bytes, start: nat, end: nat)
    requires size > 0 && end < |body| && Has(chunks, 0, ChunkCount(|body|, size))
    ensures AllTouched(chunks, size, start, end)
  {
    forall i: nat | Touches(i, size, start, end)
      ensures i in chunks
    {
      CountedChunks(i, |body|, size);
    }
  }

  lemma WholeServed(chunks: ChunkMap, size: nat, body: Bytes)
    requires size > 0 && body != [] && CutFrom(chunks, size, body) && Has(chunks, 0, ChunkCount(|body|, size))
    ensures Served(chunks, size, 0, |body| - 1) == Data(body)
  {
    AllTouchedWhen(chunks, size, body, 0, |body| - 1);
    ServedIsSlice(chunks, size, body, 0, |body| - 1);
    assert body[0..|body| - 1 + 1] == body;
  }

  /** A complete entry gives back the whole of a non-empty body. */
  lemma WholeBody(entry: ChunkedEntry, body: Bytes)
    requires entry.Describes(body) && entry.IsComplete() && body != []
    ensures Served(entry.chunks, entry.size, 0, |body| - 1) == Data(body)
  {
    CompleteMeansAll(entry, body);
    WholeServed(entry.chunks, entry.size, body);
  }

  // ---------------------------------------------------------------------
  // The cache of entries
  // ---------------------------------------------------------------------

  class ChunkCache {
    var entries: map<Key, ChunkedEntry>
    const size: nat

    constructor (size: nat)
      ensures entries == map[] && this.size == size
    {
      this.entries := map[];
      this.size := size;
    }

    /** How many chunks and bytes each entry holds, and which entries are complete. */
    ghost predicate Measured(counts: map<Key, nat>, bytes: map<Key, nat>, complete: set<Key>)
      reads this, entries.Values
    {
      && counts.Keys == bytes.Keys == entries.Keys && complete <= entries.Keys
      && forall k :: k in entries ==>
           && entries[k].size > 0 && counts[k] == |entries[k].chunks| && bytes[k] == entries[k].HeldBytes()
           && (k in complete <==> entries[k].IsComplete())
    }

    /** The entry under `key`: an existing one as it is, whatever `total` says, or a new empty one. */
    method GetOrCreate(key: Key, total: nat) returns (entry: ChunkedEntry)
      modifies this
      ensures key in old(entries) ==> entries == old(entries) && entry == old(entries)[key]
      ensures key !in old(entries) ==>
                && fresh(entry) && entries == old(entries)[key := entry]
                && entry.total == total && entry.size == size && entry.chunks == map[]
    {
      if key !in entries {
        entry := new ChunkedEntry(total, size);
        entries := entries[key := entry];
      }
      return entries[key];
    }

    /** Each total is the sum, or the number, over all entries. */
    method Stats(ghost counts: map<Key, nat>, ghost bytes: map<Key, nat>, ghost complete: set<Key>)
      returns (s: ChunkCacheStats)
      requires Measured(counts, bytes, complete)
      ensures s == ChunkCacheStats(|entries|, |complete|, Sum(counts, entries.Keys), Sum(bytes, entries.Keys))
    {
      s := ChunkCacheStats(0, 0, 0, 0);
      var todo := entries.Keys;
      CountedEnds(entries.Keys, counts, bytes, complete);
      while todo != {}
        invariant todo <= entries.Keys && Counted(s, todo, entries.Keys, counts, bytes, complete)
      {
        var k :| k in todo;
        var held := entries[k].CountBytes();
        CountOne(s, todo, entries.Keys, counts, bytes, complete, k);
        s := ChunkCacheStats(
          s.totalEntries + 1,
          s.completeEntries + (if entries[k].IsComplete() then 1 else 0),
          s.totalChunks + |entries[k].chunks|,
          s.totalBytes + held);
        todo := todo - {k};
      }
    }
  }

  /** The totals lack exactly the entries in `todo`. */
  ghost predicate Counted(s: ChunkCacheStats, todo: set<Key>, keys: set<Key>, counts: map<Key, nat>, bytes: map<Key, nat>, complete: set<Key>)
    requires todo <= keys == counts.Keys == bytes.Keys
  {
    && s.totalEntries + |todo| == |keys|
    && s.completeEntries + |complete * todo| == |complete|
    && s.totalChunks + Sum(counts, todo) == Sum(counts, keys)
    && s.totalBytes + Sum(bytes, todo) == Sum(bytes, keys)
  }

  /** At first all entries are lacking, in the end none. */
  lemma CountedEnds(keys: set<Key>, counts: map<Key, nat>, bytes: map<Key, nat>, complete: set<Key>)
    requires keys == counts.Keys == bytes.Keys && complete <= keys
    ensures Counted(ChunkCacheStats(0, 0, 0, 0), keys, keys, counts, bytes, complete)
    ensures forall s :: Counted(s, {}, keys, counts, bytes, complete) ==>
              s == ChunkCacheStats(|keys|, |complete|, Sum(counts, keys), Sum(bytes, keys))
  {
    assert complete * keys == complete && complete * {} == {};
  }

  lemma CountOne(s: ChunkCacheStats, todo: set<Key>, keys: set<Key>, counts: map<Key, nat>, bytes: map<Key, nat>, complete: set<Key>, k: Key)
    requires k in todo && todo <= keys == counts.Keys == bytes.Keys && Counted(s, todo, keys, counts, bytes, complete)
    ensures Counted(ChunkCacheStats(s.totalEntries + 1, s.completeEntries + (if k in complete then 1 else 0),
                                    s.totalChunks + counts[k], s.totalBytes + bytes[k]),
                    todo - {k}, keys, counts, bytes, complete)
  {
    SumAny(counts, todo, k);
    SumAny(bytes, todo, k);
    TakeOne(complete, todo, k);
  }

  lemma TakeOne<X>(some: set<X>, xs: set<X>, x: X)
    requires x in xs
    ensures |some * xs| == |some * (xs - {x})| + (if x in some then 1 else 0)
  {
    if x in some {
      assert some * xs == some * (xs - {x}) + {x};
    } else {
      assert some * xs == some * (xs - {x});
    }
  }

  datatype ChunkCacheStats = ChunkCacheStats(totalEntries: nat, completeEntries: nat, totalChunks: nat, totalBytes: nat)

  /** When every entry describes a body, the bytes held are at most those of all the bodies, and
      as many if and only if every entry is counted as complete. */
  lemma BytesTellCompleteness(cache: ChunkCache, bodies: map<Key, Bytes>, lengths: map<Key, nat>,
                              counts: map<Key, nat>, bytes: map<Key, nat>, complete: set<Key>)
    requires cache.Measured(counts, bytes, complete) && bodies.Keys == lengths.Keys == cache.entries.Keys
    requires forall k :: k in bodies ==> cache.entries[k].Describes(bodies[k]) && lengths[k] == |bodies[k]|
    ensures Sum(bytes, cache.entries.Keys) <= Sum(lengths, cache.entries.Keys)
    ensures Sum(bytes, cache.entries.Keys) == Sum(lengths, cache.entries.Keys) <==> |complete| == |cache.entries|
  {
    var keys := cache.entries.Keys;
    forall k | k in keys
      ensures bytes[k] <= lengths[k] && (bytes[k] == lengths[k] <==> k in complete)
    {
      CompleteMeansAll(cache.entries[k], bodies[k]);
    }
    SumBelow(bytes, lengths, keys);
    SubsetSize(complete, keys);
    assert complete == keys <==> forall k :: k in keys ==> k in complete;
  }
}
