/** What a failed compressed frame does to an AVI file. The program leaves the bytes that were written of the frame
    behind a chunk header of size 0 and records on; the index is built by walking over all of it. */
module AviFailures {
  import opened AviIndex

  // ------------------------------------------------------------------ chunks with something between them

  /** A chunk, and what was left behind it, which is nothing unless a frame has failed. */
  datatype Part = Part(chunk: Chunk, rest: Bytes)

  function PartBytes(p: Part): Bytes {
    ChunkBytes(p.chunk) + p.rest
  }

  /** The movie of a file. */
  function Content(parts: seq<Part>): Bytes {
    if parts == [] then [] else Content(parts[..|parts| - 1]) + PartBytes(parts[|parts| - 1])
  }

  function ChunksOf(parts: seq<Part>): (chunks: seq<Chunk>)
    ensures |chunks| == |parts| && forall k | 0 <= k < |parts| :: chunks[k] == parts[k].chunk
  {
    seq(|parts|, k requires 0 <= k < |parts| => parts[k].chunk)
  }

  lemma ContentSnoc(parts: seq<Part>, p: Part)
    ensures Content(parts + [p]) == Content(parts) + PartBytes(p)
    ensures ChunksOf(parts + [p]) == ChunksOf(parts) + [p.chunk]
  {
    assert (parts + [p])[..|parts|] == parts;
  }

  /** Without failed frames the movie is the sequence of chunks. */
  lemma {:induction false} ContentOfChunks(parts: seq<Part>)
    requires forall k | 0 <= k < |parts| :: parts[k].rest == []
    ensures Content(parts) == Serialize(ChunksOf(parts))
  {
    hide ChunkBytes;
    hide Serialize;
    if parts == [] {
      SerializeAppend([], []);
      assert ChunksOf(parts) == [];
    } else {
      var n := |parts| - 1;
      ContentOfChunks(parts[..n]);
      assert parts == parts[..n] + [parts[n]];
      ContentSnoc(parts[..n], parts[n]);
      SerializeSnoc(ChunksOf(parts[..n]), parts[n].chunk);
      assert PartBytes(parts[n]) == ChunkBytes(parts[n].chunk);
    }
  }

  /** Where part `k` begins. */
  function PartAt(parts: seq<Part>, k: nat): nat
    requires k <= |parts|
  {
    |Content(parts[..k])|
  }

  lemma {:induction false} ContentPrefix(parts: seq<Part>, k: nat)
    requires k <= |parts|
    ensures PartAt(parts, k) <= |Content(parts)| && Content(parts)[..PartAt(parts, k)] == Content(parts[..k])
    decreases |parts|
  {
    hide PartBytes;
    var n := |parts|;
    if k == n {
      assert parts[..k] == parts;
    } else {
      assert parts[..n - 1][..k] == parts[..k];
      ContentPrefix(parts[..n - 1], k);
    }
  }

  /** Part `k` lies in the movie, its chunk first. */
  lemma PartLies(parts: seq<Part>, k: nat)
    requires k < |parts|
    ensures var at, next := PartAt(parts, k), PartAt(parts, k + 1); var rest := at + |ChunkBytes(parts[k].chunk)|;
            && at + 8 <= rest <= next <= |Content(parts)|
            && Content(parts)[at..rest] == ChunkBytes(parts[k].chunk) && Content(parts)[rest..next] == parts[k].rest
  {
    hide Content;
    hide ChunkBytes;
    ChunkSize(parts[k].chunk);
    ContentPrefix(parts, k + 1);
    assert parts[..k + 1] == parts[..k] + [parts[k]];
    ContentSnoc(parts[..k], parts[k]);
    var all, at, next := Content(parts), PartAt(parts, k), PartAt(parts, k + 1);
    var rest := at + |ChunkBytes(parts[k].chunk)|;
    var upto := all[..next];
    assert upto == Content(parts[..k]) + ChunkBytes(parts[k].chunk) + parts[k].rest;
    assert all[at..rest] == upto[at..rest] && all[rest..next] == upto[rest..next];
  }

  lemma ChunkSize(c: Chunk)
    ensures |ChunkBytes(c)| == 8 + |c.payload|
  {
  }

  // ------------------------------------------------------------------ what the walk visits

  /** The walk from `pos` comes to `p`. */
  predicate Visits(d: Bytes, pos: nat, end: nat, p: nat)
    requires end + 8 <= |d|
    decreases end - pos
  {
    pos < end && (pos == p || Visits(d, Next(d, pos), end, p))
  }

  lemma {:induction false} VisitsIff(d: Bytes, pos: nat, end: nat, p: nat)
    requires end + 8 <= |d| && pos <= p < end
    ensures Visits(d, pos, end, p) <==> WalkEnd(d, pos, p) == p
    decreases end - pos
  {
    hide Next;
    if pos < p {
      var next := Next(d, pos);
      if next <= p {
        VisitsIff(d, next, end, p);
      } else {
        NeverBack(d, next, end, p);
      }
    }
  }

  lemma {:induction false} NeverBack(d: Bytes, pos: nat, end: nat, p: nat)
    requires end + 8 <= |d| && p < pos
    ensures !Visits(d, pos, end, p)
    decreases end - pos
  {
    if pos < end {
      NeverBack(d, Next(d, pos), end, p);
    }
  }

  /** The entries of the walk are the headers at the places it comes to. */
  lemma {:induction false} VisitedEntries(d: Bytes, pos: nat, end: nat, e: Entry)
    requires end + 8 <= |d|
    ensures e in Walk(d, pos, end) <==> e.pos < end && Visits(d, pos, end, e.pos) && e == ReadHeader(d, e.pos)
    decreases end - pos
  {
    hide Next;
    if pos < end {
      var next := Next(d, pos);
      VisitedEntries(d, next, end, e);
      assert Walk(d, pos, end) == [ReadHeader(d, pos)] + Walk(d, next, end);
    }
  }

  /** A walk that comes to `p` goes on from there. */
  lemma {:induction false} WalkThrough(d: Bytes, pos: nat, p: nat, q: nat)
    requires q + 8 <= |d| && pos <= p <= q && WalkEnd(d, pos, p) == p
    ensures WalkEnd(d, pos, q) == WalkEnd(d, p, q)
    decreases p - pos
  {
    if pos < p {
      WalkBound(d, Next(d, pos), p);
      WalkThrough(d, Next(d, pos), p, q);
    }
  }

  // ------------------------------------------------------------------ which chunks are found

  ghost predicate IsChunks(b: Bytes) {
    exists chunks: seq<Chunk> :: Sized(chunks) && Serialize(chunks) == b
  }

  /** `d` holds a movie from `start` to `end`. */
  predicate Carries(d: Bytes, start: nat, end: nat, movie: Bytes) {
    start <= end && end + 8 <= |d| && d[start..end] == movie
  }

  lemma BytesAreChunks(d: Bytes, i: nat, j: nat, b: Bytes)
    requires Carries(d, i, j, b)
    ensures WalkEnd(d, i, j) == j <==> IsChunks(b)
  {
    hide Serialize;
    hide WalkEnd;
    hide Sized;
    WalkIffChunks(d, i, j);
    if chunks :| Holds(d, i, j, chunks) {
      assert Sized(chunks) && Serialize(chunks) == b;
    }
    if chunks: seq<Chunk> :| Sized(chunks) && Serialize(chunks) == b {
      assert Holds(d, i, j, chunks);
    }
  }

  /** The index has an entry for the chunk of part `k`. */
  predicate Found(es: seq<Entry>, start: nat, parts: seq<Part>, k: nat)
    requires k < |parts|
  {
    Entry(parts[k].chunk.id, start + PartAt(parts, k), |parts[k].chunk.payload|) in es
  }

  predicate SmallParts(parts: seq<Part>) {
    forall k | 0 <= k < |parts| :: |parts[k].chunk.payload| < TWO32
  }

  lemma PartCarried(d: Bytes, start: nat, end: nat, parts: seq<Part>, k: nat)
    requires Carries(d, start, end, Content(parts)) && k < |parts| && SmallParts(parts)
    ensures var c := parts[k].chunk; var at := start + PartAt(parts, k);
            var rest, next := at + 8 + |c.payload|, start + PartAt(parts, k + 1);
            && start <= at < rest <= next <= end && ReadHeader(d, at) == Entry(c.id, at, |c.payload|)
            && Next(d, at) == rest && Carries(d, rest, next, parts[k].rest)
            && Carries(d, start, at, Content(parts)[..PartAt(parts, k)])
  {
    hide Content;
    hide ChunkBytes;
    hide ReadHeader;
    PartLies(parts, k);
    ChunkSize(parts[k].chunk);
    var at := PartAt(parts, k);
    var rest, next := at + 8 + |parts[k].chunk.payload|, PartAt(parts, k + 1);
    Sub(d, start, end, at, rest);
    Sub(d, start, end, rest, next);
    Sub(d, start, end, 0, at);
    HeaderOfChunk(d, start + at, parts[k].chunk);
  }

  /** One chunk is found exactly if everything before it, failed frames included, is a sequence of chunks. */
  lemma FoundOne(start: nat, parts: seq<Part>, k: nat)
    requires SmallParts(parts) && k < |parts|
    ensures PartAt(parts, k) <= |Content(parts)|
    ensures Found(Entries(start, Content(parts)), start, parts, k) <==> IsChunks(Content(parts)[..PartAt(parts, k)])
  {
    hide Content;
    hide ReadHeader;
    hide Next;
    hide IsChunks;
    var movie := Content(parts);
    var d, end := seq(start, _ => 0) + movie + IndexHeader(0), start + |movie|;
    assert d[start..end] == movie;
    PartCarried(d, start, end, parts, k);
    var at := start + PartAt(parts, k);
    VisitedEntries(d, start, end, ReadHeader(d, at));
    VisitsIff(d, start, end, at);
    BytesAreChunks(d, start, at, movie[..PartAt(parts, k)]);
  }

  /** The walk comes to the first `n + 1` parts exactly if what lies between them are chunks, too. */
  lemma {:induction false} ComesTo(d: Bytes, start: nat, end: nat, parts: seq<Part>, n: nat)
    requires Carries(d, start, end, Content(parts)) && SmallParts(parts) && n < |parts|
    ensures forall k | 0 <= k <= n :: start <= start + PartAt(parts, k) && start + PartAt(parts, k) + 8 <= |d|
    ensures (forall k | 0 <= k <= n :: WalkEnd(d, start, start + PartAt(parts, k)) == start + PartAt(parts, k))
       <==> forall k | 0 <= k < n :: IsChunks(parts[k].rest)
  {
    hide Content;
    hide ReadHeader;
    hide Next;
    hide IsChunks;
    hide WalkEnd;
    PartCarried(d, start, end, parts, n);
    var q := start + PartAt(parts, n);
    if n == 0 {
      AtStart(d, start, parts);
    } else {
      var p := start + PartAt(parts, n - 1);
      ComesTo(d, start, end, parts, n - 1);
      PartCarried(d, start, end, parts, n - 1);
      if WalkEnd(d, start, p) == p {
        var rest := Next(d, p);
        WalkThrough(d, start, p, q);
        OneStep(d, p, q);
        BytesAreChunks(d, rest, q, parts[n - 1].rest);
      }
    }
  }

  lemma AtStart(d: Bytes, start: nat, parts: seq<Part>)
    requires start + 8 <= |d|
    ensures PartAt(parts, 0) == 0 && WalkEnd(d, start, start) == start
  {
  }

  lemma OneStep(d: Bytes, p: nat, q: nat)
    requires q + 8 <= |d| && p < q
    ensures WalkEnd(d, p, q) == WalkEnd(d, Next(d, p), q)
  {
  }

  ghost predicate AllFound(start: nat, parts: seq<Part>) {
    forall k | 0 <= k < |parts| :: Found(Entries(start, Content(parts)), start, parts, k)
  }

  /** All recorded chunks are found exactly if what every failed frame but a last one has left is itself a sequence of
      chunks. */
  lemma AllFoundIff(start: nat, parts: seq<Part>)
    requires SmallParts(parts)
    ensures AllFound(start, parts) <==> forall k | 0 <= k < |parts| - 1 :: IsChunks(parts[k].rest)
  {
    hide Content;
    hide ReadHeader;
    hide IsChunks;
    hide Visits;
    hide Walk;
    if parts != [] {
      var movie := Content(parts);
      var d, end := seq(start, _ => 0) + movie + IndexHeader(0), start + |movie|;
      assert d[start..end] == movie;
      ComesTo(d, start, end, parts, |parts| - 1);
      forall k | 0 <= k < |parts|
        ensures Found(Entries(start, movie), start, parts, k)
           <==> WalkEnd(d, start, start + PartAt(parts, k)) == start + PartAt(parts, k)
      {
        PartCarried(d, start, end, parts, k);
        VisitedEntries(d, start, end, ReadHeader(d, start + PartAt(parts, k)));
        VisitsIff(d, start, end, start + PartAt(parts, k));
      }
    }
  }

  // ------------------------------------------------------------------ beginnings of PNG files

  const SIGNATURE: Bytes := [0x89, 0x50, 0x4E, 0x47, 0x0D, 0x0A, 0x1A, 0x0A]

  /** What has been written of a compressed frame. */
  predicate PngBeginning(b: Bytes) {
    forall i | 0 <= i < |b| && i < 8 :: b[i] == SIGNATURE[i]
  }

  /** The size that the signature spells where a chunk has its size. */
  const SPELLED := 0x0A1A0A0D

  /** Such a beginning is a sequence of chunks only if it is empty: its first chunk would have to be longer. */
  lemma PngIsNoChunk(b: Bytes)
    requires PngBeginning(b) && |b| < 8 + SPELLED
    ensures IsChunks(b) <==> b == []
  {
    if b == [] {
      assert Sized([]) && Serialize([]) == [];
    } else if chunks: seq<Chunk> :| Sized(chunks) && Serialize(chunks) == b {
      FirstOfChunks(chunks);
      var c := chunks[0];
      assert StoreU32(|c.payload|) == SIGNATURE[4..8] by {
        assert b[4..8] == StoreU32(|c.payload|);
        assert b[4..8] == SIGNATURE[4..8];
      }
      SpelledSize(|c.payload|);
    }
  }

  lemma FirstOfChunks(chunks: seq<Chunk>)
    requires Serialize(chunks) != []
    ensures chunks != [] && var b := Serialize(chunks); var n := |chunks[0].payload|;
                            8 + n <= |b| && b[4..8] == StoreU32(n)
  {
    hide StoreU32;
    var c := chunks[0];
    assert chunks == [c] + chunks[1..];
    SerializeFirst(c, chunks[1..]);
    ChunkSize(c);
  }

  lemma SpelledSize(n: nat)
    requires n < TWO32 && StoreU32(n) == SIGNATURE[4..8]
    ensures n == SPELLED
  {
    StoredNumber(n, SIGNATURE[4..8]);
    assert SIGNATURE[4..8] == [0x0D, 0x0A, 0x1A, 0x0A];
  }

  /** After failed compressed frames, of which less than the size of that first chunk was written, all chunks are found
      exactly if no failed frame but a last one has left anything. */
  lemma FailedFrames(start: nat, parts: seq<Part>)
    requires SmallParts(parts)
    requires forall k | 0 <= k < |parts| :: PngBeginning(parts[k].rest) && |parts[k].rest| < 8 + SPELLED
    ensures AllFound(start, parts) <==> forall k | 0 <= k < |parts| - 1 :: parts[k].rest == []
  {
    hide IsChunks;
    hide AllFound;
    hide PngBeginning;
    AllFoundIff(start, parts);
    forall k | 0 <= k < |parts| ensures IsChunks(parts[k].rest) <==> parts[k].rest == [] {
      PngIsNoChunk(parts[k].rest);
    }
  }
}
