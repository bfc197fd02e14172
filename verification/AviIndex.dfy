/** The form of the files of src/avi_record.c: a sequence of data chunks, and behind them an index that is built by
    walking over the chunks. */
module AviIndex {
  import opened Utils

  type Bytes = seq<Byte>
  type FourCC = b: Bytes | |b| == 4 witness [0, 0, 0, 0]

  const TWO32 := 0x1_0000_0000
  const LIST: FourCC := [0x4C, 0x49, 0x53, 0x54]
  const INFO: FourCC := [0x49, 0x4E, 0x46, 0x4F]
  const ISFT: FourCC := [0x49, 0x53, 0x46, 0x54]
  const MOVI: FourCC := [0x6D, 0x6F, 0x76, 0x69]
  const IDX1: FourCC := [0x69, 0x64, 0x78, 0x31]
  const VIDEO_BMP: FourCC := [0x30, 0x30, 0x64, 0x62]
  const VIDEO_PNG: FourCC := [0x30, 0x30, 0x64, 0x63]
  const AUDIO_PCM: FourCC := [0x30, 0x31, 0x77, 0x62]
  const KEYFRAME := 0x10
  const MIXBUFFER_SIZE := 16384

  /** Size of the file header, and the places of the fields in it that are filled in at the end. */
  const HEADER := 314
  const FILE_SIZE_AT := 4
  const TOTAL_FRAMES_AT := 48
  const VIDEO_LENGTH_AT := 140
  const AUDIO_LENGTH_AT := 264

  // ------------------------------------------------------------------ numbers in the file

  function StoreU16(v: int): (r: Bytes)
    ensures |r| == 2
  {
    [v % 256, v / 256 % 256]
  }

  function StoreU32(v: int): (r: Bytes)
    ensures |r| == 4
  {
    [v % 256, v / 0x100 % 256, v / 0x1_0000 % 256, v / 0x100_0000 % 256]
  }

  function ReadU32(p: Bytes): (v: nat)
    requires |p| == 4
    ensures v < TWO32
  {
    Number(p[0], p[1], p[2], p[3])
  }

  function Number(a: int, b: int, c: int, d: int): int {
    d * 0x100_0000 + c * 0x1_0000 + b * 0x100 + a
  }

  /** What is read back is what was stored, modulo 2^32; and every four bytes are the form of one number. */
  lemma StoredNumber(v: int, p: Bytes)
    requires |p| == 4
    ensures ReadU32(StoreU32(v)) == v % TWO32
    ensures StoreU32(ReadU32(p)) == p
  {
    NumberDigits(p[0], p[1], p[2], p[3]);
    var w := ReadU32(p);
    assert StoreU32(w) == [p[0], p[1], p[2], p[3]];
    DigitsNumber(v);
  }

  lemma NumberDigits(a: int, b: int, c: int, d: int)
    requires 0 <= a < 256 && 0 <= b < 256 && 0 <= c < 256 && 0 <= d < 256
    ensures var w := Number(a, b, c, d);
            w % 256 == a && w / 0x100 % 256 == b && w / 0x1_0000 % 256 == c && w / 0x100_0000 % 256 == d
  {
    var w := Number(a, b, c, d);
    assert w / 0x100 == d * 0x1_0000 + c * 0x100 + b;
    assert w / 0x1_0000 == d * 0x100 + c;
    assert w / 0x100_0000 == d;
  }

  lemma DigitsNumber(v: int)
    ensures Number(v % 256, v / 0x100 % 256, v / 0x1_0000 % 256, v / 0x100_0000 % 256) == v % TWO32
  {
    assert v / 0x1_0000 == v / 0x100 / 0x100 && v / 0x100_0000 == v / 0x1_0000 / 0x100;
    assert v / TWO32 == v / 0x100_0000 / 0x100;
  }

  lemma Sub(s: Bytes, i: nat, j: nat, a: nat, b: nat)
    requires i <= j <= |s| && a <= b <= j - i
    ensures s[i..j][a..b] == s[i + a..i + b]
  {
    var t := s[i..j];
    forall k | 0 <= k < b - a ensures t[a..b][k] == s[i + a..i + b][k] {
      assert t[a + k] == s[i + a + k];
    }
  }

  // ------------------------------------------------------------------ chunks

  datatype Chunk = Chunk(id: FourCC, payload: Bytes)

  function ChunkBytes(c: Chunk): Bytes {
    c.id + StoreU32(|c.payload|) + c.payload
  }

  function Serialize(chunks: seq<Chunk>): Bytes {
    if chunks == [] then [] else Serialize(chunks[..|chunks| - 1]) + ChunkBytes(chunks[|chunks| - 1])
  }

  /** Every length fits into the four bytes it is stored in. */
  predicate Sized(chunks: seq<Chunk>) {
    forall k | 0 <= k < |chunks| :: |chunks[k].payload| < TWO32
  }

  lemma SerializeSnoc(chunks: seq<Chunk>, c: Chunk)
    ensures Serialize(chunks + [c]) == Serialize(chunks) + ChunkBytes(c)
  {
    assert (chunks + [c])[..|chunks|] == chunks;
  }

  lemma {:induction false} SerializeAppend(a: seq<Chunk>, b: seq<Chunk>)
    ensures Serialize(a + b) == Serialize(a) + Serialize(b) && Serialize([]) == []
    decreases |b|
  {
    hide ChunkBytes;
    if b == [] {
      assert a + b == a;
    } else {
      var n := |b| - 1;
      var c := b[n];
      assert a + b == (a + b[..n]) + [c];
      assert b == b[..n] + [c];
      hide Serialize;
      SerializeSnoc(a + b[..n], c);
      SerializeSnoc(b[..n], c);
      SerializeAppend(a, b[..n]);
    }
  }

  /** Where chunk `k` lies among the serialized chunks. */
  lemma ChunkLies(chunks: seq<Chunk>, k: nat)
    requires k < |chunks|
    ensures var at := |Serialize(chunks[..k])|; var next := |Serialize(chunks[..k + 1])|;
            next == at + 8 + |chunks[k].payload| && next <= |Serialize(chunks)|
            && Serialize(chunks)[at..next] == ChunkBytes(chunks[k])
  {
    hide Serialize;
    assert chunks[..k + 1] == chunks[..k] + [chunks[k]];
    SerializeSnoc(chunks[..k], chunks[k]);
    assert chunks == chunks[..k + 1] + chunks[k + 1..];
    SerializeAppend(chunks[..k + 1], chunks[k + 1..]);
  }

  // ------------------------------------------------------------------ reading the chunks back

  datatype Entry = Entry(id: FourCC, pos: nat, size: nat)

  function ReadHeader(d: Bytes, pos: nat): (e: Entry)
    requires pos + 8 <= |d|
    ensures e.size < TWO32 && e.pos == pos
  {
    Entry(d[pos..pos + 4], pos, ReadU32(d[pos + 4..pos + 8]))
  }

  function Next(d: Bytes, pos: nat): (next: nat)
    requires pos + 8 <= |d|
    ensures pos + 8 <= next
  {
    pos + 8 + ReadHeader(d, pos).size
  }

  /** The chunk headers met from `pos` on, for any bytes. */
  function Walk(d: Bytes, pos: nat, end: nat): seq<Entry>
    requires end + 8 <= |d|
    decreases end - pos
  {
    if pos >= end then [] else [ReadHeader(d, pos)] + Walk(d, Next(d, pos), end)
  }

  /** Where that walk stops: at `end`, or somewhere behind it. */
  function WalkEnd(d: Bytes, pos: nat, end: nat): (r: nat)
    requires end + 8 <= |d|
    ensures r >= end
    decreases end - pos
  {
    if pos >= end then pos else WalkEnd(d, Next(d, pos), end)
  }

  function EntryOf(chunks: seq<Chunk>, start: nat, k: nat): Entry
    requires k < |chunks|
  {
    Entry(chunks[k].id, start + |Serialize(chunks[..k])|, |chunks[k].payload|)
  }

  function EntriesOf(chunks: seq<Chunk>, start: nat, from: nat): seq<Entry>
    requires from <= |chunks|
  {
    seq(|chunks| - from, i requires 0 <= i < |chunks| - from => EntryOf(chunks, start, from + i))
  }

  ghost predicate Holds(d: Bytes, start: nat, end: nat, chunks: seq<Chunk>) {
    start <= end && end + 8 <= |d| && d[start..end] == Serialize(chunks) && Sized(chunks)
  }

  lemma HeaderOfChunk(d: Bytes, pos: nat, c: Chunk)
    requires pos + |ChunkBytes(c)| <= |d| && d[pos..pos + |ChunkBytes(c)|] == ChunkBytes(c) && |c.payload| < TWO32
    ensures ReadHeader(d, pos) == Entry(c.id, pos, |c.payload|)
  {
    hide StoreU32;
    hide ReadU32;
    var b := ChunkBytes(c);
    var e := d[pos..pos + |b|];
    Sub(d, pos, pos + |b|, 0, 4);
    Sub(d, pos, pos + |b|, 4, 8);
    assert e[0..4] == c.id && e[4..8] == StoreU32(|c.payload|);
    StoredNumber(|c.payload|, [0, 0, 0, 0]);
  }

  lemma {:induction false} WalkOverChunks(d: Bytes, start: nat, end: nat, chunks: seq<Chunk>, k: nat)
    requires Holds(d, start, end, chunks) && k <= |chunks|
    ensures var pos := start + |Serialize(chunks[..k])|;
            Walk(d, pos, end) == EntriesOf(chunks, start, k) && WalkEnd(d, pos, end) == end
    decreases |chunks| - k
  {
    hide Serialize;
    hide ChunkBytes;
    hide ReadHeader;
    var pos := start + |Serialize(chunks[..k])|;
    if k == |chunks| {
      assert chunks[..k] == chunks;
    } else {
      ChunkLies(chunks, k);
      var b, s := ChunkBytes(chunks[k]), Serialize(chunks);
      Sub(d, start, end, pos - start, pos + |b| - start);
      HeaderOfChunk(d, pos, chunks[k]);
      WalkOverChunks(d, start, end, chunks, k + 1);
      assert EntriesOf(chunks, start, k) == [EntryOf(chunks, start, k)] + EntriesOf(chunks, start, k + 1);
    }
  }

  function ChunksAt(d: Bytes, pos: nat, end: nat): seq<Chunk>
    requires pos <= end && end + 8 <= |d| && WalkEnd(d, pos, end) == end
    decreases end - pos
  {
    if pos == end then [] else
      var next := Next(d, pos);
      WalkBound(d, next, end);
      [Chunk(ReadHeader(d, pos).id, d[pos + 8..next])] + ChunksAt(d, next, end)
  }

  lemma WalkBound(d: Bytes, pos: nat, end: nat)
    requires end + 8 <= |d|
    ensures pos <= WalkEnd(d, pos, end)
    decreases end - pos
  {
  }

  lemma {:induction false} WalkFindsChunks(d: Bytes, pos: nat, end: nat)
    requires pos <= end && end + 8 <= |d| && WalkEnd(d, pos, end) == end
    ensures Holds(d, pos, end, ChunksAt(d, pos, end))
    decreases end - pos
  {
    hide Serialize;
    hide ChunkBytes;
    hide ReadHeader;
    if pos < end {
      var next := Next(d, pos);
      WalkBound(d, next, end);
      WalkFindsChunks(d, next, end);
      var c := Chunk(ReadHeader(d, pos).id, d[pos + 8..next]);
      FirstChunk(d, pos, next, c);
      SerializeFirst(c, ChunksAt(d, next, end));
      assert ChunksAt(d, pos, end) == [c] + ChunksAt(d, next, end);
      assert d[pos..end] == d[pos..next] + d[next..end];
    } else {
      SerializeFirst(Chunk(IDX1, []), []);
    }
  }

  lemma SerializeFirst(c: Chunk, rest: seq<Chunk>)
    ensures Serialize([c] + rest) == ChunkBytes(c) + Serialize(rest) && Serialize([]) == []
  {
    SerializeAppend([c], rest);
    assert Serialize([c]) == ChunkBytes(c);
  }

  lemma FirstChunk(d: Bytes, pos: nat, next: nat, c: Chunk)
    requires pos + 8 <= |d| && next == Next(d, pos) <= |d| && c == Chunk(ReadHeader(d, pos).id, d[pos + 8..next])
    ensures d[pos..next] == ChunkBytes(c)
  {
    hide StoreU32;
    hide ReadU32;
    StoredNumber(0, d[pos + 4..pos + 8]);
    assert d[pos..next] == d[pos..pos + 4] + d[pos + 4..pos + 8] + d[pos + 8..next];
  }

  /** The walk stops exactly at the end if and only if the bytes are a sequence of chunks. */
  lemma WalkIffChunks(d: Bytes, start: nat, end: nat)
    requires start <= end && end + 8 <= |d|
    ensures WalkEnd(d, start, end) == end <==> exists chunks :: Holds(d, start, end, chunks)
  {
    if WalkEnd(d, start, end) == end {
      WalkFindsChunks(d, start, end);
    }
    if chunks :| Holds(d, start, end, chunks) {
      assert Serialize(chunks[..0]) == [];
      WalkOverChunks(d, start, end, chunks, 0);
    }
  }

  // ------------------------------------------------------------------ the finished file

  function EntryBytes(e: Entry, moviStart: nat): (r: Bytes)
    ensures |r| == 16
  {
    e.id + StoreU32(KEYFRAME) + StoreU32(e.pos - moviStart - 8) + StoreU32(e.size)
  }

  function IndexBytes(es: seq<Entry>, moviStart: nat): (r: Bytes)
    ensures |r| == 16 * |es|
  {
    if es == [] then [] else IndexBytes(es[..|es| - 1], moviStart) + EntryBytes(es[|es| - 1], moviStart)
  }

  function MoviHeader(size: int): (r: Bytes)
    ensures |r| == 12
  {
    LIST + StoreU32(size) + MOVI
  }

  function IndexHeader(size: int): (r: Bytes)
    ensures |r| == 8
  {
    IDX1 + StoreU32(size)
  }

  /** The file with the movie `movie`, and its end when it is complete. */
  function Movie(preamble: Bytes, size: int, movie: Bytes): Bytes {
    preamble + MoviHeader(size) + movie
  }

  function Complete(preamble: Bytes, movie: Bytes, es: seq<Entry>): Bytes {
    Movie(preamble, 4 + |movie|, movie) + IndexHeader(16 * |es|) + IndexBytes(es, |preamble|)
  }

  /** What the walk meets in a movie that begins at `start`. */
  function Entries(start: nat, movie: Bytes): seq<Entry> {
    Walk(seq(start, _ => 0) + movie + IndexHeader(0), start, start + |movie|)
  }

  /** The complete file of a sequence of chunks. */
  function Finished(preamble: Bytes, chunks: seq<Chunk>): Bytes {
    Complete(preamble, Serialize(chunks), EntriesOf(chunks, |preamble| + 12, 0))
  }

  /** What precedes the movie does not matter to the walk. */
  lemma {:induction false} WalkSame(d: Bytes, d': Bytes, start: nat, pos: nat, end: nat)
    requires |d| == |d'| && end + 8 <= |d| && start <= pos && start <= |d| && d[start..] == d'[start..]
    ensures Walk(d, pos, end) == Walk(d', pos, end)
    decreases end - pos
  {
    hide ReadHeader;
    if pos < end {
      SameHeader(d, d', start, pos);
      WalkSame(d, d', start, Next(d, pos), end);
    }
  }

  lemma SameHeader(d: Bytes, d': Bytes, start: nat, pos: nat)
    requires start <= pos && pos + 8 <= |d| == |d'| && d[start..] == d'[start..]
    ensures ReadHeader(d, pos) == ReadHeader(d', pos)
  {
    var n := |d|;
    assert d[start..n] == d[start..] == d'[start..] == d'[start..n];
    Sub(d, start, n, pos - start, pos + 4 - start);
    Sub(d', start, n, pos - start, pos + 4 - start);
    Sub(d, start, n, pos + 4 - start, pos + 8 - start);
    Sub(d', start, n, pos + 4 - start, pos + 8 - start);
  }

  /** The same file, cut at the movie or at the index. */
  lemma FileParts(preamble: Bytes, movie: Bytes, es: seq<Entry>)
    ensures var f, index := Complete(preamble, movie, es), IndexBytes(es, |preamble|);
            && f == (preamble + MoviHeader(4 + |movie|)) + movie + (IndexHeader(16 * |es|) + index)
            && f == (preamble + MoviHeader(4 + |movie|) + movie + IndexHeader(16 * |es|)) + index + []
            && |f| == |preamble| + 12 + |movie| + 8 + 16 * |es|
  {
    hide IndexBytes;
    hide MoviHeader;
    hide IndexHeader;
  }

  /** The walk over the movie of a file. */
  lemma EntriesWalk(file: Bytes, start: nat)
    requires start <= |file|
    ensures Walk(file + IndexHeader(0), start, |file|) == Entries(start, file[start..])
  {
    hide Walk;
    hide IndexHeader;
    var movie, h := file[start..], IndexHeader(0);
    var d, d' := file + h, seq(start, _ => 0) + movie + h;
    assert d == file[..start] + movie + h;
    assert d[start..] == movie + h;
    assert d'[start..] == movie + h;
    WalkSame(d, d', start, start, |file|);
  }

  /** Over recorded chunks it meets exactly their headers. */
  lemma EntriesOfChunks(chunks: seq<Chunk>, start: nat)
    requires Sized(chunks)
    ensures Entries(start, Serialize(chunks)) == EntriesOf(chunks, start, 0)
  {
    hide Serialize;
    var s := Serialize(chunks);
    var d := seq(start, _ => 0) + s + IndexHeader(0);
    assert d[start..start + |s|] == s;
    NoChunks(chunks);
    WalkOverChunks(d, start, start + |s|, chunks, 0);
  }

  lemma NoChunks(chunks: seq<Chunk>)
    ensures Serialize(chunks[..0]) == []
  {
  }

  lemma {:induction false} IndexEntry(es: seq<Entry>, moviStart: nat, k: nat)
    requires k < |es|
    ensures IndexBytes(es, moviStart)[16 * k..16 * k + 16] == EntryBytes(es[k], moviStart)
    decreases |es|
  {
    hide EntryBytes;
    var n := |es| - 1;
    var b, p := IndexBytes(es, moviStart), IndexBytes(es[..n], moviStart);
    assert b == p + EntryBytes(es[n], moviStart);
    if k < n {
      IndexEntry(es[..n], moviStart, k);
      assert b[16 * k..16 * k + 16] == p[16 * k..16 * k + 16];
    } else {
      assert b[|p|..|p| + 16] == EntryBytes(es[n], moviStart);
    }
  }

  /** A player's view of index entry `k`: what the four numbers of the 16 bytes at `at` say. */
  ghost predicate Locates(f: Bytes, at: nat, movi: nat, c: Chunk) {
    && at + 16 <= |f| && f[at..at + 4] == c.id && ReadU32(f[at + 4..at + 8]) == 0x10
    && ReadU32(f[at + 12..at + 16]) == |c.payload|
    && var pos := movi + ReadU32(f[at + 8..at + 12]);
       pos + 8 + |c.payload| <= |f| && f[pos..pos + 8 + |c.payload|] == ChunkBytes(c)
  }

  lemma EntryFields(f: Bytes, at: nat, e: Entry, moviStart: nat)
    requires at + 16 <= |f| && f[at..at + 16] == EntryBytes(e, moviStart)
    requires moviStart + 8 <= e.pos < TWO32 && e.size < TWO32
    ensures f[at..at + 4] == e.id && ReadU32(f[at + 4..at + 8]) == KEYFRAME
    ensures ReadU32(f[at + 8..at + 12]) == e.pos - moviStart - 8 && ReadU32(f[at + 12..at + 16]) == e.size
  {
    hide StoreU32;
    hide ReadU32;
    var b := f[at..at + 16];
    Sub(f, at, at + 16, 0, 4);
    Sub(f, at, at + 16, 4, 8);
    Sub(f, at, at + 16, 8, 12);
    Sub(f, at, at + 16, 12, 16);
    assert b[0..4] == e.id && b[4..8] == StoreU32(KEYFRAME);
    assert b[8..12] == StoreU32(e.pos - moviStart - 8) && b[12..16] == StoreU32(e.size);
    StoredNumber(KEYFRAME, b[..4]);
    StoredNumber(e.pos - moviStart - 8, b[..4]);
    StoredNumber(e.size, b[..4]);
  }

  lemma Middle(a: Bytes, b: Bytes, c: Bytes, i: nat, j: nat)
    requires i <= j <= |b|
    ensures (a + b + c)[|a| + i..|a| + j] == b[i..j]
  {
  }

  /** In a file below 4 GB the index leads to every chunk, in the order of recording, and the sizes of the
      data and index parts are right. */
  lemma IndexLocates(preamble: Bytes, chunks: seq<Chunk>, k: nat)
    requires |Finished(preamble, chunks)| < TWO32 && k < |chunks|
    ensures var f := Finished(preamble, chunks);
            var index := |preamble| + 12 + |Serialize(chunks)| + 8;
            Locates(f, index + 16 * k, |preamble| + 8, chunks[k])
  {
    hide Serialize;
    hide ChunkBytes;
    hide IndexBytes;
    hide EntryBytes;
    hide StoreU32;
    hide ReadU32;
    hide Complete;
    hide MoviHeader;
    hide IndexHeader;
    var f := Finished(preamble, chunks);
    var s := Serialize(chunks);
    var es := EntriesOf(chunks, |preamble| + 12, 0);
    var index := IndexBytes(es, |preamble|);
    FileParts(preamble, s, es);
    ChunkLies(chunks, k);
    var at, next := |Serialize(chunks[..k])|, |Serialize(chunks[..k + 1])|;
    Middle(preamble + MoviHeader(4 + |s|), s, IndexHeader(16 * |es|) + index, at, next);
    var before := preamble + MoviHeader(4 + |s|) + s + IndexHeader(16 * |es|);
    Middle(before, index, [], 16 * k, 16 * k + 16);
    IndexEntry(es, |preamble|, k);
    assert es[k] == EntryOf(chunks, |preamble| + 12, k);
    EntryFields(f, |before| + 16 * k, es[k], |preamble|);
  }

  /** The sizes stored before the data and before the index lead to the index and to the end of the file. */
  lemma SizesLead(preamble: Bytes, chunks: seq<Chunk>)
    requires |Finished(preamble, chunks)| < TWO32
    ensures var f := Finished(preamble, chunks); var movi := |preamble|;
            var index := movi + 8 + ReadU32(f[movi + 4..movi + 8]);
            index == movi + 12 + |Serialize(chunks)| && index + 8 <= |f| && f[index..index + 4] == IDX1
            && index + 8 + ReadU32(f[index + 4..index + 8]) == |f|
  {
    hide Serialize;
    hide IndexBytes;
    hide StoreU32;
    hide ReadU32;
    var f := Finished(preamble, chunks);
    var s := Serialize(chunks);
    var index := IndexBytes(EntriesOf(chunks, |preamble| + 12, 0), |preamble|);
    var m, h := MoviHeader(4 + |s|), IndexHeader(16 * |chunks|);
    var tail := s + h + index;
    assert f == preamble + m + tail;
    Middle(preamble, m, tail, 4, 8);
    assert m[4..8] == StoreU32(4 + |s|);
    StoredNumber(4 + |s|, m[..4]);
    var before := preamble + m + s;
    assert f == before + h + index;
    Middle(before, h, index, 0, 4);
    Middle(before, h, index, 4, 8);
    assert h[0..4] == IDX1 && h[4..8] == StoreU32(16 * |chunks|);
    StoredNumber(16 * |chunks|, m[..4]);
  }
}
