/** The AVI recorder of src/avi_record.c: data chunks are appended to a file while recording; when recording
    stops, the file itself is read back to build an index behind them. */
module AviRecorder {
  import opened Utils
  import opened AviIndex
  import opened AviFailures

  // ------------------------------------------------------------------ what is recorded

  type Sample = x: int | -0x8000 <= x < 0x8000

  function SampleBytes(s: (Sample, Sample)): (r: Bytes)
    ensures |r| == 4
  {
    StoreU16(s.0) + StoreU16(s.1)
  }

  /** `n` stereo samples of the ring, from `index` on. */
  function AudioPayload(ring: seq<(Sample, Sample)>, index: nat, n: nat): (r: Bytes)
    requires |ring| == MIXBUFFER_SIZE
    ensures |r| == 4 * n
  {
    if n == 0 then [] else AudioPayload(ring, index, n - 1) + SampleBytes(ring[(index + n - 1) % MIXBUFFER_SIZE])
  }

  predicate Picture(rows: seq<Bytes>, width: nat) {
    forall y | 0 <= y < |rows| :: |rows[y]| == 3 * width
  }

  /** The lowest `n` lines of a picture, from the bottom up. */
  function BottomUp(rows: seq<Bytes>, n: nat): Bytes
    requires n <= |rows|
  {
    if n == 0 then [] else BottomUp(rows, n - 1) + rows[|rows| - n]
  }

  lemma {:induction false} BottomUpSize(rows: seq<Bytes>, n: nat, width: nat)
    requires n <= |rows| && Picture(rows, width)
    ensures |BottomUp(rows, n)| == 3 * width * n
  {
    if n > 0 {
      BottomUpSize(rows, n - 1, width);
      assert 3 * width * n == 3 * width * (n - 1) + 3 * width;
    }
  }

  lemma {:induction false} BottomUpAt(rows: seq<Bytes>, n: nat, y: nat)
    requires y < |rows| && |rows| - y <= n <= |rows|
    ensures var at := |BottomUp(rows, |rows| - 1 - y)|; var b := BottomUp(rows, n);
            at + |rows[y]| <= |b| && b[at..at + |rows[y]|] == rows[y]
    decreases n
  {
    if |rows| - y < n {
      BottomUpAt(rows, n - 1, y);
      var at := |BottomUp(rows, |rows| - 1 - y)|;
      assert BottomUp(rows, n)[at..at + |rows[y]|] == BottomUp(rows, n - 1)[at..at + |rows[y]|];
    }
  }

  /** Line `y` from the top is found `height - 1 - y` lines into the data. */
  lemma BottomUpLine(rows: seq<Bytes>, width: nat, y: nat)
    requires Picture(rows, width) && y < |rows|
    ensures var at := 3 * width * (|rows| - 1 - y); var b := BottomUp(rows, |rows|);
            |b| == 3 * width * |rows| && 0 <= at <= at + 3 * width <= |b| && b[at..at + 3 * width] == rows[y]
  {
    BottomUpSize(rows, |rows|, width);
    BottomUpSize(rows, |rows| - 1 - y, width);
    BottomUpAt(rows, |rows|, y);
  }

  /** How many chunks are frames; a compressed frame without data is one that could not be made. */
  function Frames(chunks: seq<Chunk>): nat {
    if chunks == [] then 0 else
      var c := chunks[|chunks| - 1];
      Frames(chunks[..|chunks| - 1]) + if c.id == VIDEO_BMP || (c.id == VIDEO_PNG && c.payload != []) then 1 else 0
  }

  function Samples(chunks: seq<Chunk>): nat {
    if chunks == [] then 0 else
      var c := chunks[|chunks| - 1];
      Samples(chunks[..|chunks| - 1]) + if c.id == AUDIO_PCM then |c.payload| / 4 else 0
  }

  lemma CountSnoc(chunks: seq<Chunk>, c: Chunk)
    ensures Frames(chunks + [c])
         == Frames(chunks) + (if c.id == VIDEO_BMP || (c.id == VIDEO_PNG && c.payload != []) then 1 else 0)
    ensures Samples(chunks + [c]) == Samples(chunks) + (if c.id == AUDIO_PCM then |c.payload| / 4 else 0)
  {
    assert (chunks + [c])[..|chunks|] == chunks;
  }

  /** Chunk `k` starts at an even distance from the first one. */
  ghost predicate StartsEven(chunks: seq<Chunk>, k: nat)
    requires k < |chunks|
  {
    |Serialize(chunks[..k])| % 2 == 0
  }

  /** All chunks start at even positions exactly when the data of all but the last have even lengths. Compressed
      frames are padded to that end, uncompressed ones of odd width and height are not. */
  lemma {:induction false} ChunksAligned(chunks: seq<Chunk>, n: nat)
    requires n < |chunks|
    ensures (forall k | 0 <= k <= n :: StartsEven(chunks, k))
      <==> (forall k | 0 <= k < n :: |chunks[k].payload| % 2 == 0)
  {
    hide Serialize;
    if n == 0 {
      SerializeAppend([], []);
      assert StartsEven(chunks, 0);
    } else {
      ChunksAligned(chunks, n - 1);
      ChunkLies(chunks, n - 1);
      assert |Serialize(chunks[..n])| == |Serialize(chunks[..n - 1])| + 8 + |chunks[n - 1].payload|;
      assert StartsEven(chunks, n - 1) ==> (StartsEven(chunks, n) <==> |chunks[n - 1].payload| % 2 == 0);
    }
  }

  // ------------------------------------------------------------------ the file

  lemma OverwriteMiddle(a: Bytes, b: Bytes, c: Bytes, b': Bytes)
    requires |b'| == |b|
    ensures Overwrite(a + b + c, |a|, b') == a + b' + c
  {
    var d := a + b + c;
    assert d[..|a|] == a && d[|a| + |b|..] == c;
  }

  /** A file as the C library presents it. */
  class File {
    var data: Bytes
    var pos: nat

    constructor ()
      ensures data == [] && pos == 0
    {
      data, pos := [], 0;
    }

    method Seek(p: nat)
      modifies `pos
      ensures pos == p
    {
      pos := p;
    }

    method SeekEnd()
      modifies `pos
      ensures pos == |data|
    {
      pos := |data|;
    }

    method Read(n: nat) returns (ok: bool, b: Bytes)
      modifies `pos
      ensures ok <==> old(pos) + n <= |data|
      ensures ok ==> b == data[old(pos)..old(pos) + n] && pos == old(pos) + n
      ensures !ok ==> b == [] && pos == old(pos)
    {
      ok, b := pos + n <= |data|, [];
      if ok {
        b := data[pos..pos + n];
        pos := pos + n;
      }
    }

    method Write(b: Bytes)
      requires pos <= |data|
      modifies this
      ensures data == Overwrite(old(data), old(pos), b) && pos == old(pos) + |b|
    {
      data := Overwrite(data, pos, b);
      pos := pos + |b|;
    }

    method Append(b: Bytes)
      requires pos == |data|
      modifies this
      ensures data == old(data) + b && pos == |data|
    {
      Write(b);
      assert data[..old(pos)] == old(data);
    }
  }

  // ------------------------------------------------------------------ the recorder

  function Put32(h: Bytes, at: nat, v: int): (r: Bytes)
    requires at + 4 <= |h|
    ensures |r| == |h| && r[at..at + 4] == StoreU32(v)
    ensures forall i, j | 0 <= i <= j <= at || at + 4 <= i <= j <= |h| :: r[i..j] == h[i..j]
  {
    var r := h[..at] + StoreU32(v) + h[at + 4..];
    PutKeeps(h, at, StoreU32(v));
    r
  }

  lemma PutKeeps(h: Bytes, at: nat, b: Bytes)
    requires at + |b| <= |h|
    ensures var r := h[..at] + b + h[at + |b|..];
            && |r| == |h| && r[at..at + |b|] == b
            && forall i, j | 0 <= i <= j <= at || at + |b| <= i <= j <= |h| :: r[i..j] == h[i..j]
  {
    var r := h[..at] + b + h[at + |b|..];
    forall i, j | 0 <= i <= j <= at || at + |b| <= i <= j <= |h| ensures r[i..j] == h[i..j] {
      assert forall k | i <= k < j :: r[k] == h[k];
    }
  }

  /** The file header with the numbers that are known at the end. */
  function FinalHeader(h: Bytes, fileSize: nat, frames: nat, samples: nat): (r: Bytes)
    requires |h| == HEADER
    ensures |r| == HEADER
    ensures r[4..8] == StoreU32(fileSize - 8) && r[48..52] == StoreU32(frames)
    ensures r[140..144] == StoreU32(frames) && r[264..268] == StoreU32(samples)
  {
    hide Put32;
    var h1 := Put32(Put32(h, FILE_SIZE_AT, fileSize - 8), TOTAL_FRAMES_AT, frames);
    Put32(Put32(h1, VIDEO_LENGTH_AT, frames), AUDIO_LENGTH_AT, samples)
  }

  /** The rest of the header stays as it was. */
  lemma HeaderKeeps(h: Bytes, fileSize: nat, frames: nat, samples: nat)
    requires |h| == HEADER
    ensures var r := FinalHeader(h, fileSize, frames, samples);
            && r[0..4] == h[0..4] && r[8..48] == h[8..48] && r[52..140] == h[52..140] && r[144..264] == h[144..264]
            && r[268..314] == h[268..314]
  {
    hide Put32;
  }

  /** The part between the header and the movie: the name of the program, padded to an even length. */
  function InfoPart(text: Bytes): Bytes {
    var len := |text| + 1;
    LIST + StoreU32(12 + (len + len % 2)) + INFO + ISFT + StoreU32(len)
    + text + (if len % 2 == 0 then [0] else [0, 0])
  }

  /** The file contents while `parts` have been recorded behind `preamble`. */
  ghost predicate Recording(data: Bytes, preamble: Bytes, parts: seq<Part>) {
    data == Movie(preamble, 0, Content(parts)) && SmallParts(parts)
  }

  lemma RecordingStarts(preamble: Bytes)
    ensures Recording(preamble + MoviHeader(0), preamble, [])
  {
  }

  lemma PartRecorded(data: Bytes, preamble: Bytes, parts: seq<Part>, p: Part)
    requires Recording(data, preamble, parts) && |p.chunk.payload| < TWO32
    ensures Recording(data + PartBytes(p), preamble, parts + [p])
  {
    hide Content;
    hide PartBytes;
    ContentSnoc(parts, p);
  }

  /** A whole chunk has nothing behind it. */
  lemma WholePart(c: Chunk)
    ensures PartBytes(Part(c, [])) == ChunkBytes(c)
  {
    hide ChunkBytes;
  }

  /** How many frames and samples the recorder counts. */
  lemma PartCounted(parts: seq<Part>, p: Part)
    ensures var before, after := ChunksOf(parts), ChunksOf(parts + [p]); var id := p.chunk.id;
            && Frames(after) == Frames(before)
                 + (if id == VIDEO_BMP || (id == VIDEO_PNG && p.chunk.payload != []) then 1 else 0)
            && Samples(after) == Samples(before) + (if id == AUDIO_PCM then |p.chunk.payload| / 4 else 0)
  {
    ContentSnoc(parts, p);
    CountSnoc(ChunksOf(parts), p.chunk);
  }

  /** One frame, as uncompressed lines. */
  method WriteBmp(file: File, rows: seq<Bytes>, width: nat)
    requires file.pos == |file.data| && Picture(rows, width) && width * |rows| * 24 < 0x8000_0000
    modifies file
    ensures file.data == old(file.data) + ChunkBytes(Chunk(VIDEO_BMP, BottomUp(rows, |rows|)))
    ensures file.pos == |file.data| && |BottomUp(rows, |rows|)| < TWO32
  {
    hide StoreU32;
    hide Overwrite;
    var size := width * |rows| * 24 / 8;
    BottomUpSize(rows, |rows|, width);
    Area(width, |rows|);
    var head := VIDEO_BMP + StoreU32(size);
    ghost var d := file.data + head;
    file.Append(head);
    WriteLines(file, rows);
    assert file.data == old(file.data) + (head + BottomUp(rows, |rows|));
  }

  method WriteLines(file: File, rows: seq<Bytes>)
    requires file.pos == |file.data|
    modifies file
    ensures file.data == old(file.data) + BottomUp(rows, |rows|) && file.pos == |file.data|
  {
    for y := 0 to |rows|
      invariant file.data == old(file.data) + BottomUp(rows, y) && file.pos == |file.data|
    {
      file.Append(rows[|rows| - 1 - y]);
    }
  }

  /** One frame, compressed into `png` if that was `done`. Data of odd length get one more byte; the size in the chunk
      header is filled in afterwards. A compression that fails leaves what it has written behind a header of size 0. */
  method WritePng(file: File, png: Bytes, done: bool) returns (ok: bool)
    requires file.pos == |file.data|
    modifies file
    ensures ok == (done && png != []) && file.pos == |file.data|
    ensures ok ==> file.data == old(file.data) + ChunkBytes(Chunk(VIDEO_PNG, Padded(png)))
    ensures !ok ==> file.data == old(file.data) + ChunkBytes(Chunk(VIDEO_PNG, [])) + png
  {
    hide StoreU32;
    hide Overwrite;
    var at := file.pos;
    ghost var d := file.data;
    file.Append(VIDEO_PNG + StoreU32(0));
    file.Append(png);
    if !done || png == [] {
      assert file.data == d + (VIDEO_PNG + StoreU32(0) + []) + png;
      return false;
    }
    var size := |png|;
    if size % 2 == 1 {
      size := size + 1;
      file.Append([0]);
    }
    assert file.data == (d + VIDEO_PNG) + StoreU32(0) + Padded(png);
    OverwriteMiddle(d + VIDEO_PNG, StoreU32(0), Padded(png), StoreU32(size));
    file.Seek(at + 4);
    file.Write(StoreU32(size));
    file.SeekEnd();
    assert file.data == d + (VIDEO_PNG + StoreU32(size) + Padded(png));
    ok := true;
  }

  function Padded(png: Bytes): (r: Bytes)
    ensures |r| == |png| + |png| % 2
  {
    if |png| % 2 == 0 then png else png + [0]
  }

  /** `n` samples of the ring of sound samples, from `index` on. */
  method WritePcm(file: File, ring: seq<(Sample, Sample)>, index: nat, n: nat)
    requires file.pos == |file.data| && |ring| == MIXBUFFER_SIZE
    modifies file
    ensures file.data == old(file.data) + ChunkBytes(Chunk(AUDIO_PCM, AudioPayload(ring, index, n)))
    ensures file.pos == |file.data|
  {
    hide StoreU32;
    hide SampleBytes;
    var head := AUDIO_PCM + StoreU32(n * 4);
    ghost var d := file.data + head;
    file.Append(head);
    for i := 0 to n
      invariant file.data == d + AudioPayload(ring, index, i) && file.pos == |file.data|
    {
      file.Append(SampleBytes(ring[(index + i) % MIXBUFFER_SIZE]));
    }
    assert file.data == old(file.data) + (head + AudioPayload(ring, index, n));
  }

  /** Filling in the size of the movie, of the index, and the header. */
  lemma MovieSized(preamble: Bytes, movie: Bytes, size: int)
    ensures Overwrite(Movie(preamble, 0, movie), |preamble| + 4, StoreU32(size)) == Movie(preamble, size, movie)
  {
    hide StoreU32;
    hide Overwrite;
    assert Movie(preamble, 0, movie) == (preamble + LIST) + StoreU32(0) + (MOVI + movie);
    OverwriteMiddle(preamble + LIST, StoreU32(0), MOVI + movie, StoreU32(size));
    assert Movie(preamble, size, movie) == (preamble + LIST) + StoreU32(size) + (MOVI + movie);
  }

  lemma IndexSized(movie: Bytes, index: Bytes, size: int)
    ensures Overwrite(movie + IndexHeader(0) + index, |movie| + 4, StoreU32(size)) == movie + IndexHeader(size) + index
  {
    hide StoreU32;
    hide Overwrite;
    assert movie + IndexHeader(0) + index == (movie + IDX1) + StoreU32(0) + index;
    OverwriteMiddle(movie + IDX1, StoreU32(0), index, StoreU32(size));
    assert movie + IndexHeader(size) + index == (movie + IDX1) + StoreU32(size) + index;
  }

  lemma HeaderReplaced(h: Bytes, h': Bytes, info: Bytes, movie: Bytes, es: seq<Entry>)
    requires |h'| == |h|
    ensures Overwrite(Complete(h + info, movie, es), 0, h') == Complete(h' + info, movie, es)
    ensures |Complete(h' + info, movie, es)| == |Complete(h + info, movie, es)|
  {
    hide IndexBytes;
    hide MoviHeader;
    hide IndexHeader;
    hide Overwrite;
    var n := |h + info|;
    assert |h' + info| == n;
    var rest := MoviHeader(4 + |movie|) + movie + IndexHeader(16 * |es|) + IndexBytes(es, n);
    assert Complete(h + info, movie, es) == [] + h + (info + rest);
    OverwriteMiddle([], h, info + rest, h');
    assert Complete(h' + info, movie, es) == [] + h' + (info + rest);
  }

  class Recorder {
    var file: File?
    var header: Bytes
    var moviStart: nat
    var moviEnd: nat
    var frames: nat
    var samples: nat
    var recording: bool
    /** What has been recorded so far, and what precedes it behind the file header. */
    ghost var parts: seq<Part>
    ghost var info: Bytes

    ghost predicate Valid()
      reads this, file
    {
      && file != null && |header| == HEADER && moviStart == HEADER + |info| && file.pos == |file.data|
      && Recording(file.data, header + info, parts)
      && frames == Frames(ChunksOf(parts)) && samples == Samples(ChunksOf(parts))
    }

    constructor ()
      ensures !recording
    {
      file, header, info, parts, recording := null, [], [], [], false;
      moviStart, moviEnd, frames, samples := 0, 0, 0, 0;
    }

    /** Begins a recording in a new file, with the header `h` and the name `text` of the program, unless one is under
        way. The counts have been cleared before. */
    method StartWithParams(h: Bytes, text: Bytes) returns (ok: bool)
      requires |h| == HEADER && (!recording ==> frames == 0 && samples == 0)
      modifies this
      ensures ok == !old(recording) && recording
      ensures ok ==> Valid() && fresh(file) && header == h && info == InfoPart(text) && parts == []
      ensures !ok ==> unchanged(this)
    {
      if recording { return false; }
      hide InfoPart;
      hide Recording;
      file, moviStart := BeginFile(h, InfoPart(text));
      header, info, parts := h, InfoPart(text), [];
      NothingCounted();
      recording := true;
      return true;
    }

    /** Clears all parameters, the open file and the counts included, and begins a recording. A recording that is under
        way is refused only after that, and is lost: it can go on exactly if there was none. */
    method StartRecording(h: Bytes, text: Bytes) returns (ok: bool)
      requires |h| == HEADER
      modifies this
      ensures ok == !old(recording) && recording
      ensures Valid() <==> !old(recording)
      ensures ok ==> fresh(file) && header == h && info == InfoPart(text) && parts == []
    {
      file, moviStart, moviEnd, frames, samples := null, 0, 0, 0, 0;
      ok := StartWithParams(h, text);
    }

    /** One uncompressed frame, given as its lines from the top. */
    method RecordBmp(rows: seq<Bytes>, width: nat) returns (ok: bool)
      requires Valid() && Picture(rows, width) && width * |rows| * 24 < 0x8000_0000
      modifies this`parts, this`frames, file
      ensures ok && Valid() && parts == old(parts) + [Part(Chunk(VIDEO_BMP, BottomUp(rows, |rows|)), [])]
      ensures frames == old(frames) + 1
    {
      hide ChunkBytes;
      hide PartBytes;
      hide Recording;
      hide BottomUp;
      hide Frames;
      hide Samples;
      WriteBmp(file, rows, width);
      ghost var p := Part(Chunk(VIDEO_BMP, BottomUp(rows, |rows|)), []);
      WholePart(p.chunk);
      PartRecorded(old(file.data), header + info, parts, p);
      PartCounted(parts, p);
      frames := frames + 1;
      parts := parts + [p];
      ok := true;
    }

    /** One compressed frame. When the compression fails there is an empty chunk in its place, and behind it what has
        been written of the frame. The recording goes on. */
    method RecordPng(png: Bytes, done: bool) returns (ok: bool)
      requires Valid() && |png| < 0x7FFF_FFFF
      modifies this`parts, this`frames, file
      ensures ok == (done && png != []) && Valid() && frames == old(frames) + if ok then 1 else 0
      ensures parts == old(parts)
        + [if ok then Part(Chunk(VIDEO_PNG, Padded(png)), []) else Part(Chunk(VIDEO_PNG, []), png)]
    {
      hide ChunkBytes;
      hide Recording;
      hide Padded;
      hide Frames;
      hide Samples;
      ghost var good := done && png != [];
      ghost var p := if good then Part(Chunk(VIDEO_PNG, Padded(png)), []) else Part(Chunk(VIDEO_PNG, []), png);
      ghost var before := file.data;
      PaddedSize(png);
      PartCounted(parts, p);
      PartRecorded(before, header + info, parts, p);
      ok := WritePng(file, png, done);
      assert file.data == before + PartBytes(p);
      parts := parts + [p];
      if ok {
        frames := frames + 1;
      }
    }

    /** `n` samples of sound. */
    method RecordPcm(ring: seq<(Sample, Sample)>, index: nat, n: nat) returns (ok: bool)
      requires Valid() && |ring| == MIXBUFFER_SIZE && n * 4 < 0x8000_0000
      modifies this`parts, this`samples, file
      ensures ok && Valid() && parts == old(parts) + [Part(Chunk(AUDIO_PCM, AudioPayload(ring, index, n)), [])]
      ensures samples == old(samples) + n
    {
      hide ChunkBytes;
      hide PartBytes;
      hide Recording;
      hide AudioPayload;
      hide Frames;
      hide Samples;
      WritePcm(file, ring, index, n);
      ghost var p := Part(Chunk(AUDIO_PCM, AudioPayload(ring, index, n)), []);
      WholePart(p.chunk);
      PartRecorded(old(file.data), header + info, parts, p);
      PartCounted(parts, p);
      samples := samples + n;
      parts := parts + [p];
      ok := true;
    }

    /** Appends the index. Whatever the bytes of the movie are, this ends without a failed read, and the
        index has one entry for each chunk header that is met. */
    method BuildIndex() returns (ok: bool)
      requires file != null && moviStart + 12 <= moviEnd == |file.data|
      modifies file
      ensures ok
      ensures var es := Walk(old(file.data) + IndexHeader(0), moviStart + 12, moviEnd);
              file.data == old(file.data) + IndexHeader(16 * |es|) + IndexBytes(es, moviStart)
    {
      hide Walk;
      hide IndexBytes;
      hide EntryBytes;
      hide IndexHeader;
      hide Overwrite;
      hide ReadHeader;
      file.SeekEnd();
      var indexStart := file.pos;
      ghost var movie := file.data;
      file.Append(IndexHeader(0));
      ghost var d := file.data;
      var posWrite := file.pos;
      file.Seek(moviStart + 12);
      var pos := file.pos;
      ghost var es := Walk(d, pos, moviEnd);
      ghost var done: seq<Entry> := [];
      IndexNil(moviStart);
      assert es == done + es;
      while pos < moviEnd
        invariant file.data == d + IndexBytes(done, moviStart) && posWrite == |file.data| && file.pos == pos
        invariant es == done + Walk(d, pos, moviEnd)
        decreases moviEnd - pos
      {
        WalkStep(d, pos, moviEnd);
        HeaderStays(d, IndexBytes(done, moviStart), pos);
        var e: Entry;
        ok, e := IndexChunk(file, pos, posWrite, moviStart);
        if !ok { return; }
        assert file.data == d + (IndexBytes(done, moviStart) + EntryBytes(e, moviStart));
        IndexSnoc(done, e, moviStart);
        done := done + [e];
        posWrite := file.pos;
        pos := pos + 8 + e.size;
        file.Seek(pos);
      }
      WalkDone(d, pos, moviEnd);
      assert es == done;
      IndexSized(movie, IndexBytes(es, moviStart), 16 * |es|);
      file.Seek(indexStart + 4);
      file.Write(StoreU32(posWrite - indexStart - 8));
      ok := true;
    }

    /** Completes the file but for its header. */
    method IndexMovie()
      requires Valid()
      modifies this`moviEnd, file
      ensures file.data == Complete(header + info, Content(parts), Entries(HEADER + |info| + 12, Content(parts)))
    {
      hide Overwrite;
      hide Complete;
      hide Content;
      hide Walk;
      hide Movie;
      hide MoviHeader;
      hide IndexHeader;
      hide Entries;
      ghost var preamble := header + info;
      moviEnd := CompleteMovie(file, moviStart, preamble, parts);
      EntriesWalk(file.data, moviStart + 12);
      var ok := BuildIndex();
      CompleteIs(preamble, Content(parts), Entries(moviStart + 12, Content(parts)));
    }

    /** Completes the header as well. */
    method Finish()
      requires Valid()
      modifies `header, `moviEnd, `recording, file
      ensures !recording
      ensures header == FinalHeader(old(header), |file.data|, Frames(ChunksOf(parts)), Samples(ChunksOf(parts)))
      ensures file.data == Complete(header + info, Content(parts), Entries(HEADER + |info| + 12, Content(parts)))
    {
      hide Complete;
      hide FinalHeader;
      hide Content;
      hide Entries;
      hide Frames;
      hide Samples;
      hide Recording;
      IndexMovie();
      header := CompleteHeader(file, header, frames, samples, info, Content(parts),
                               Entries(moviStart + 12, Content(parts)));
      recording := false;
    }

    /** Ends the recording: the file is complete. */
    method Stop() returns (ok: bool)
      requires recording ==> Valid()
      modifies this, file
      ensures ok && !recording && file == old(file) && parts == old(parts) && info == old(info)
      ensures !old(recording) ==> unchanged(this) && (file != null ==> unchanged(file))
      ensures old(recording) ==>
        && file != null
        && header == FinalHeader(old(header), |file.data|, Frames(ChunksOf(parts)), Samples(ChunksOf(parts)))
        && file.data == Complete(header + info, Content(parts), Entries(HEADER + |info| + 12, Content(parts)))
    {
      if recording {
        Finish();
      }
      ok := true;
    }
  }

  /** Fills in the header, once the rest of the file is complete. */
  method CompleteHeader(file: File, h: Bytes, frames: nat, samples: nat, ghost info: Bytes, ghost movie: Bytes,
                        ghost es: seq<Entry>) returns (h': Bytes)
    requires |h| == HEADER && file.data == Complete(h + info, movie, es)
    modifies file
    ensures h' == FinalHeader(h, |file.data|, frames, samples) && file.data == Complete(h' + info, movie, es)
  {
    hide Complete;
    hide FinalHeader;
    hide Overwrite;
    file.SeekEnd();
    h' := FinalHeader(h, file.pos, frames, samples);
    HeaderReplaced(h, h', info, movie, es);
    file.Seek(0);
    file.Write(h');
  }

  /** A new file, up to where the first chunk goes. */
  method BeginFile(h: Bytes, info: Bytes) returns (file: File, moviStart: nat)
    ensures fresh(file) && file.pos == |file.data| && moviStart == |h| + |info|
    ensures Recording(file.data, h + info, [])
  {
    hide MoviHeader;
    hide Recording;
    file := new File();
    file.Append(h);
    file.Append(info);
    moviStart := file.pos;
    file.Append(MoviHeader(0));
    assert file.data == (h + info) + MoviHeader(0);
    RecordingStarts(h + info);
  }

  /** Fills in the size of the movie. */
  method CompleteMovie(file: File, moviStart: nat, ghost preamble: Bytes, ghost parts: seq<Part>)
    returns (moviEnd: nat)
    requires Recording(file.data, preamble, parts) && moviStart == |preamble|
    modifies file
    ensures file.data == Movie(preamble, 4 + |Content(parts)|, Content(parts)) && moviEnd == |file.data|
    ensures moviStart + 12 <= moviEnd && file.data[moviStart + 12..] == Content(parts)
  {
    hide Movie;
    hide Overwrite;
    hide StoreU32;
    hide Content;
    MovieParts(preamble, 0, Content(parts));
    file.SeekEnd();
    moviEnd := file.pos;
    var size := moviEnd - moviStart - 8;
    MovieSized(preamble, Content(parts), size);
    file.Seek(moviStart + 4);
    file.Write(StoreU32(size));
    MovieParts(preamble, size, Content(parts));
  }

  /** Reads the chunk header at the current position, and appends its index entry at `posWrite`. */
  method IndexChunk(file: File, pos: nat, posWrite: nat, moviStart: nat) returns (ok: bool, e: Entry)
    requires file.pos == pos && posWrite == |file.data|
    modifies file
    ensures ok <==> pos + 8 <= old(|file.data|)
    ensures ok ==> e == ReadHeader(old(file.data), pos)
    ensures ok ==> file.data == old(file.data) + EntryBytes(e, moviStart) && file.pos == |file.data|
    ensures !ok ==> file.data == old(file.data)
  {
    hide EntryBytes;
    hide ReadHeader;
    hide Overwrite;
    var chunk: Bytes;
    ok, chunk := file.Read(8);
    if !ok { return ok, Entry(IDX1, 0, 0); }
    e := HeaderIn(chunk, pos);
    HeaderRead(file.data, pos);
    file.Seek(posWrite);
    file.Append(EntryBytes(e, moviStart));
  }

  /** A header is found where it was after more has been appended. */
  lemma HeaderStays(d: Bytes, more: Bytes, pos: nat)
    requires pos + 8 <= |d|
    ensures ReadHeader(d + more, pos) == ReadHeader(d, pos)
  {
    assert (d + more)[pos..pos + 4] == d[pos..pos + 4] && (d + more)[pos + 4..pos + 8] == d[pos + 4..pos + 8];
  }

  function HeaderIn(chunk: Bytes, pos: nat): Entry
    requires |chunk| == 8
  {
    Entry(chunk[0..4], pos, ReadU32(chunk[4..8]))
  }

  lemma HeaderRead(d: Bytes, pos: nat)
    requires pos + 8 <= |d|
    ensures HeaderIn(d[pos..pos + 8], pos) == ReadHeader(d, pos)
  {
    Sub(d, pos, pos + 8, 0, 4);
    Sub(d, pos, pos + 8, 4, 8);
  }

  lemma PaddedSize(png: Bytes)
    ensures |png| <= |Padded(png)| <= |png| + 1
  {
  }

  lemma NothingCounted()
    ensures ChunksOf([]) == [] && Frames([]) == 0 && Samples([]) == 0
  {
  }

  lemma MovieParts(preamble: Bytes, size: int, movie: Bytes)
    ensures var m := Movie(preamble, size, movie);
            |m| == |preamble| + 12 + |movie| && m[|preamble| + 12..] == movie
  {
  }

  lemma CompleteIs(preamble: Bytes, movie: Bytes, es: seq<Entry>)
    ensures Complete(preamble, movie, es)
         == Movie(preamble, 4 + |movie|, movie) + IndexHeader(16 * |es|) + IndexBytes(es, |preamble|)
  {
  }

  /** Without failed frames the file is the complete file of its chunks. */
  lemma FinishedIs(preamble: Bytes, parts: seq<Part>)
    requires SmallParts(parts) && forall k | 0 <= k < |parts| :: parts[k].rest == []
    ensures Complete(preamble, Content(parts), Entries(|preamble| + 12, Content(parts)))
         == Finished(preamble, ChunksOf(parts))
  {
    hide Complete;
    hide Entries;
    hide EntriesOf;
    ContentOfChunks(parts);
    EntriesOfChunks(ChunksOf(parts), |preamble| + 12);
  }

  lemma Area(width: nat, height: nat)
    requires width * height * 24 < 0x8000_0000
    ensures width * height * 24 / 8 == 3 * width * height < TWO32
  {
    assert 3 * width * height == 3 * (width * height);
  }

  lemma IndexNil(moviStart: nat)
    ensures IndexBytes([], moviStart) == []
  {
  }

  lemma IndexSnoc(es: seq<Entry>, e: Entry, moviStart: nat)
    ensures IndexBytes(es + [e], moviStart) == IndexBytes(es, moviStart) + EntryBytes(e, moviStart)
  {
    assert (es + [e])[..|es|] == es;
  }

  lemma WalkStep(d: Bytes, pos: nat, end: nat)
    requires end + 8 <= |d| && pos < end
    ensures Walk(d, pos, end) == [ReadHeader(d, pos)] + Walk(d, Next(d, pos), end)
  {
  }

  lemma WalkDone(d: Bytes, pos: nat, end: nat)
    requires end + 8 <= |d| && pos >= end
    ensures Walk(d, pos, end) == []
  {
  }
}
