/** The bytes of a recording as a player reads them: numbers with the lowest byte first, names in ASCII, and the place
    of every sample. */
module AviBytes {
  import opened Utils
  import opened AviIndex
  import opened AviRecorder

  /** The number in the bytes `b`, the lowest one first. */
  function Value(b: Bytes): nat {
    if b == [] then 0 else b[0] + 256 * Value(b[1..])
  }

  /** Codes of the letters of a name. */
  function Ascii(s: string): seq<int> {
    seq(|s|, i requires 0 <= i < |s| => s[i] as int)
  }

  lemma Names()
    ensures VIDEO_BMP == Ascii("00db") && VIDEO_PNG == Ascii("00dc") && AUDIO_PCM == Ascii("01wb")
    ensures LIST == Ascii("LIST") && INFO == Ascii("INFO") && ISFT == Ascii("ISFT") && MOVI == Ascii("movi")
      && IDX1 == Ascii("idx1")
  {
  }

  lemma FourBytes(b: Bytes)
    requires |b| == 4
    ensures ReadU32(b) == Value(b)
  {
    hide Value;
    assert b[1..][1..] == b[2..];
    Digit(b);
    Digit(b[1..]);
    TwoBytes(b[2..]);
  }

  lemma Digit(b: Bytes)
    requires b != []
    ensures Value(b) == b[0] as int + 256 * Value(b[1..])
  {
  }

  lemma TwoBytes(b: Bytes)
    requires |b| == 2
    ensures Value(b) == b[0] as int + 256 * b[1] as int
  {
    Digit(b);
    Digit(b[1..]);
    assert Value([]) == 0 && b[1..][1..] == [];
  }

  /** A chunk: its name, the number of its bytes, and these bytes. */
  lemma ChunkForm(c: Chunk)
    requires |c.payload| < 0x1_0000_0000
    ensures var b := ChunkBytes(c);
            |b| == 8 + |c.payload| && b[..4] == c.id && Value(b[4..8]) == |c.payload| && b[8..] == c.payload
  {
    hide StoreU32;
    hide ReadU32;
    hide Value;
    var b := ChunkBytes(c);
    assert b[4..8] == StoreU32(|c.payload|);
    StoredNumber(|c.payload|, [0, 0, 0, 0]);
    FourBytes(b[4..8]);
  }

  /** The two bytes of a sample are its value, or, if that is negative, its value and 65536. */
  predicate Holds16(b: Bytes, s: Sample) {
    |b| == 2 && Value(b) == if s >= 0 then s else s + 0x1_0000
  }

  lemma SampleStored(s: Sample)
    ensures Holds16(StoreU16(s), s)
  {
    TwoBytes(StoreU16(s));
    var q := s / 256;
    assert q % 256 == if s >= 0 then q else q + 256;
    assert s == 256 * q + s % 256;
  }

  /** Sample `k` of recorded sound: the left one at byte 4 `k`, the right one behind it, taken from a ring of 16384. */
  lemma {:induction false} SampleAt(ring: seq<(Sample, Sample)>, index: nat, n: nat, k: nat)
    requires |ring| == 16384 && k < n
    ensures var b, s := AudioPayload(ring, index, n), ring[(index + k) % 16384];
            |b| == 4 * n && Holds16(b[4 * k..4 * k + 2], s.0) && Holds16(b[4 * k + 2..4 * k + 4], s.1)
  {
    hide StoreU16;
    hide Holds16;
    var b, before := AudioPayload(ring, index, n), AudioPayload(ring, index, n - 1);
    if k < n - 1 {
      SampleAt(ring, index, n - 1, k);
      assert b[4 * k..4 * k + 2] == before[4 * k..4 * k + 2] && b[4 * k + 2..4 * k + 4] == before[4 * k + 2..4 * k + 4];
    } else {
      var s := ring[(index + k) % 16384];
      SampleStored(s.0);
      SampleStored(s.1);
      assert b[4 * k..4 * k + 2] == StoreU16(s.0) && b[4 * k + 2..4 * k + 4] == StoreU16(s.1);
    }
  }

  lemma InfoFields(size: Bytes, len: Bytes, text: Bytes, zeros: Bytes)
    requires |size| == |len| == 4
    ensures var b := LIST + size + INFO + ISFT + len + text + zeros;
            && b[..4] == LIST && b[4..8] == size && b[8..16] == INFO + ISFT && b[16..20] == len
            && b[20..20 + |text|] == text && b[20 + |text|..] == zeros
  {
  }

  /** The size of the part with the name of the program leads to the movie, and the name ends with a zero. */
  lemma InfoLeads(text: Bytes)
    requires |text| < 0x1000_0000
    ensures var b := InfoPart(text); var n := |text|;
            && |b| == 8 + Value(b[4..8]) && |b| % 2 == 0 && n + 21 <= |b| <= n + 22
            && b[..4] == Ascii("LIST") && b[8..16] == Ascii("INFOISFT") && Value(b[16..20]) == n + 1
            && b[20..20 + n] == text && forall k | 20 + n <= k < |b| :: b[k] == 0
  {
    hide StoreU32;
    hide ReadU32;
    hide Value;
    var len := |text| + 1;
    var b := InfoPart(text);
    var zeros: Bytes := if len % 2 == 0 then [0] else [0, 0];
    InfoFields(StoreU32(12 + (len + len % 2)), StoreU32(len), text, zeros);
    assert forall k | 20 + |text| <= k < |b| :: b[k] == zeros[k - 20 - |text|];
    StoredNumber(12 + (len + len % 2), [0, 0, 0, 0]);
    StoredNumber(len, [0, 0, 0, 0]);
    FourBytes(b[4..8]);
    FourBytes(b[16..20]);
  }

  /** A compressed frame is recorded whole, with a zero behind it if its length is odd. */
  lemma PaddedFrame(png: Bytes)
    ensures var b := Padded(png);
            && |b| % 2 == 0 && |png| <= |b| <= |png| + 1 && b[..|png|] == png
            && forall k | |png| <= k < |b| :: b[k] == 0
  {
  }

  /** What a player reads in the header of a finished file: its size without the first eight bytes, the number
      of frames, twice, and the number of samples. */
  lemma HeaderSays(h: Bytes, fileSize: nat, frames: nat, samples: nat)
    requires |h| == 314 && 8 <= fileSize < 0x1_0000_0000 && frames < 0x1_0000_0000 && samples < 0x1_0000_0000
    ensures var r := FinalHeader(h, fileSize, frames, samples);
            && |r| == 314 && Value(r[4..8]) == fileSize - 8 && Value(r[48..52]) == frames
            && Value(r[140..144]) == frames && Value(r[264..268]) == samples
  {
    hide StoreU32;
    hide ReadU32;
    hide Value;
    var r := FinalHeader(h, fileSize, frames, samples);
    var none: Bytes := [0, 0, 0, 0];
    StoredNumber(fileSize - 8, none);
    StoredNumber(frames, none);
    StoredNumber(samples, none);
    FourBytes(r[4..8]);
    FourBytes(r[48..52]);
    FourBytes(r[140..144]);
    FourBytes(r[264..268]);
  }

  /** The parts of a finished file are found by their names: the movie behind the header and the program's name, the
      index behind the movie. */
  lemma PartNames(preamble: Bytes, movie: Bytes, es: seq<Entry>)
    ensures var f, at := Complete(preamble, movie, es), |preamble|; var index := at + 12 + |movie|;
            && |f| == index + 8 + 16 * |es| && f[..at] == preamble
            && f[at..at + 4] == Ascii("LIST") && f[at + 8..at + 12] == Ascii("movi") && f[at + 12..index] == movie
            && f[index..index + 4] == Ascii("idx1")
  {
    hide StoreU32;
    hide IndexBytes;
  }
}
