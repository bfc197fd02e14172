/** Laws of the blitter model for whole lines: how often it fetches, where its address counters end,
    and that the skew circuit shifts the source as one stream of bits. */
module BlitterLines {
  import opened Words
  import opened Blitter
  import opened BlitterLaws

  predicate AtLineStart(cfg: Config, d: Core) {
    WellFormed(cfg, d) && First(cfg, d) && d.lines > 0
  }

  lemma Times(l: nat, c: int)
    requires l > 0
    ensures l * c == (l - 1) * c + c
  {
  }

  lemma WrapTimes(base: int, l: nat, c: int)
    requires l > 0
    ensures Wrap32(Wrap32(base + (l - 1) * c) + c) == Wrap32(base + l * c)
  {
    Times(l, c);
    WrapAdd(base + (l - 1) * c, c);
  }

  /** Fetches that belong to the first `j` words of a line. */
  function FetchesBy(cfg: Config, j: nat): int
    requires cfg.Valid() && j <= cfg.width
  {
    if j == 0 then 0
    else if j < cfg.width then j + (if cfg.fxsr then 1 else 0)
    else cfg.SrcWidth()
  }

  /** Source address after `f` of the fetches of a line that starts at `base`: the last one adds
      the Y increment instead of the X increment. */
  function SrcAddrAfter(cfg: Config, base: int, f: int): int {
    if f == cfg.SrcWidth() && f > 0 then Wrap32(base + (f - 1) * cfg.srcXInc + cfg.srcYInc)
    else Wrap32(base + f * cfg.srcXInc)
  }

  function DstAddrAfter(cfg: Config, base: int, j: nat): int {
    if j == cfg.width then Wrap32(base + (j - 1) * cfg.dstXInc + cfg.dstYInc)
    else Wrap32(base + j * cfg.dstXInc)
  }

  /** The window has made `f` fetches of its line. */
  predicate Fetched(cfg: Config, base: int, f: int, win: Window) {
    && 0 <= f <= cfg.SrcWidth()
    && win.addr == SrcAddrAfter(cfg, base, f)
    && win.left == if f < cfg.SrcWidth() || f == 0 then cfg.SrcWidth() - f else 1
  }

  lemma FetchAdvances(cfg: Config, memory: Memory, base: int, f: int, win: Window)
    requires cfg.Valid() && f < cfg.SrcWidth() && Fetched(cfg, base, f, win)
    ensures Fetched(cfg, base, f + 1, Fetch(cfg, memory, win))
  {
    var x, y := cfg.srcXInc, cfg.srcYInc;
    assert (f + 1) * x == f * x + x;
    WrapAdd(base + f * x, x);
    WrapAdd(base + f * x, y);
    assert Wrap32(win.left - 1) == win.left - 1 by {
      assert 0 <= win.left - 1 < TWO_TO_32;
    }
  }

  /** Fetches of the first `n` words of a blit. */
  function FetchCount(cfg: Config, d: Core, n: nat): nat
    requires WellFormed(cfg, d) && n <= Remaining(cfg, d)
  {
    if n == 0 then 0
    else FetchCount(cfg, d, n - 1) + if Consumes(cfg) then Fetches(cfg, Iter(cfg, d, n - 1)) else 0
  }

  lemma NotNegative(a: nat, b: nat)
    ensures a * b >= 0
  {
  }

  lemma WordsLeft(cfg: Config, d: Core, j: nat)
    requires AtLineStart(cfg, d) && j <= cfg.width
    ensures j <= Remaining(cfg, d)
  {
    NotNegative(d.lines - 1, cfg.width);
  }

  lemma {:induction false} LineDestination(cfg: Config, d: Core, j: nat)
    requires AtLineStart(cfg, d) && j <= cfg.width
    ensures j <= Remaining(cfg, d)
    ensures var r := Iter(cfg, d, j);
            && r.dstAddr == DstAddrAfter(cfg, d.dstAddr, j)
            && (if j < cfg.width then r.words == cfg.width - j && r.lines == d.lines && r.line == d.line
                else r.words == cfg.width && r.lines == d.lines - 1 && r.line == NextLine(cfg, d.line))
  {
    hide HopWord;
    hide SourceAfter;
    hide Remaining;
    hide Wrap32;
    hide NextLine;
    WordsLeft(cfg, d, j);
    if j > 0 {
      LineDestination(cfg, d, j - 1);
      assert Iter(cfg, d, j) == StepF(cfg, Iter(cfg, d, j - 1));
      WrapTimes(d.dstAddr, j, cfg.dstXInc);
      WrapAdd(d.dstAddr + (j - 1) * cfg.dstXInc, cfg.dstYInc);
    } else {
      ZeroWords(cfg, d);
      assert j * cfg.dstXInc == 0;
    }
  }

  /** Inside a line a consuming blit has made exactly the fetches that belong to its words. */
  lemma {:induction false} LineFetches(cfg: Config, d: Core, j: nat)
    requires AtLineStart(cfg, d) && Consumes(cfg) && j <= cfg.width
    ensures j <= Remaining(cfg, d) && FetchCount(cfg, d, j) == FetchesBy(cfg, j)
    ensures j > 0 ==> var r := Iter(cfg, d, j);
      Fetched(cfg, d.srcAddr, FetchesBy(cfg, j), Window(r.srcAddr, r.srcWords, r.buffer))
  {
    hide HopWord;
    hide Remaining;
    hide Fetch;
    WordsLeft(cfg, d, j);
    if j > 0 {
      LineFetches(cfg, d, j - 1);
      LineDestination(cfg, d, j - 1);
      var p := Iter(cfg, d, j - 1);
      var f := FetchesBy(cfg, j - 1);
      var w0 := SourceBefore(cfg, p);
      assert Fetched(cfg, d.srcAddr, f, w0);
      SourceAdvances(cfg, d, p, f);
    }
  }

  /** The fetches of one word. */
  lemma SourceAdvances(cfg: Config, d: Core, p: Core, f: int)
    requires WellFormed(cfg, p) && 0 <= f && f + Fetches(cfg, p) <= cfg.SrcWidth()
    requires Fetched(cfg, d.srcAddr, f, SourceBefore(cfg, p))
    ensures Fetched(cfg, d.srcAddr, f + Fetches(cfg, p), SourceAfter(cfg, p))
  {
    hide Fetch;
    var w0 := SourceBefore(cfg, p);
    if ExtraFetch(cfg, p) {
      FetchAdvances(cfg, p.memory, d.srcAddr, f, Shifted(cfg, w0));
      if !NoFetch(cfg, p) {
        FetchAdvances(cfg, p.memory, d.srcAddr, f + 1, Shifted(cfg, Fetch(cfg, p.memory, Shifted(cfg, w0))));
      }
    } else if !NoFetch(cfg, p) {
      FetchAdvances(cfg, p.memory, d.srcAddr, f, Shifted(cfg, w0));
    }
  }

  // ------------------------------------------------------------------ the skew stream

  /** Two neighbouring words of the source stream as they sit in the skew window: in reading order
      when the source is read upwards, swapped when it is read downwards. */
  function Pack(cfg: Config, a: Word, b: Word): Long {
    if cfg.srcXInc < 0 then b + a else a + b
  }

  lemma PackShift(cfg: Config, a: Word, b: Word)
    ensures Shift(cfg, Pack(cfg, a, b)) == Pack(cfg, b, ZERO)
  {
  }

  lemma PackInsert(cfg: Config, a: Word, w: Word)
    ensures Insert(cfg, Pack(cfg, a, ZERO), w) == Pack(cfg, a, w)
  {
    assert Or(ZERO, w) == w;
    var v := Pack(cfg, a, ZERO);
    assert v[..16] == if cfg.srcXInc < 0 then ZERO else a;
    assert v[16..] == if cfg.srcXInc < 0 then a else ZERO;
  }

  /** The half of the window that the next shift keeps. */
  function Carry(cfg: Config, v: Long): Word {
    if cfg.srcXInc < 0 then v[..16] else v[16..]
  }

  lemma CarryShift(cfg: Config, v: Long)
    ensures Shift(cfg, v) == Pack(cfg, Carry(cfg, v), ZERO)
  {
  }

  /** Word `i` of the width + 1 words that a line shifts: without FXSR the first is what the window
      still holds, with NFSR the last is zero, the others are the source words of the line in order,
      each as memory holds it when it is fetched. */
  function StreamWord(cfg: Config, d: Core, i: nat): Word
    requires AtLineStart(cfg, d) && i <= cfg.width
  {
    if i == 0 && !cfg.fxsr then Carry(cfg, d.buffer)
    else if i == cfg.width && cfg.nfsr then ZERO
    else
      WordsLeft(cfg, d, i);
      Read(Iter(cfg, d, if i == 0 then 0 else i - 1).memory,
           Wrap32(d.srcAddr + (i - 1 + if cfg.fxsr then 1 else 0) * cfg.srcXInc))
  }

  /** The window after one word, from the window before it. */
  lemma WindowAdvances(cfg: Config, d: Core, p: Core, j: nat)
    requires AtLineStart(cfg, d) && Consumes(cfg) && j < cfg.width && j <= Remaining(cfg, d)
    requires p == Iter(cfg, d, j) && p.words == cfg.width - j && (j == 0 ==> p == d)
    requires Fetched(cfg, d.srcAddr, FetchesBy(cfg, j), SourceBefore(cfg, p))
    requires j > 0 ==> p.buffer == Pack(cfg, StreamWord(cfg, d, j - 1), StreamWord(cfg, d, j))
    ensures SourceAfter(cfg, p).buffer == Pack(cfg, StreamWord(cfg, d, j), StreamWord(cfg, d, j + 1))
  {
    hide Iter;
    hide Read;
    hide Shift;
    hide Insert;
    hide Pack;
    hide Carry;
    hide Remaining;
    var w0 := SourceBefore(cfg, p);
    var f := FetchesBy(cfg, j);
    var a, b := StreamWord(cfg, d, j), StreamWord(cfg, d, j + 1);
    var w1 := if ExtraFetch(cfg, p) then Fetch(cfg, p.memory, Shifted(cfg, w0)) else w0;
    if ExtraFetch(cfg, p) {
      assert j == 0;
      assert Iter(cfg, d, 0) == p;
      FetchAdvances(cfg, p.memory, d.srcAddr, f, Shifted(cfg, w0));
      CarryShift(cfg, w0.buffer);
      PackInsert(cfg, Carry(cfg, w0.buffer), a);
      PackShift(cfg, Carry(cfg, w0.buffer), a);
    } else if j == 0 {
      CarryShift(cfg, w0.buffer);
    } else {
      PackShift(cfg, StreamWord(cfg, d, j - 1), a);
    }
    assert Shift(cfg, w1.buffer) == Pack(cfg, a, ZERO);
    if !NoFetch(cfg, p) {
      PackInsert(cfg, a, b);
    }
  }

  /** Every output word of a line is the skewed view of two neighbours in the stream. This holds for
      every width, skew, direction and combination of FXSR and NFSR. */
  lemma {:induction false} LineWords(cfg: Config, d: Core, j: nat)
    requires AtLineStart(cfg, d) && Consumes(cfg) && j < cfg.width
    ensures j <= Remaining(cfg, d)
    ensures SourceWord(cfg, Iter(cfg, d, j))
         == Extract(Pack(cfg, StreamWord(cfg, d, j), StreamWord(cfg, d, j + 1)), cfg.skew)
    ensures SourceAfter(cfg, Iter(cfg, d, j)).buffer
         == Pack(cfg, StreamWord(cfg, d, j), StreamWord(cfg, d, j + 1))
  {
    hide HopWord;
    hide Remaining;
    hide Fetch;
    hide StreamWord;
    hide Pack;
    WordsLeft(cfg, d, j);
    LineDestination(cfg, d, j);
    LineFetches(cfg, d, j);
    if j > 0 {
      LineWords(cfg, d, j - 1);
      LineDestination(cfg, d, j - 1);
      assert Iter(cfg, d, j) == StepF(cfg, Iter(cfg, d, j - 1));
    }
    WindowAdvances(cfg, d, Iter(cfg, d, j), j);
  }

  /** The first `n` output words and the first `n` stream words of a line. */
  function Outputs(cfg: Config, d: Core, n: nat): (r: seq<Word>)
    requires AtLineStart(cfg, d) && n <= cfg.width
    ensures |r| == n
  {
    if n == 0 then []
    else
      WordsLeft(cfg, d, n);
      Outputs(cfg, d, n - 1) + [SourceWord(cfg, Iter(cfg, d, n - 1))]
  }

  function Stream(cfg: Config, d: Core, n: nat): (r: seq<Word>)
    requires AtLineStart(cfg, d) && n <= cfg.width + 1
    ensures |r| == n
  {
    if n == 0 then [] else Stream(cfg, d, n - 1) + [StreamWord(cfg, d, n - 1)]
  }

  /** Concatenation of words from the last to the first. */
  function FlattenBack(ws: seq<Word>): (r: seq<bool>)
    ensures |r| == 16 * |ws|
  {
    if ws == [] then [] else ws[|ws| - 1] + FlattenBack(ws[..|ws| - 1])
  }

  lemma FlattenSnoc(ws: seq<Word>, w: Word)
    ensures Flatten(ws + [w]) == Flatten(ws) + w && FlattenBack(ws + [w]) == w + FlattenBack(ws)
  {
    assert (ws + [w])[..|ws|] == ws;
  }

  /** One more word on both sides, as bits. */
  lemma SnocBits(cfg: Config, d: Core, n: nat)
    requires AtLineStart(cfg, d) && Consumes(cfg) && n < cfg.width
    ensures var a, b := StreamWord(cfg, d, n), StreamWord(cfg, d, n + 1);
            var out := Extract(Pack(cfg, a, b), cfg.skew);
            && Flatten(Outputs(cfg, d, n + 1)) == Flatten(Outputs(cfg, d, n)) + out
            && FlattenBack(Outputs(cfg, d, n + 1)) == out + FlattenBack(Outputs(cfg, d, n))
            && Flatten(Stream(cfg, d, n + 1)) == Flatten(Stream(cfg, d, n)) + a
            && Flatten(Stream(cfg, d, n + 2)) == Flatten(Stream(cfg, d, n)) + a + b
            && FlattenBack(Stream(cfg, d, n + 1)) == a + FlattenBack(Stream(cfg, d, n))
            && FlattenBack(Stream(cfg, d, n + 2)) == b + (a + FlattenBack(Stream(cfg, d, n)))
  {
    hide StreamWord;
    hide SourceWord;
    hide Iter;
    hide Flatten;
    hide FlattenBack;
    LineWords(cfg, d, n);
    FlattenSnoc(Outputs(cfg, d, n), SourceWord(cfg, Iter(cfg, d, n)));
    FlattenSnoc(Stream(cfg, d, n), StreamWord(cfg, d, n));
    FlattenSnoc(Stream(cfg, d, n + 1), StreamWord(cfg, d, n + 1));
  }

  /** Reading upwards, the output bits of a line are the bits of the stream from offset 16 - skew. */
  lemma {:induction false} LineIsShiftedStream(cfg: Config, d: Core, n: nat)
    requires AtLineStart(cfg, d) && Consumes(cfg) && n <= cfg.width && cfg.srcXInc >= 0
    ensures Flatten(Outputs(cfg, d, n))
         == Flatten(Stream(cfg, d, n + 1))[16 - cfg.skew..16 - cfg.skew + 16 * n]
  {
    hide StreamWord;
    hide Stream;
    hide Outputs;
    hide Flatten;
    if n == 0 {
      assert |Flatten(Outputs(cfg, d, 0))| == 0;
    } else {
      LineIsShiftedStream(cfg, d, n - 1);
      SnocBits(cfg, d, n - 1);
      SnocSlice(Flatten(Stream(cfg, d, n - 1)), StreamWord(cfg, d, n - 1), StreamWord(cfg, d, n), cfg.skew,
                16 * (n - 1));
    }
  }

  lemma SnocSlice(pre: seq<bool>, a: Word, b: Word, s: nat, m: nat)
    requires s < 16 && |pre| == m
    ensures (pre + a + b)[16 - s..16 - s + m + 16] == (pre + a)[16 - s..16 - s + m] + (a + b)[16 - s..32 - s]
  {
  }

  /** Reading downwards the same law holds for the words in reverse order. */
  lemma {:induction false} LineIsShiftedStreamDown(cfg: Config, d: Core, n: nat)
    requires AtLineStart(cfg, d) && Consumes(cfg) && n <= cfg.width && cfg.srcXInc < 0
    ensures FlattenBack(Outputs(cfg, d, n))
         == FlattenBack(Stream(cfg, d, n + 1))[16 - cfg.skew..16 - cfg.skew + 16 * n]
  {
    hide StreamWord;
    hide Stream;
    hide Outputs;
    hide FlattenBack;
    if n == 0 {
      assert |FlattenBack(Outputs(cfg, d, 0))| == 0;
    } else {
      LineIsShiftedStreamDown(cfg, d, n - 1);
      SnocBits(cfg, d, n - 1);
      ConsSlice(FlattenBack(Stream(cfg, d, n - 1)), StreamWord(cfg, d, n - 1), StreamWord(cfg, d, n), cfg.skew,
                16 * (n - 1));
    }
  }

  lemma ConsSlice(post: seq<bool>, a: Word, b: Word, s: nat, m: nat)
    requires s < 16 && |post| == m
    ensures (b + (a + post))[16 - s..16 - s + m + 16] == (b + a)[16 - s..32 - s] + (a + post)[16 - s..16 - s + m]
  {
  }

  // ------------------------------------------------------------------ many lines

  lemma {:induction false} FetchCountAdd(cfg: Config, d: Core, m: nat, n: nat)
    requires WellFormed(cfg, d) && m + n <= Remaining(cfg, d)
    ensures FetchCount(cfg, d, m + n) == FetchCount(cfg, d, m) + FetchCount(cfg, Iter(cfg, d, m), n)
  {
    hide Fetches;
    hide Iter;
    hide Remaining;
    if n > 0 {
      FetchCountAdd(cfg, d, m, n - 1);
      IterAdd(cfg, d, m, n - 1);
    }
  }

  /** How far the source address moves in one line. */
  function SrcStride(cfg: Config): int {
    if !Consumes(cfg) || cfg.SrcWidth() == 0 then 0
    else (cfg.SrcWidth() - 1) * cfg.srcXInc + cfg.srcYInc
  }

  function DstStride(cfg: Config): int {
    (cfg.width - 1) * cfg.dstXInc + cfg.dstYInc
  }

  lemma {:induction false} SourceIdle(cfg: Config, d: Core, n: nat)
    requires WellFormed(cfg, d) && !Consumes(cfg) && n <= Remaining(cfg, d)
    ensures Iter(cfg, d, n).srcAddr == d.srcAddr && FetchCount(cfg, d, n) == 0
  {
    hide HopWord;
    if n > 0 {
      SourceIdle(cfg, d, n - 1);
    }
  }

  /** One whole line. */
  lemma OneLine(cfg: Config, d: Core)
    requires AtLineStart(cfg, d)
    ensures cfg.width <= Remaining(cfg, d)
    ensures FetchCount(cfg, d, cfg.width) == if Consumes(cfg) then cfg.SrcWidth() else 0
    ensures var r := Iter(cfg, d, cfg.width);
            && r.words == cfg.width && r.lines == d.lines - 1 && r.line == NextLine(cfg, d.line)
            && r.dstAddr == Wrap32(d.dstAddr + DstStride(cfg))
            && r.srcAddr == Wrap32(d.srcAddr + SrcStride(cfg))
  {
    hide Iter;
    hide FetchCount;
    hide Consumes;
    LineDestination(cfg, d, cfg.width);
    if Consumes(cfg) {
      LineFetches(cfg, d, cfg.width);
      assert 0 * cfg.srcXInc == 0;
    } else {
      SourceIdle(cfg, d, cfg.width);
    }
    assert (cfg.width - 1) * cfg.dstXInc + cfg.dstYInc == DstStride(cfg);
  }

  function LineAfter(cfg: Config, line: nat, l: nat): int {
    if cfg.dstYInc >= 0 then (line + l) % 16 else (line - l) % 16
  }

  lemma LineAfterNext(cfg: Config, line: nat, l: nat)
    requires l > 0
    ensures NextLine(cfg, LineAfter(cfg, line, l - 1)) == LineAfter(cfg, line, l)
  {
    if cfg.dstYInc >= 0 {
      Mod16Add(line + l - 1, 1);
    } else {
      Mod16Add(line - (l - 1), 15);
      Mod16Add(line - l, 16);
    }
  }

  lemma Mod16Add(a: int, b: int)
    ensures (a % 16 + b) % 16 == (a + b) % 16
    ensures b == 16 ==> (a + b) % 16 == a % 16
  {
    var q := a / 16;
    assert a % 16 + b == a + b - 16 * q;
  }

  /** The machine after `l` lines that took `m` words and `f` fetches and moved the addresses by `da` and `sa`. */
  predicate LinesDone(cfg: Config, d: Core, l: nat, m: nat, f: nat, da: int, sa: int)
    requires AtLineStart(cfg, d)
  {
    && l <= d.lines && m <= Remaining(cfg, d) && FetchCount(cfg, d, m) == f
    && var r := Iter(cfg, d, m);
       && r.words == cfg.width && r.lines == d.lines - l && r.line == LineAfter(cfg, d.line, l)
       && r.dstAddr == Wrap32(d.dstAddr + da) && r.srcAddr == Wrap32(d.srcAddr + sa)
  }

  lemma LineMore(cfg: Config, d: Core, l: nat, m: nat, f: nat, da: int, sa: int)
    requires AtLineStart(cfg, d) && l < d.lines && LinesDone(cfg, d, l, m, f, da, sa)
    ensures LinesDone(cfg, d, l + 1, m + cfg.width,
                      f + if Consumes(cfg) then cfg.SrcWidth() else 0, da + DstStride(cfg), sa + SrcStride(cfg))
  {
    hide Iter;
    hide FetchCount;
    hide Consumes;
    hide DstStride;
    hide SrcStride;
    hide NextLine;
    hide Wrap32;
    hide Remaining;
    OneLine(cfg, Iter(cfg, d, m));
    IterAdd(cfg, d, m, cfg.width);
    FetchCountAdd(cfg, d, m, cfg.width);
    LineAfterNext(cfg, d.line, l + 1);
    WrapAdd(d.dstAddr + da, DstStride(cfg));
    WrapAdd(d.srcAddr + sa, SrcStride(cfg));
  }

  /** After `l` lines of width words: a consuming blit has fetched width + FXSR - NFSR source words
      for each, both address counters have moved by the same stride for each, modulo 2^32, and the
      halftone line has moved by one for each, modulo 16. */
  lemma {:induction false} ManyLines(cfg: Config, d: Core, l: nat)
    requires AtLineStart(cfg, d) && l <= d.lines
    ensures LinesDone(cfg, d, l, l * cfg.width, l * if Consumes(cfg) then cfg.SrcWidth() else 0,
                      l * DstStride(cfg), l * SrcStride(cfg))
  {
    hide LinesDone;
    hide DstStride;
    hide SrcStride;
    hide Consumes;
    var s := if Consumes(cfg) then cfg.SrcWidth() else 0;
    if l == 0 {
      ZeroWords(cfg, d);
      assert l * cfg.width == 0 && l * DstStride(cfg) == 0 && l * SrcStride(cfg) == 0 && l * s == 0;
    } else {
      ManyLines(cfg, d, l - 1);
      LineMore(cfg, d, l - 1, (l - 1) * cfg.width, (l - 1) * s, (l - 1) * DstStride(cfg), (l - 1) * SrcStride(cfg));
      Times(l, cfg.width);
      Times(l, s);
      Times(l, DstStride(cfg));
      Times(l, SrcStride(cfg));
    }
  }

  lemma ZeroWords(cfg: Config, d: Core)
    requires AtLineStart(cfg, d)
    ensures Iter(cfg, d, 0) == d && LinesDone(cfg, d, 0, 0, 0, 0, 0)
  {
  }
}
