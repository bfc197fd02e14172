/** The blitter as its users see it: a rectangle is painted with a halftone pattern, or with words of the source,
    shifted by `skew` bits, or with both, under the end masks. */
module BlitterCopy {
  import opened Utils
  import opened Words
  import opened Blitter
  import opened BlitterLaws
  import opened BlitterLines

  /** A blit that uses the source, with the extra first fetch that a shifted line needs, or without a shift. */
  predicate PlainCopy(cfg: Config) {
    Consumes(cfg) && !cfg.nfsr && (cfg.fxsr || (cfg.skew == 0 && cfg.srcXInc >= 0))
  }

  /** Where word `i` of the words that line `l` shifts comes from. Without the extra fetch there is no word 0. */
  function SourceCell(cfg: Config, d: Core, l: nat, i: nat): int {
    Wrap32(d.srcAddr + l * SrcStride(cfg) + (if cfg.fxsr then i else i - 1) * cfg.srcXInc)
  }

  function FirstWord(cfg: Config): nat { if cfg.fxsr then 0 else 1 }

  function DestCell(cfg: Config, d: Core, l: nat, j: nat): int {
    Wrap32(d.dstAddr + l * DstStride(cfg) + j * cfg.dstXInc)
  }

  function MaskAt(cfg: Config, j: nat): Word {
    if j == 0 then cfg.endMask1 else if j == cfg.width - 1 then cfg.endMask3 else cfg.endMask2
  }

  /** No word is written twice. */
  ghost predicate OnceEach(cfg: Config, d: Core) {
    forall l: nat, j: nat, m: nat, k: nat
      | l < d.lines && j < cfg.width && m < d.lines && k < cfg.width
        && DestCell(cfg, d, l, j) == DestCell(cfg, d, m, k) ::
      l == m && j == k
  }

  /** No word is written twice, and no word is written that the blit also reads as source. */
  ghost predicate NoOverlap(cfg: Config, d: Core) {
    && OnceEach(cfg, d)
    && (forall l: nat, j: nat, m: nat, i: nat
          | l < d.lines && j < cfg.width && m < d.lines && FirstWord(cfg) <= i <= cfg.width ::
          DestCell(cfg, d, l, j) != SourceCell(cfg, d, m, i))
  }

  lemma UnvisitedWord(cfg: Config, d: Core, n: nat, a: int)
    requires WellFormed(cfg, d) && n <= Remaining(cfg, d)
    requires forall i | 0 <= i < n :: Iter(cfg, d, i).dstAddr != a
    ensures Read(Iter(cfg, d, n).memory, a) == Read(d.memory, a)
    ensures Iter(cfg, d, n).memory.Keys == d.memory.Keys
  {
    hide Iter;
    hide EndMask;
    hide Read;
    forall k | 0 <= k < 16 ensures Read(Iter(cfg, d, n).memory, a)[k] == Read(d.memory, a)[k] {
      UntouchedBit(cfg, d, n, a, k);
    }
    UntouchedBit(cfg, d, n, a, 0);
  }

  /** The machine `j` words into line `l`. */
  lemma LinePosition(cfg: Config, d: Core, l: nat, j: nat)
    requires AtLineStart(cfg, d) && l < d.lines && j <= cfg.width
    ensures l * cfg.width + j <= Remaining(cfg, d)
    ensures var dl := Iter(cfg, d, l * cfg.width);
            && AtLineStart(cfg, dl) && j <= Remaining(cfg, dl)
            && Iter(cfg, d, l * cfg.width + j) == Iter(cfg, dl, j)
            && dl.srcAddr == Wrap32(d.srcAddr + l * SrcStride(cfg))
            && dl.dstAddr == Wrap32(d.dstAddr + l * DstStride(cfg))
            && dl.line == LineAfter(cfg, d.line, l)
  {
    hide Iter;
    hide FetchCount;
    ManyLines(cfg, d, l);
    var dl := Iter(cfg, d, l * cfg.width);
    WordsLeft(cfg, dl, j);
    IterAdd(cfg, d, l * cfg.width, j);
  }

  /** Line `l` reads its stream from the memory that the blit started with. */
  lemma StreamFromStart(cfg: Config, d: Core, l: nat, i: nat)
    requires AtLineStart(cfg, d) && PlainCopy(cfg) && NoOverlap(cfg, d) && l < d.lines
      && FirstWord(cfg) <= i <= cfg.width
    ensures l * cfg.width <= Remaining(cfg, d) && AtLineStart(cfg, Iter(cfg, d, l * cfg.width))
    ensures StreamWord(cfg, Iter(cfg, d, l * cfg.width), i) == Read(d.memory, SourceCell(cfg, d, l, i))
  {
    hide Iter;
    hide Read;
    hide SrcStride;
    hide Wrap32;
    hide Remaining;
    hide NoOverlap;
    hide LineAfter;
    hide Consumes;
    var i' := if i == 0 then 0 else i - 1;
    LinePosition(cfg, d, l, i');
    var dl := Iter(cfg, d, l * cfg.width);
    WrapAdd(d.srcAddr + l * SrcStride(cfg), (if cfg.fxsr then i else i - 1) * cfg.srcXInc);
    SourceNotWritten(cfg, d, l, i);
    UnvisitedWord(cfg, d, l * cfg.width + i', SourceCell(cfg, d, l, i));
  }

  /** Every step writes one cell of the destination. */
  lemma PlaceOf(cfg: Config, d: Core, n: nat) returns (l: nat, j: nat)
    requires AtLineStart(cfg, d) && n < Remaining(cfg, d)
    ensures n == l * cfg.width + j && l < d.lines && j < cfg.width
    ensures Iter(cfg, d, n).dstAddr == DestCell(cfg, d, l, j)
  {
    hide Iter;
    hide DestCell;
    l := Quotient(n, cfg.width);
    j := n - l * cfg.width;
    if l >= d.lines {
      Monotone(cfg.width, d.lines, l);
      Times(d.lines, cfg.width);
    }
    CopiedPlace(cfg, d, l, j);
  }

  lemma SourceNotWritten(cfg: Config, d: Core, l: nat, i: nat)
    requires AtLineStart(cfg, d) && NoOverlap(cfg, d) && l < d.lines && FirstWord(cfg) <= i <= cfg.width
    ensures forall n | 0 <= n < Remaining(cfg, d) :: Iter(cfg, d, n).dstAddr != SourceCell(cfg, d, l, i)
  {
    hide Iter;
    hide DestCell;
    hide SourceCell;
    hide Remaining;
    forall n | 0 <= n < Remaining(cfg, d) ensures Iter(cfg, d, n).dstAddr != SourceCell(cfg, d, l, i) {
      var m, j := PlaceOf(cfg, d, n);
    }
  }

  lemma WrittenOnce(cfg: Config, d: Core, n: nat)
    requires AtLineStart(cfg, d) && OnceEach(cfg, d) && n < Remaining(cfg, d)
    ensures forall m | 0 <= m < Remaining(cfg, d) && m != n :: Iter(cfg, d, m).dstAddr != Iter(cfg, d, n).dstAddr
  {
    hide Iter;
    hide DestCell;
    hide SourceCell;
    hide Remaining;
    var l, j := PlaceOf(cfg, d, n);
    forall m | 0 <= m < Remaining(cfg, d) && m != n ensures Iter(cfg, d, m).dstAddr != Iter(cfg, d, n).dstAddr {
      var i, k := PlaceOf(cfg, d, m);
    }
  }

  /** Where word `j` of line `l` goes, and under which mask. */
  lemma CopiedPlace(cfg: Config, d: Core, l: nat, j: nat)
    requires AtLineStart(cfg, d) && l < d.lines && j < cfg.width
    ensures l * cfg.width + j < Remaining(cfg, d)
    ensures var p := Iter(cfg, d, l * cfg.width + j);
            p.dstAddr == DestCell(cfg, d, l, j) && EndMask(cfg, p) == MaskAt(cfg, j)
            && p.line == LineAfter(cfg, d.line, l)
  {
    hide Iter;
    hide Remaining;
    hide Wrap32;
    hide DstStride;
    hide SrcStride;
    LinePosition(cfg, d, l, j + 1);
    LinePosition(cfg, d, l, j);
    LineDestination(cfg, Iter(cfg, d, l * cfg.width), j);
    WrapAdd(d.dstAddr + l * DstStride(cfg), j * cfg.dstXInc);
  }

  /** What it sees of the source there. */
  lemma CopiedWord(cfg: Config, d: Core, l: nat, j: nat)
    requires AtLineStart(cfg, d) && PlainCopy(cfg) && NoOverlap(cfg, d) && l < d.lines && j < cfg.width
    ensures l * cfg.width + j < Remaining(cfg, d)
    ensures SourceWord(cfg, Iter(cfg, d, l * cfg.width + j))
         == Extract(Pack(cfg, Read(d.memory, SourceCell(cfg, d, l, j)),
                         Read(d.memory, SourceCell(cfg, d, l, j + 1))), cfg.skew)
  {
    hide Iter;
    hide Remaining;
    hide NoOverlap;
    hide StreamWord;
    hide SourceAfter;
    hide SourceCell;
    hide Read;
    hide Pack;
    LinePosition(cfg, d, l, j + 1);
    LinePosition(cfg, d, l, j);
    LineWords(cfg, Iter(cfg, d, l * cfg.width), j);
    StreamFromStart(cfg, d, l, j + 1);
    if FirstWord(cfg) <= j {
      StreamFromStart(cfg, d, l, j);
    } else {
      LowWord(cfg, StreamWord(cfg, Iter(cfg, d, l * cfg.width), j), Read(d.memory, SourceCell(cfg, d, l, j)),
              Read(d.memory, SourceCell(cfg, d, l, j + 1)));
    }
  }

  /** Without a shift only the second word of the window is seen. */
  lemma LowWord(cfg: Config, a: Word, a': Word, b: Word)
    requires cfg.srcXInc >= 0
    ensures Extract(Pack(cfg, a, b), 0) == Extract(Pack(cfg, a', b), 0)
  {
  }

  /** Word `j` of line `l` at the end of the blit, in terms of the operand it was written with. */
  lemma BlitBit(cfg: Config, d: Core, l: nat, j: nat, k: nat)
    requires AtLineStart(cfg, d) && OnceEach(cfg, d)
    requires l < d.lines && j < cfg.width && k < 16 && DestCell(cfg, d, l, j) in d.memory
    ensures l * cfg.width + j < Remaining(cfg, d)
    ensures var a, p := DestCell(cfg, d, l, j), Iter(cfg, d, l * cfg.width + j);
            && p.line == LineAfter(cfg, d.line, l)
            && Read(Iter(cfg, d, Remaining(cfg, d)).memory, a)[k]
               == if MaskAt(cfg, j)[k] then TruthTable(cfg.lop, HopWord(cfg, p)[k], Read(d.memory, a)[k])
                  else Read(d.memory, a)[k]
  {
    hide Iter;
    hide EndMask;
    hide HopWord;
    hide DestCell;
    hide MaskAt;
    hide Remaining;
    hide StepF;
    hide OnceEach;
    hide TruthTable;
    hide LineAfter;
    CopiedPlace(cfg, d, l, j);
    var n := l * cfg.width + j;
    var p := Iter(cfg, d, n);
    var a := DestCell(cfg, d, l, j);
    WrittenOnce(cfg, d, n);
    UnvisitedWord(cfg, d, n, a);
    OneStep(cfg, d, n);
    MaskedWriteBit(cfg, p, k);
    RestUnvisited(cfg, d, n, a);
  }

  /** A whole blit without the source: every selected bit is combined with one, or with the bit of the halftone word
      that belongs to its line, which begins with the line number of the control register and goes up or down with
      the destination. Every other bit keeps its value. */
  lemma BlitPaints(cfg: Config, d: Core, l: nat, j: nat, k: nat)
    requires AtLineStart(cfg, d) && OnceEach(cfg, d) && (cfg.hop == 0 || (cfg.hop == 1 && !cfg.smudge))
    requires l < d.lines && j < cfg.width && k < 16 && DestCell(cfg, d, l, j) in d.memory
    ensures var a := DestCell(cfg, d, l, j);
            var line := (if cfg.dstYInc >= 0 then d.line + l else d.line - l) % 16;
            var operand := cfg.hop == 0 || cfg.halftone[line][k];
            Read(Iter(cfg, d, Remaining(cfg, d)).memory, a)[k]
            == if MaskAt(cfg, j)[k] then TruthTable(cfg.lop, operand, Read(d.memory, a)[k]) else Read(d.memory, a)[k]
  {
    hide Iter;
    hide DestCell;
    hide MaskAt;
    hide Remaining;
    hide OnceEach;
    hide TruthTable;
    BlitBit(cfg, d, l, j, k);
  }

  /** The number that the four lowest bits of a word spell. */
  function LowBits(w: Word): (n: nat)
    ensures n < 16
  {
    var bit := (b: bool) => if b then 1 else 0;
    8 * bit(w[12]) + 4 * bit(w[13]) + 2 * bit(w[14]) + bit(w[15])
  }

  /** A whole blit of the source without overlap: every selected bit of every destination word is combined with the bit
      of the original source that the skew moves there, or with a bit of a halftone word, or with both of them. With
      smudge it is the shifted source word that says which halftone word. */
  lemma BlitCopies(cfg: Config, d: Core, l: nat, j: nat, k: nat)
    requires AtLineStart(cfg, d) && PlainCopy(cfg) && NoOverlap(cfg, d)
    requires l < d.lines && j < cfg.width && k < 16 && DestCell(cfg, d, l, j) in d.memory
    ensures var a := DestCell(cfg, d, l, j);
            var window := Pack(cfg, Read(d.memory, SourceCell(cfg, d, l, j)),
                                    Read(d.memory, SourceCell(cfg, d, l, j + 1)));
            var source := Extract(window, cfg.skew);
            var line := if cfg.smudge then LowBits(source)
                        else (if cfg.dstYInc >= 0 then d.line + l else d.line - l) % 16;
            var operand := if cfg.hop == 2 then source[k]
                           else if cfg.hop == 1 then cfg.halftone[line][k]
                           else source[k] && cfg.halftone[line][k];
            Read(Iter(cfg, d, Remaining(cfg, d)).memory, a)[k]
            == if MaskAt(cfg, j)[k] then TruthTable(cfg.lop, operand, Read(d.memory, a)[k]) else Read(d.memory, a)[k]
  {
    hide Iter;
    hide SourceWord;
    hide SourceCell;
    hide DestCell;
    hide MaskAt;
    hide Remaining;
    hide Pack;
    hide NoOverlap;
    hide TruthTable;
    Overlaps(cfg, d);
    BlitBit(cfg, d, l, j, k);
    CopiedWord(cfg, d, l, j);
  }

  lemma Overlaps(cfg: Config, d: Core)
    requires NoOverlap(cfg, d)
    ensures OnceEach(cfg, d)
  {
  }

  lemma OneStep(cfg: Config, d: Core, n: nat)
    requires WellFormed(cfg, d) && n < Remaining(cfg, d)
    ensures Iter(cfg, d, n).lines > 0 && Iter(cfg, d, n + 1) == StepF(cfg, Iter(cfg, d, n))
  {
    hide StepF;
  }

  /** A word that was written at step `n` and is not written again keeps its value. */
  lemma RestUnvisited(cfg: Config, d: Core, n: nat, a: int)
    requires AtLineStart(cfg, d) && OnceEach(cfg, d) && n < Remaining(cfg, d) && Iter(cfg, d, n).dstAddr == a
    ensures Read(Iter(cfg, d, Remaining(cfg, d)).memory, a) == Read(Iter(cfg, d, n + 1).memory, a)
  {
    hide Iter;
    hide Read;
    hide Remaining;
    hide OnceEach;
    var q := Iter(cfg, d, n + 1);
    var rest := Remaining(cfg, d) - (n + 1);
    WrittenOnce(cfg, d, n);
    forall i | 0 <= i < rest ensures Iter(cfg, q, i).dstAddr != a {
      IterAdd(cfg, d, n + 1, i);
    }
    IterAdd(cfg, d, n + 1, rest);
    UnvisitedWord(cfg, q, rest, a);
  }
}
