/** The blitter of src/blitter.c: a block transfer engine that fetches source words
    through a 32 bit skew window, combines them with a halftone pattern and the
    destination, and can stop after any word and resume later.

    `Core` and `StepF` say what one destination word does to the machine, in terms of
    the position of the word in its line. The class below has the fields and the
    memoising methods of the program and is proved to implement them. */
module Blitter {
  import opened Words

  // ------------------------------------------------------------------ memory

  /** Word memory. An address outside the map lies in a bus error region. */
  type Memory = map<int, Word>

  function Read(memory: Memory, addr: int): Word {
    if addr in memory then memory[addr] else ZERO
  }

  function Write(memory: Memory, addr: int, value: Word): Memory {
    if addr in memory then memory[addr := value] else memory
  }

  // ------------------------------------------------------- configuration and state

  /** The registers that a blit only reads. `width` is the number of destination words in a line. */
  datatype Config = Config(
    srcXInc: int, srcYInc: int, dstXInc: int, dstYInc: int,
    endMask1: Word, endMask2: Word, endMask3: Word,
    hop: nat, lop: nat, fxsr: bool, nfsr: bool, skew: nat, smudge: bool,
    width: nat, halftone: seq<Word>)
  {
    predicate Valid() {
      && hop < 4 && lop < 16 && skew < 16
      && 1 <= width <= 65536 && |halftone| == 16
    }

    /** Source words fetched in one line. */
    function SrcWidth(): int {
      width + (if fxsr then 1 else 0) - (if nfsr then 1 else 0)
    }
  }

  /** The part of the machine that a blit changes. `words` counts down inside a line, `lines` to the end. */
  datatype Core = Core(
    srcAddr: int, dstAddr: int, words: nat, lines: nat,
    buffer: Long, srcWords: int, line: nat, memory: Memory)

  predicate WellFormed(cfg: Config, d: Core) {
    cfg.Valid() && 1 <= d.words <= cfg.width && d.line < 16
    && 0 <= d.srcAddr < TWO_TO_32 && 0 <= d.dstAddr < TWO_TO_32
  }

  // ------------------------------------------------------------- source side

  /** Where the next source word comes from, how many are left in the line, and the skew window. */
  datatype Window = Window(addr: int, left: int, buffer: Long)

  function Shift(cfg: Config, buffer: Long): Long {
    if cfg.srcXInc < 0 then ShiftRight16(buffer) else ShiftLeft16(buffer)
  }

  function Insert(cfg: Config, buffer: Long, w: Word): Long {
    if cfg.srcXInc < 0 then OrHigh(buffer, w) else OrLow(buffer, w)
  }

  function Fetch(cfg: Config, memory: Memory, win: Window): Window {
    var buffer := Insert(cfg, win.buffer, Read(memory, win.addr));
    if win.left == 1 then
      Window(Wrap32(win.addr + cfg.srcYInc), win.left, buffer)
    else
      Window(Wrap32(win.addr + cfg.srcXInc), Wrap32(win.left - 1), buffer)
  }

  function Shifted(cfg: Config, win: Window): Window {
    win.(buffer := Shift(cfg, win.buffer))
  }

  predicate First(cfg: Config, d: Core) { d.words == cfg.width }

  predicate Last(d: Core) { d.words == 1 }

  /** Only the first word of a line can need an extra fetch, only the last can do without one. */
  predicate ExtraFetch(cfg: Config, d: Core) { cfg.fxsr && First(cfg, d) }

  predicate NoFetch(cfg: Config, d: Core) { cfg.nfsr && Last(d) }

  function SourceBefore(cfg: Config, d: Core): Window {
    Window(d.srcAddr, if First(cfg, d) then cfg.SrcWidth() else d.srcWords, d.buffer)
  }

  function SourceAfter(cfg: Config, d: Core): Window {
    var w0 := SourceBefore(cfg, d);
    var w1 := if ExtraFetch(cfg, d) then Fetch(cfg, d.memory, Shifted(cfg, w0)) else w0;
    var w2 := Shifted(cfg, w1);
    if NoFetch(cfg, d) then w2 else Fetch(cfg, d.memory, w2)
  }

  function Fetches(cfg: Config, d: Core): nat {
    (if ExtraFetch(cfg, d) then 1 else 0) + (if NoFetch(cfg, d) then 0 else 1)
  }

  function SourceWord(cfg: Config, d: Core): Word
    requires cfg.skew < 16
  {
    Extract(SourceAfter(cfg, d).buffer, cfg.skew)
  }

  // ------------------------------------------------------- halftone and logic operations

  predicate HopReadsSource(cfg: Config) {
    cfg.hop == 2 || cfg.hop == 3 || (cfg.hop == 1 && cfg.smudge)
  }

  predicate LopReadsHop(lop: nat) { lop != 0 && lop != 5 && lop != 10 && lop != 15 }

  predicate LopReadsDest(lop: nat) { lop != 0 && lop != 3 && lop != 12 && lop != 15 }

  /** Whether a blit with these registers fetches source words at all. */
  predicate Consumes(cfg: Config) { LopReadsHop(cfg.lop) && HopReadsSource(cfg) }

  function HalftoneWord(cfg: Config, d: Core): Word
    requires cfg.Valid() && d.line < 16
  {
    cfg.halftone[if cfg.smudge then Nibble(SourceWord(cfg, d)) else d.line]
  }

  function HopWord(cfg: Config, d: Core): Word
    requires cfg.Valid() && d.line < 16
  {
    match cfg.hop
    case 0 => ONES
    case 1 => HalftoneWord(cfg, d)
    case 2 => SourceWord(cfg, d)
    case _ => And(SourceWord(cfg, d), HalftoneWord(cfg, d))
  }

  /** The formula of each of the sixteen logic operations. */
  function LogicOp(lop: nat, h: Word, d: Word): Word {
    match lop
    case 0 => ZERO
    case 1 => And(h, d)
    case 2 => And(h, Not(d))
    case 3 => h
    case 4 => And(Not(h), d)
    case 5 => d
    case 6 => Xor(h, d)
    case 7 => Or(h, d)
    case 8 => And(Not(h), Not(d))
    case 9 => Xor(Not(h), d)
    case 10 => Not(d)
    case 11 => Or(h, Not(d))
    case 12 => Not(h)
    case 13 => Or(Not(h), d)
    case 14 => Or(Not(h), Not(d))
    case _ => ONES
  }

  function Merge(written: Word, kept: Word, mask: Word): Word {
    Or(And(written, mask), And(kept, Not(mask)))
  }

  function EndMask(cfg: Config, d: Core): Word {
    if First(cfg, d) then cfg.endMask1 else if Last(d) then cfg.endMask3 else cfg.endMask2
  }

  function WordWritten(cfg: Config, d: Core): Word
    requires cfg.Valid() && d.line < 16
  {
    Merge(LogicOp(cfg.lop, HopWord(cfg, d), Read(d.memory, d.dstAddr)),
          Read(d.memory, d.dstAddr), EndMask(cfg, d))
  }

  // ------------------------------------------------------------------ one word

  function NextLine(cfg: Config, line: nat): nat {
    if cfg.dstYInc >= 0 then (line + 1) % 16 else (line + 15) % 16
  }

  /** Fetch, combine, write, and move the addresses on. */
  function WordF(cfg: Config, d: Core): (r: Core)
    requires WellFormed(cfg, d)
    ensures WellFormed(cfg, r) && r.lines == d.lines && r.words == (if Last(d) then 1 else d.words - 1)
  {
    var win := if Consumes(cfg) then SourceAfter(cfg, d) else SourceBefore(cfg, d);
    var memory := Write(d.memory, d.dstAddr, WordWritten(cfg, d));
    if Last(d) then
      Core(win.addr, Wrap32(d.dstAddr + cfg.dstYInc), d.words, d.lines, win.buffer, win.left, d.line, memory)
    else
      Core(win.addr, Wrap32(d.dstAddr + cfg.dstXInc), d.words - 1, d.lines, win.buffer, win.left, d.line, memory)
  }

  function EndLineF(cfg: Config, d: Core): (r: Core)
    requires WellFormed(cfg, d) && d.lines > 0
    ensures WellFormed(cfg, r)
  {
    d.(lines := d.lines - 1, words := cfg.width, line := NextLine(cfg, d.line))
  }

  function StepF(cfg: Config, d: Core): (r: Core)
    requires WellFormed(cfg, d) && d.lines > 0
    ensures WellFormed(cfg, r)
  {
    if Last(d) then EndLineF(cfg, WordF(cfg, d)) else WordF(cfg, d)
  }

  /** Bus cycles of one word: four for every read or write. */
  function StepCycles(cfg: Config, d: Core): nat {
    4 * ((if Consumes(cfg) then Fetches(cfg, d) else 0)
         + (if LopReadsDest(cfg.lop) || NoFetch(cfg, d) || EndMask(cfg, d) != ONES then 1 else 0)
         + 1)
  }

  /** Words that are left to write: the termination measure of a blit. */
  function Remaining(cfg: Config, d: Core): nat {
    if d.lines == 0 then 0 else (d.lines - 1) * cfg.width + d.words
  }

  lemma StepDecreases(cfg: Config, d: Core)
    requires WellFormed(cfg, d) && d.lines > 0
    ensures Remaining(cfg, StepF(cfg, d)) == Remaining(cfg, d) - 1
  {
    if Last(d) && d.lines > 1 {
      assert (d.lines - 1) * cfg.width == (d.lines - 2) * cfg.width + cfg.width;
    }
  }

  const NONHOG_CYCLES := 256

  /** Number of words that one call of the engine writes when it has already used `pass` cycles. */
  function SliceLength(cfg: Config, hog: bool, d: Core, pass: nat): (k: nat)
    requires WellFormed(cfg, d) && d.lines > 0
    ensures 1 <= k <= Remaining(cfg, d)
    decreases Remaining(cfg, d)
  {
    var d' := StepF(cfg, d);
    var pass' := pass + StepCycles(cfg, d);
    StepDecreases(cfg, d);
    if d'.lines > 0 && (hog || pass' < NONHOG_CYCLES) then
      1 + SliceLength(cfg, hog, d', pass')
    else 1
  }

  /** The machine after `n` words. */
  function Iter(cfg: Config, d: Core, n: nat): (r: Core)
    requires WellFormed(cfg, d) && n <= Remaining(cfg, d)
    ensures WellFormed(cfg, r) && Remaining(cfg, r) == Remaining(cfg, d) - n
  {
    if n == 0 then d
    else
      var p := Iter(cfg, d, n - 1);
      StepDecreases(cfg, p);
      StepF(cfg, p)
  }

  // ------------------------------------------------------------------ the program

  /** The control register; its unused bit always reads as zero. */
  datatype Control = Control(busy: bool, hog: bool, smudge: bool, line: nat)

  function ControlAfter(c: Control, line: nat, lines: nat): Control {
    if lines == 0 then Control(false, false, c.smudge, line) else c.(line := line)
  }

  // ------------------------------------------------------------------ the engine

  class Engine {
    // registers and variables that a blit only reads
    var cfg: Config
    var hog: bool
    // registers that a blit counts with
    var srcAddr: int
    var dstAddr: int
    var words: nat
    var lines: nat
    var ctrl: Control
    // variables kept between calls
    var passCycles: nat
    var opCycles: nat
    var buffer: Long
    var srcWordsReset: int
    var srcWords: int
    var line: nat
    // state of the word being processed
    var srcWord: Word
    var dstWord: Word
    var endMask: Word
    var haveSrc: bool
    var haveDst: bool
    var wordFxsr: bool
    var wordNfsr: bool
    // surroundings
    var memory: Memory
    // the machine and its cycle count when the current word was begun
    ghost var begun: Core
    ghost var begunCycles: nat

    ghost function State(): Core
      reads this
    {
      Core(srcAddr, dstAddr, words, lines, buffer, srcWords, line, memory)
    }

    ghost predicate Valid()
      reads this
    {
      WellFormed(cfg, State())
    }

    /** Between two words of a blit. */
    ghost predicate Ready()
      reads this
    {
      Valid() && srcWordsReset == cfg.SrcWidth()
    }

    /** Inside a word: what has been fetched so far is what `SourceAfter` and `Read` promise. */
    ghost predicate InWord()
      reads this
    {
      && Valid()
      && begun.dstAddr == dstAddr && begun.words == words && begun.lines == lines
      && begun.line == line && begun.memory == memory
      && endMask == EndMask(cfg, begun)
      && wordFxsr == ExtraFetch(cfg, begun) && wordNfsr == NoFetch(cfg, begun)
      && (if haveSrc then
            Window(srcAddr, srcWords, buffer) == SourceAfter(cfg, begun) && srcWord == SourceWord(cfg, begun)
          else
            Window(srcAddr, srcWords, buffer) == SourceBefore(cfg, begun))
      && (haveDst ==> dstWord == Read(memory, dstAddr))
      && opCycles == begunCycles + 4 * ((if haveSrc then Fetches(cfg, begun) else 0) + (if haveDst then 1 else 0))
    }

    method AddCycles(cycles: nat)
      modifies `opCycles
      ensures opCycles == old(opCycles) + cycles
    {
      opCycles := opCycles + cycles;
    }

    /** Charges the cycles of the last operation; interrupts that become due here do not touch the blitter. */
    method FlushCycles()
      modifies `passCycles, `opCycles
      ensures passCycles == old(passCycles) + old(opCycles) && opCycles == 0
    {
      passCycles := passCycles + opCycles;
      opCycles := 0;
    }

    /** Switching the bus between processor and blitter. */
    method BusArbitration(cycles: nat)
      requires opCycles == 0
      modifies `passCycles, `opCycles
      ensures passCycles == old(passCycles) + cycles && opCycles == 0
    {
      if cycles > 0 {
        AddCycles(cycles);
        FlushCycles();
      }
    }

    method ReadWord(addr: int) returns (value: Word)
      modifies `opCycles
      ensures value == Read(memory, addr) && opCycles == old(opCycles) + 4
    {
      if addr !in memory {
        value := ZERO;
      } else {
        value := memory[addr];
      }
      AddCycles(4);
    }

    method WriteWord(addr: int, value: Word)
      modifies `memory, `opCycles
      ensures memory == Write(old(memory), addr, value) && opCycles == old(opCycles) + 4
    {
      if addr in memory {
        memory := memory[addr := value];
      }
      AddCycles(4);
    }

    method SourceShift()
      modifies `buffer
      ensures buffer == Shift(cfg, old(buffer))
    {
      if cfg.srcXInc < 0 {
        buffer := ShiftRight16(buffer);
      } else {
        buffer := ShiftLeft16(buffer);
      }
    }

    method SourceFetch()
      modifies `buffer, `srcAddr, `srcWords, `opCycles
      ensures Window(srcAddr, srcWords, buffer)
           == Fetch(cfg, memory, Window(old(srcAddr), old(srcWords), old(buffer)))
      ensures 0 <= srcAddr < TWO_TO_32
      ensures opCycles == old(opCycles) + 4
    {
      var w := ReadWord(srcAddr);
      if cfg.srcXInc < 0 {
        buffer := OrHigh(buffer, w);
      } else {
        buffer := OrLow(buffer, w);
      }
      if srcWords == 1 {
        srcAddr := Wrap32(srcAddr + cfg.srcYInc);
      } else {
        srcWords := Wrap32(srcWords - 1);
        srcAddr := Wrap32(srcAddr + cfg.srcXInc);
      }
    }

    /** The source word, fetched at most once for every destination word. */
    method SourceRead() returns (w: Word)
      requires InWord()
      modifies `buffer, `srcAddr, `srcWords, `opCycles, `srcWord, `haveSrc
      ensures InWord() && haveSrc && w == SourceWord(cfg, begun)
    {
      hide Fetch;
      hide Shift;
      hide Read;
      hide EndMask;
      if !haveSrc {
        if wordFxsr {
          SourceShift();
          SourceFetch();
        }
        SourceShift();
        if !wordNfsr {
          SourceFetch();
        }
        srcWord := Extract(buffer, cfg.skew);
        haveSrc := true;
      }
      w := srcWord;
    }

    method GetHalftoneWord() returns (w: Word)
      requires InWord()
      modifies `buffer, `srcAddr, `srcWords, `opCycles, `srcWord, `haveSrc
      ensures InWord() && w == HalftoneWord(cfg, begun) && haveSrc == (old(haveSrc) || cfg.smudge)
    {
      if cfg.smudge {
        var s := SourceRead();
        w := cfg.halftone[Nibble(s)];
      } else {
        w := cfg.halftone[line];
      }
    }

    method ComputeHop() returns (w: Word)
      requires InWord()
      modifies `buffer, `srcAddr, `srcWords, `opCycles, `srcWord, `haveSrc
      ensures InWord() && w == HopWord(cfg, begun)
      ensures haveSrc == (old(haveSrc) || HopReadsSource(cfg))
    {
      hide SourceAfter;
      hide SourceBefore;
      hide EndMask;
      hide Fetches;
      hide Read;
      match cfg.hop
      case 0 =>
        w := ONES;
      case 1 =>
        w := GetHalftoneWord();
      case 2 =>
        w := SourceRead();
      case _ =>
        var s := SourceRead();
        var h := GetHalftoneWord();
        w := And(s, h);
    }

    method DestRead() returns (w: Word)
      requires InWord()
      modifies `opCycles, `dstWord, `haveDst
      ensures InWord() && haveDst && w == Read(memory, dstAddr)
    {
      if !haveDst {
        dstWord := ReadWord(dstAddr);
        haveDst := true;
      }
      w := dstWord;
    }

    method ComputeLop() returns (w: Word)
      requires InWord()
      modifies `buffer, `srcAddr, `srcWords, `opCycles, `srcWord, `haveSrc, `dstWord, `haveDst
      ensures InWord() && w == LogicOp(cfg.lop, HopWord(cfg, begun), Read(memory, dstAddr))
      ensures haveSrc == (old(haveSrc) || Consumes(cfg))
      ensures haveDst == (old(haveDst) || LopReadsDest(cfg.lop))
    {
      hide SourceAfter;
      hide SourceBefore;
      hide HopWord;
      hide EndMask;
      hide Fetches;
      hide Read;
      var h, d := ZERO, ZERO;
      if LopReadsHop(cfg.lop) {
        h := ComputeHop();
      }
      if LopReadsDest(cfg.lop) {
        d := DestRead();
      }
      match cfg.lop
      case 0 => w := ZERO;
      case 1 => w := And(h, d);
      case 2 => w := And(h, Not(d));
      case 3 => w := h;
      case 4 => w := And(Not(h), d);
      case 5 => w := d;
      case 6 => w := Xor(h, d);
      case 7 => w := Or(h, d);
      case 8 => w := And(Not(h), Not(d));
      case 9 => w := Xor(Not(h), d);
      case 10 => w := Not(d);
      case 11 => w := Or(h, Not(d));
      case 12 => w := Not(h);
      case 13 => w := Or(Not(h), d);
      case 14 => w := Or(Not(h), Not(d));
      case _ => w := ONES;
    }

    method ComputeMask() returns (w: Word)
      requires InWord()
      modifies `buffer, `srcAddr, `srcWords, `opCycles, `srcWord, `haveSrc, `dstWord, `haveDst
      ensures InWord() && w == WordWritten(cfg, begun)
      ensures haveSrc == (old(haveSrc) || Consumes(cfg)) && haveDst
    {
      hide SourceAfter;
      hide SourceBefore;
      hide HopWord;
      hide EndMask;
      hide Fetches;
      hide Read;
      hide LogicOp;
      var l := ComputeLop();
      var d := DestRead();
      w := Or(And(l, endMask), And(d, Not(endMask)));
    }

    method ProcessWord()
      requires InWord() && Ready() && lines > 0 && !haveSrc && !haveDst
      modifies `buffer, `srcAddr, `srcWords, `opCycles, `srcWord, `haveSrc, `dstWord, `haveDst,
               `memory, `words, `dstAddr
      ensures Ready() && State() == WordF(cfg, begun) && begun == old(begun)
      ensures opCycles == begunCycles + StepCycles(cfg, begun)
    {
      hide SourceAfter;
      hide SourceBefore;
      hide HopWord;
      hide LogicOp;
      hide Read;
      hide SourceWord;
      hide Write;
      var data;
      if wordNfsr || endMask != ONES {
        data := ComputeMask();
      } else {
        data := ComputeLop();
        assert data == WordWritten(cfg, begun);
      }
      WriteWord(dstAddr, data);
      if words == 1 {
        dstAddr := Wrap32(dstAddr + cfg.dstYInc);
      } else {
        words := words - 1;
        dstAddr := Wrap32(dstAddr + cfg.dstXInc);
      }
    }

    method EndLine()
      requires Valid() && lines > 0
      modifies `lines, `words, `line
      ensures Valid() && State() == EndLineF(cfg, old(State()))
    {
      lines := lines - 1;
      words := cfg.width;
      if cfg.dstYInc >= 0 {
        line := (line + 1) % 16;
      } else {
        line := (line + 15) % 16;
      }
    }

    method BeginLine()
      modifies `srcWords
      ensures srcWords == srcWordsReset
    {
      srcWords := srcWordsReset;
    }

    method SetState(fxsr: bool, nfsr: bool, mask: Word)
      modifies `endMask, `haveSrc, `haveDst, `wordFxsr, `wordNfsr
      ensures endMask == mask && !haveSrc && !haveDst && wordFxsr == fxsr && wordNfsr == nfsr
    {
      endMask := mask;
      haveSrc := false;
      haveDst := false;
      wordFxsr := fxsr;
      wordNfsr := nfsr;
    }

    /** The only word of a line. */
    method SingleWord()
      requires Ready() && lines > 0 && cfg.width == 1
      modifies `buffer, `srcAddr, `srcWords, `opCycles, `srcWord, `haveSrc, `dstWord, `haveDst,
               `memory, `words, `dstAddr, `lines, `line, `endMask, `wordFxsr, `wordNfsr,
               `begun, `begunCycles
      ensures Ready() && State() == StepF(cfg, old(State()))
      ensures opCycles == old(opCycles) + StepCycles(cfg, old(State()))
    {
      hide SourceAfter;
      hide SourceWord;
      hide WordF;
      hide StepCycles;
      begun := State();
      begunCycles := opCycles;
      BeginLine();
      SetState(cfg.fxsr, cfg.nfsr, cfg.endMask1);
      ProcessWord();
      EndLine();
    }

    /** The first word of a line of several. */
    method FirstWord()
      requires Ready() && lines > 0 && words == cfg.width > 1
      modifies `buffer, `srcAddr, `srcWords, `opCycles, `srcWord, `haveSrc, `dstWord, `haveDst,
               `memory, `words, `dstAddr, `lines, `line, `endMask, `wordFxsr, `wordNfsr,
               `begun, `begunCycles
      ensures Ready() && State() == StepF(cfg, old(State()))
      ensures opCycles == old(opCycles) + StepCycles(cfg, old(State()))
    {
      hide SourceAfter;
      hide SourceWord;
      hide WordF;
      hide StepCycles;
      begun := State();
      begunCycles := opCycles;
      BeginLine();
      SetState(cfg.fxsr, false, cfg.endMask1);
      ProcessWord();
    }

    /** A word with neighbours on both sides. */
    method MiddleWord()
      requires Ready() && lines > 0 && 1 < words < cfg.width
      modifies `buffer, `srcAddr, `srcWords, `opCycles, `srcWord, `haveSrc, `dstWord, `haveDst,
               `memory, `words, `dstAddr, `lines, `line, `endMask, `wordFxsr, `wordNfsr,
               `begun, `begunCycles
      ensures Ready() && State() == StepF(cfg, old(State()))
      ensures opCycles == old(opCycles) + StepCycles(cfg, old(State()))
    {
      hide SourceAfter;
      hide SourceWord;
      hide WordF;
      hide StepCycles;
      begun := State();
      begunCycles := opCycles;
      SetState(false, false, cfg.endMask2);
      ProcessWord();
    }

    /** The last word of a line of several. */
    method LastWord()
      requires Ready() && lines > 0 && words == 1 < cfg.width
      modifies `buffer, `srcAddr, `srcWords, `opCycles, `srcWord, `haveSrc, `dstWord, `haveDst,
               `memory, `words, `dstAddr, `lines, `line, `endMask, `wordFxsr, `wordNfsr,
               `begun, `begunCycles
      ensures Ready() && State() == StepF(cfg, old(State()))
      ensures opCycles == old(opCycles) + StepCycles(cfg, old(State()))
    {
      hide SourceAfter;
      hide SourceWord;
      hide WordF;
      hide StepCycles;
      begun := State();
      begunCycles := opCycles;
      SetState(false, cfg.nfsr, cfg.endMask3);
      ProcessWord();
      EndLine();
    }

    /** One destination word, by its position in the line. */
    method Step()
      requires Ready() && lines > 0
      modifies `buffer, `srcAddr, `srcWords, `opCycles, `srcWord, `haveSrc, `dstWord, `haveDst,
               `memory, `words, `dstAddr, `lines, `line, `endMask, `wordFxsr, `wordNfsr,
               `begun, `begunCycles
      ensures Ready() && State() == StepF(cfg, old(State()))
      ensures opCycles == old(opCycles) + StepCycles(cfg, old(State()))
    {
      hide StepF;
      hide StepCycles;
      if cfg.width == 1 {
        SingleWord();
      } else if words == cfg.width {
        FirstWord();
      } else if words == 1 {
        LastWord();
      } else {
        MiddleWord();
      }
    }

    /** The main loop: words are written until the blit ends or, outside hog mode, 64 bus cycles
        are used up. `k` is the number of words written. */
    method Blit() returns (ghost k: nat)
      requires Ready() && lines > 0 && opCycles == 0
      modifies `buffer, `srcAddr, `srcWords, `opCycles, `srcWord, `haveSrc, `dstWord, `haveDst,
               `memory, `words, `dstAddr, `lines, `line, `endMask, `wordFxsr, `wordNfsr,
               `begun, `begunCycles, `passCycles
      ensures Ready() && opCycles == 0
      ensures k == SliceLength(cfg, hog, old(State()), old(passCycles))
      ensures State() == Iter(cfg, old(State()), k)
    {
      hide StepF;
      hide StepCycles;
      hide Remaining;
      ghost var d0 := State();
      ghost var pass := passCycles;
      k := 0;
      var go := true;
      while go
        invariant Ready() && opCycles == 0 && k <= Remaining(cfg, d0)
        invariant State() == Iter(cfg, d0, k)
        invariant go ==> lines > 0 && SliceLength(cfg, hog, d0, pass) == k + SliceLength(cfg, hog, State(), passCycles)
        invariant !go ==> SliceLength(cfg, hog, d0, pass) == k
        decreases go, Remaining(cfg, State())
      {
        StepDecreases(cfg, State());
        Step();
        FlushCycles();
        k := k + 1;
        go := lines > 0 && (hog || passCycles < NONHOG_CYCLES);
      }
    }

    /** What is computed at the start of every slice, and the cycles it takes to get the bus. */
    method SetupVars(arbitration: nat)
      requires Valid()
      modifies `passCycles, `opCycles, `srcWordsReset
      ensures Ready() && State() == old(State()) && opCycles == 0 && passCycles == arbitration
    {
      passCycles := 0;
      opCycles := 0;
      srcWordsReset := cfg.width + (if cfg.fxsr then 1 else 0) - (if cfg.nfsr then 1 else 0);
      BusArbitration(arbitration);
    }

    /** One slice of a blit. `arbitration` is the number of cycles it takes to get the bus. */
    method Start(arbitration: nat) returns (ghost k: nat)
      requires Valid() && lines > 0
      modifies `buffer, `srcAddr, `srcWords, `opCycles, `srcWord, `haveSrc, `dstWord, `haveDst,
               `memory, `words, `dstAddr, `lines, `line, `endMask, `wordFxsr, `wordNfsr,
               `begun, `begunCycles, `passCycles, `srcWordsReset, `ctrl
      ensures Valid() && cfg == old(cfg) && hog == old(hog)
      ensures k == SliceLength(cfg, hog, old(State()), arbitration)
      ensures State() == Iter(cfg, old(State()), k)
      ensures ctrl == ControlAfter(old(ctrl), line, lines)
    {
      hide SliceLength;
      hide Iter;
      hide WellFormed;
      SetupVars(arbitration);
      k := Blit();
      BusArbitration(4);
      ctrl := ctrl.(line := line);
      if lines == 0 {
        ctrl := ctrl.(busy := false, hog := false);
      }
    }

    /** A count of zero stands for 65536. A new width begins a new line. */
    method WriteWordsPerLine(count: nat)
      requires Valid() && count < 65536
      modifies `cfg, `words
      ensures Valid() && words == cfg.width == (if count == 0 then 65536 else count)
      ensures cfg == old(cfg).(width := words) && State() == old(State()).(words := words)
    {
      words := if count == 0 then 65536 else count;
      cfg := cfg.(width := words);
    }

    method WriteLinesPerBitblock(count: nat)
      requires Valid() && count < 65536
      modifies `lines
      ensures Valid() && State() == old(State()).(lines := if count == 0 then 65536 else count)
      ensures lines > 0
    {
      lines := if count == 0 then 65536 else count;
    }

    /** Starts a blit, `schedule` tells whether its event has to be set up. A blit of no lines does not start. */
    method WriteControl(c: Control) returns (schedule: bool)
      requires Valid() && c.line < 16
      modifies `cfg, `hog, `line, `ctrl
      ensures Valid() && (ctrl.busy ==> lines > 0) && schedule == ctrl.busy == (c.busy && lines > 0)
      ensures hog == c.hog && cfg == old(cfg).(smudge := c.smudge) && State() == old(State()).(line := c.line)
      ensures ctrl == if c.busy && lines == 0 then c.(busy := false, hog := false) else c
    {
      ctrl := c;
      hog, line := c.hog, c.line;
      cfg := cfg.(smudge := c.smudge);
      if ctrl.busy && lines == 0 {
        ctrl := ctrl.(busy := false, hog := false);
      }
      schedule := ctrl.busy;
    }

    /** The scheduled event that starts or resumes a blit. */
    method InterruptHandler(arbitration: nat)
      requires Valid() && (ctrl.busy ==> lines > 0)
      modifies `buffer, `srcAddr, `srcWords, `opCycles, `srcWord, `haveSrc, `dstWord, `haveDst,
               `memory, `words, `dstAddr, `lines, `line, `endMask, `wordFxsr, `wordNfsr,
               `begun, `begunCycles, `passCycles, `srcWordsReset, `ctrl
      ensures Valid() && cfg == old(cfg) && hog == old(hog) && (ctrl.busy ==> lines > 0)
      ensures !old(ctrl.busy) ==> State() == old(State()) && ctrl == old(ctrl)
      ensures old(ctrl.busy) ==>
        && State() == Iter(cfg, old(State()), SliceLength(cfg, hog, old(State()), arbitration))
        && ctrl == ControlAfter(old(ctrl), line, lines)
    {
      if ctrl.busy {
        ghost var k := Start(arbitration);
      }
    }
  }
}
