/** Laws of the blitter model: what a blit means for the words, bits and addresses it visits,
    and why it does not matter where it is interrupted. */
module BlitterLaws {
  import opened Words
  import opened Blitter

  /** The truth table spelled by the number of a logic operation: bit 0 answers for "both set",
      bit 1 for "only the operand", bit 2 for "only the destination", bit 3 for "neither". */
  predicate TruthTable(lop: nat, h: bool, d: bool) {
    if h && d then lop % 2 == 1
    else if h then lop / 2 % 2 == 1
    else if d then lop / 4 % 2 == 1
    else lop / 8 % 2 == 1
  }

  /** Every bit of a logic operation follows the truth table. */
  lemma LogicBit(lop: nat, h: Word, d: Word, k: nat)
    requires lop < 16 && k < 16
    ensures LogicOp(lop, h, d)[k] == TruthTable(lop, h[k], d[k])
  {
  }

  /** What one word does to one bit of its destination: outside the end mask nothing, inside it
      the truth table of the operation. The unmasked shortcut of the program is covered as well. */
  lemma MaskedWriteBit(cfg: Config, d: Core, k: nat)
    requires WellFormed(cfg, d) && d.lines > 0 && k < 16 && d.dstAddr in d.memory
    ensures Read(StepF(cfg, d).memory, d.dstAddr)[k]
         == if EndMask(cfg, d)[k]
            then TruthTable(cfg.lop, HopWord(cfg, d)[k], Read(d.memory, d.dstAddr)[k])
            else Read(d.memory, d.dstAddr)[k]
    ensures forall a | a != d.dstAddr :: Read(StepF(cfg, d).memory, a) == Read(d.memory, a)
  {
    hide HopWord;
    hide SourceAfter;
    LogicBit(cfg.lop, HopWord(cfg, d), Read(d.memory, d.dstAddr), k);
  }

  /** A bit that no visit selects with its end mask survives the blit. */
  lemma {:induction false} UntouchedBit(cfg: Config, d: Core, n: nat, a: int, k: nat)
    requires WellFormed(cfg, d) && n <= Remaining(cfg, d) && k < 16
    requires forall i | 0 <= i < n :: Iter(cfg, d, i).dstAddr == a ==> !EndMask(cfg, Iter(cfg, d, i))[k]
    ensures Read(Iter(cfg, d, n).memory, a)[k] == Read(d.memory, a)[k]
    ensures Iter(cfg, d, n).memory.Keys == d.memory.Keys
  {
    hide HopWord;
    hide SourceAfter;
    hide LogicOp;
    if n > 0 {
      UntouchedBit(cfg, d, n - 1, a, k);
      var p := Iter(cfg, d, n - 1);
      assert Iter(cfg, d, n) == StepF(cfg, p);
    }
  }

  /** An operation reads an operand exactly if its result can depend on it. */
  lemma OperandsMatter(lop: nat)
    requires lop < 16
    ensures LopReadsHop(lop) <==> exists d: bool :: TruthTable(lop, true, d) != TruthTable(lop, false, d)
    ensures LopReadsDest(lop) <==> exists h: bool :: TruthTable(lop, h, true) != TruthTable(lop, h, false)
  {
    assert forall d: bool :: TruthTable(lop, true, d) == if d then lop % 2 == 1 else lop / 2 % 2 == 1;
    assert forall d: bool :: TruthTable(lop, false, d) == if d then lop / 4 % 2 == 1 else lop / 8 % 2 == 1;
    assert LopReadsHop(lop) <==> lop % 2 != lop / 4 % 2 || lop / 2 % 2 != lop / 8 % 2;
    assert LopReadsDest(lop) <==> lop % 2 != lop / 2 % 2 || lop / 4 % 2 != lop / 8 % 2;
    assert TruthTable(lop, true, true) != TruthTable(lop, false, true) <==> lop % 2 != lop / 4 % 2;
    assert TruthTable(lop, true, false) != TruthTable(lop, false, false) <==> lop / 2 % 2 != lop / 8 % 2;
  }

  /** A word costs four cycles for its write, four for each source word that it fetches, and four for reading its
      destination, which happens if the operation depends on it, if a bit is masked out, or if the word is the
      last of a line that ends without a fetch. */
  lemma WordCycles(cfg: Config, d: Core)
    requires WellFormed(cfg, d)
    ensures var first, last := d.words == cfg.width, d.words == 1;
            var sources := (if cfg.fxsr && first then 1 else 0) + (if cfg.nfsr && last then 0 else 1);
            var keeps := cfg.lop !in {0, 3, 12, 15} || (cfg.nfsr && last)
                         || exists k | 0 <= k < 16 :: !EndMask(cfg, d)[k];
            var uses := cfg.lop !in {0, 5, 10, 15} && (cfg.hop >= 2 || (cfg.hop == 1 && cfg.smudge));
            StepCycles(cfg, d) == 4 + (if uses then 4 * sources else 0) + (if keeps then 4 else 0)
  {
    var mask := EndMask(cfg, d);
    if forall k | 0 <= k < 16 :: mask[k] {
      assert mask == ONES;
    }
  }

  /** In a bus error region all bits read as zero, and writes are lost. */
  lemma BusError(cfg: Config, d: Core, a: int, k: nat)
    requires WellFormed(cfg, d) && d.lines > 0 && k < 16
    ensures a !in d.memory ==> !Read(d.memory, a)[k]
    ensures a in d.memory ==> Read(d.memory, a) == d.memory[a]
    ensures d.dstAddr !in d.memory ==> StepF(cfg, d).memory == d.memory
  {
    hide HopWord;
    hide SourceAfter;
  }

  // ------------------------------------------------------------------ slicing

  lemma {:induction false} IterAdd(cfg: Config, d: Core, m: nat, n: nat)
    requires WellFormed(cfg, d) && m + n <= Remaining(cfg, d)
    ensures Iter(cfg, Iter(cfg, d, m), n) == Iter(cfg, d, m + n)
  {
    hide StepF;
    hide Remaining;
    if n > 0 {
      IterAdd(cfg, d, m, n - 1);
    }
  }

  lemma {:induction false} HogNeverYields(cfg: Config, d: Core, pass: nat)
    requires WellFormed(cfg, d) && d.lines > 0
    ensures SliceLength(cfg, true, d, pass) == Remaining(cfg, d)
    decreases Remaining(cfg, d)
  {
    hide StepF;
    hide StepCycles;
    StepDecreases(cfg, d);
    if StepF(cfg, d).lines > 0 {
      HogNeverYields(cfg, StepF(cfg, d), pass + StepCycles(cfg, d));
    }
  }

  /** Bus cycles of the first `n` words. */
  function CyclesUpTo(cfg: Config, d: Core, n: nat): nat
    requires WellFormed(cfg, d) && n <= Remaining(cfg, d)
  {
    if n == 0 then 0 else CyclesUpTo(cfg, d, n - 1) + StepCycles(cfg, Iter(cfg, d, n - 1))
  }

  lemma {:induction false} CyclesShift(cfg: Config, d: Core, n: nat)
    requires WellFormed(cfg, d) && d.lines > 0 && n + 1 <= Remaining(cfg, d)
    ensures Remaining(cfg, StepF(cfg, d)) == Remaining(cfg, d) - 1
    ensures CyclesUpTo(cfg, d, n + 1) == StepCycles(cfg, d) + CyclesUpTo(cfg, StepF(cfg, d), n)
  {
    hide StepF;
    hide StepCycles;
    hide Remaining;
    StepDecreases(cfg, d);
    assert Iter(cfg, d, 0) == d;
    assert Iter(cfg, d, 1) == StepF(cfg, d);
    if n > 0 {
      CyclesShift(cfg, d, n - 1);
      IterAdd(cfg, d, 1, n - 1);
    } else {
      assert CyclesUpTo(cfg, d, 0) == 0;
    }
  }

  /** Outside hog mode a slice is exactly the shortest run that uses up 64 bus cycles, or the rest of the blit. */
  lemma {:induction false} SliceIsShortest(cfg: Config, d: Core, pass: nat)
    requires WellFormed(cfg, d) && d.lines > 0
    ensures var k := SliceLength(cfg, false, d, pass);
            && (k == Remaining(cfg, d) || pass + CyclesUpTo(cfg, d, k) >= 256)
            && forall i | 0 < i < k :: pass + CyclesUpTo(cfg, d, i) < 256
    decreases Remaining(cfg, d)
  {
    hide StepF;
    hide StepCycles;
    StepDecreases(cfg, d);
    var d' := StepF(cfg, d);
    var pass' := pass + StepCycles(cfg, d);
    var k := SliceLength(cfg, false, d, pass);
    assert Iter(cfg, d, 0) == d;
    assert CyclesUpTo(cfg, d, 1) == CyclesUpTo(cfg, d, 0) + StepCycles(cfg, d);
    if d'.lines > 0 && pass' < NONHOG_CYCLES {
      SliceIsShortest(cfg, d', pass');
      CyclesShift(cfg, d, k - 1);
      forall i | 0 < i < k ensures pass + CyclesUpTo(cfg, d, i) < NONHOG_CYCLES {
        CyclesShift(cfg, d, i - 1);
        assert i > 1 ==> pass' + CyclesUpTo(cfg, d', i - 1) < NONHOG_CYCLES;
      }
    }
  }

  /** What the program keeps of a blit between two calls of its interrupt handler. */
  datatype Machine = Machine(core: Core, ctrl: Control)

  /** The circumstances of one call: hog mode or not, and the cycles that the bus arbitration takes. */
  datatype Slice = Slice(hog: bool, arbitration: nat)

  function StartF(cfg: Config, m: Machine, s: Slice): Machine
    requires WellFormed(cfg, m.core) && m.core.lines > 0
  {
    var core := Iter(cfg, m.core, SliceLength(cfg, s.hog, m.core, s.arbitration));
    Machine(core, ControlAfter(m.ctrl, core.line, core.lines))
  }

  /** Calls of the interrupt handler, which does nothing once the blit is over. */
  function RunSlices(cfg: Config, m: Machine, slices: seq<Slice>): Machine
    requires WellFormed(cfg, m.core) && (m.ctrl.busy ==> m.core.lines > 0)
    decreases |slices|
  {
    if slices == [] || !m.ctrl.busy then m
    else RunSlices(cfg, StartF(cfg, m, slices[0]), slices[1..])
  }

  /** Words written by those calls. */
  function WordsInSlices(cfg: Config, m: Machine, slices: seq<Slice>): nat
    requires WellFormed(cfg, m.core) && (m.ctrl.busy ==> m.core.lines > 0)
    decreases |slices|
  {
    if slices == [] || !m.ctrl.busy then 0
    else SliceLength(cfg, slices[0].hog, m.core, slices[0].arbitration)
         + WordsInSlices(cfg, StartF(cfg, m, slices[0]), slices[1..])
  }

  /** However a blit is sliced, it passes through the same states. It ends after exactly
      (lines - 1) * width + words words, and each call makes progress. */
  lemma {:induction false} SlicesFollowBlit(cfg: Config, m: Machine, slices: seq<Slice>)
    requires WellFormed(cfg, m.core) && m.ctrl.busy && m.core.lines > 0
    ensures var n := WordsInSlices(cfg, m, slices); var r := RunSlices(cfg, m, slices);
            && n <= Remaining(cfg, m.core) && r.core == Iter(cfg, m.core, n)
            && (r.ctrl.busy <==> r.core.lines > 0) && (r.core.lines == 0 <==> n == Remaining(cfg, m.core))
            && (|slices| >= Remaining(cfg, m.core) ==> r.core.lines == 0)
            && r.ctrl.smudge == m.ctrl.smudge && r.ctrl.hog == (m.ctrl.hog && r.core.lines > 0)
            && (slices != [] ==> r.ctrl.line == r.core.line)
    decreases |slices|
  {
    hide StepF;
    hide SliceLength;
    if slices != [] {
      var m1 := StartF(cfg, m, slices[0]);
      var k := SliceLength(cfg, slices[0].hog, m.core, slices[0].arbitration);
      if m1.core.lines > 0 {
        SlicesFollowBlit(cfg, m1, slices[1..]);
        IterAdd(cfg, m.core, k, WordsInSlices(cfg, m1, slices[1..]));
      }
    }
  }

  /** Slice independence: a blit that has been interrupted and resumed any number of times ends in
      the state, memory and control register of one uninterrupted run in hog mode. */
  lemma SliceIndependence(cfg: Config, m: Machine, slices: seq<Slice>, arbitration: nat)
    requires WellFormed(cfg, m.core) && m.ctrl.busy && m.core.lines > 0
    requires RunSlices(cfg, m, slices).core.lines == 0
    ensures RunSlices(cfg, m, slices) == StartF(cfg, m, Slice(true, arbitration))
    ensures WordsInSlices(cfg, m, slices) == (m.core.lines - 1) * cfg.width + m.core.words
  {
    SlicesFollowBlit(cfg, m, slices);
    HogNeverYields(cfg, m.core, arbitration);
  }
}
