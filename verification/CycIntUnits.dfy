/** The units of the scheduler. Its internal cycles are fine enough for processor cycles (9600 of them) and MFP cycles
    (31333); on a machine of twice the speed, MFP cycles and cycles of 8 MHz last twice as many of them. */
module CycIntUnits {
  import opened CycInt
  import Utils

  function Doubled(n: int, times: nat): int {
    if times == 0 then n else Doubled(n, times - 1) + Doubled(n, times - 1)
  }

  /** Internal cycles of `n` units, if the machine runs at 8 MHz doubled `shift` times. */
  function Lasting(n: int, kind: CycleType, shift: nat): int {
    match kind
    case CpuCycle => 9600 * n
    case MfpCycle => Doubled(31333 * n, shift)
    case Cpu8Cycle => Doubled(9600 * n, shift)
  }

  /** A count of units is converted to the internal cycles that they last, whatever its sign. */
  lemma {:induction false} Converted(n: int, kind: CycleType, shift: nat)
    ensures ToInternal(n, kind, shift) == Lasting(n, kind, shift)
    decreases shift
  {
    if shift > 0 && kind != CpuCycle {
      Converted(n, kind, shift - 1);
      var unit := if kind == MfpCycle then 31333 else 9600;
      Twice(n * unit, Pow2(shift - 1));
    }
  }

  lemma Twice(a: int, p: int)
    ensures a * (2 * p) == a * p + a * p
  {
  }

  /** The ST at 8 MHz, and machines at 16 and 32 MHz. */
  lemma MachineSpeeds(n: int)
    ensures ToInternal(n, MfpCycle, 0) == 31333 * n && ToInternal(n, Cpu8Cycle, 0) == 9600 * n
    ensures ToInternal(n, MfpCycle, 1) == 62666 * n && ToInternal(n, Cpu8Cycle, 1) == 19200 * n
    ensures ToInternal(n, MfpCycle, 2) == 125332 * n && ToInternal(n, Cpu8Cycle, 2) == 38400 * n
    ensures forall shift: nat :: ToInternal(n, CpuCycle, shift) == 9600 * n
  {
    forall kind: CycleType, shift: nat ensures ToInternal(n, kind, shift) == Lasting(n, kind, shift) {
      Converted(n, kind, shift);
    }
    hide ToInternal;
    assert forall m: int :: Doubled(m, 1) == Doubled(m, 0) + Doubled(m, 0) == 2 * m;
    assert forall m: int :: Doubled(m, 2) == Doubled(m, 1) + Doubled(m, 1) == 4 * m;
  }

  /** An event that is `n` units away. */
  method Start(s: Scheduler, n: int, kind: CycleType, h: int)
    requires s.Valid() && s.Small() && 0 < h < MAX_INTERRUPTS && Lasting(n, kind, s.freqShift) < INT_MAX
    modifies s, s.handlers
    ensures s.Valid() && s.Linked() && s.Small() && s.now == old(s.now)
    ensures s.Due() == old(s.Due())[h := s.now + Lasting(n, kind, s.freqShift)]
  {
    hide DueOf;
    hide FrozenOf;
    hide ToInternal;
    hide Lasting;
    Converted(n, kind, s.freqShift);
    s.AddRelativeInterrupt(n, kind, h);
  }

  /** An event that is pending is put off by `n` units, or brought forward if `n` is negative. */
  method PutOff(s: Scheduler, n: int, kind: CycleType, h: int)
    requires s.Valid() && s.Small() && 0 < h < MAX_INTERRUPTS && h in s.Due()
    requires s.Due()[h] - s.now + Lasting(n, kind, s.freqShift) < INT_MAX
    modifies s, s.handlers
    ensures s.Valid() && s.Linked() && s.Small() && s.now == old(s.now)
    ensures s.Due() == old(s.Due())[h := old(s.Due()[h]) + Lasting(n, kind, s.freqShift)]
  {
    hide DueOf;
    hide FrozenOf;
    hide ToInternal;
    hide Lasting;
    Converted(n, kind, s.freqShift);
    PendingRem(s, h);
    s.ModifyInterrupt(n, kind, h);
  }

  lemma PendingRem(s: Scheduler, h: int)
    requires s.Valid() && h in s.Due()
    ensures 0 < h < MAX_INTERRUPTS && s.Due()[h] == s.now + s.Rem(h)
  {
  }

  // ------------------------------------------------------------------ back to units

  /** Processor cycles are cut off towards zero. What is left of MFP cycles is rounded up; for an event that is late by
      more than an MFP cycle the same 31332 internal cycles are added before the cut towards zero. */
  lemma BackAtShiftZero(cycles: int, kind: CycleType)
    ensures var r := FromInternal(cycles, kind, 0);
            if kind != MfpCycle then
              if cycles >= 0 then 9600 * r <= cycles < 9600 * (r + 1) else 9600 * (r - 1) < cycles <= 9600 * r
            else if cycles > 0 then 31333 * (r - 1) < cycles <= 31333 * r
            else if cycles >= -31332 then r == 0
            else 31333 * (r - 1) < cycles + 31332 <= 31333 * r
  {
  }

  /** Each doubling of the speed halves the result and rounds it down, except for processor cycles. */
  lemma BackHalves(cycles: int, kind: CycleType, shift: nat)
    ensures var fast, slow := FromInternal(cycles, kind, shift + 1), FromInternal(cycles, kind, shift);
            if kind == CpuCycle then fast == slow else 2 * fast <= slow <= 2 * fast + 1
  {
    if kind != CpuCycle {
      var a := if kind == MfpCycle then TruncDiv(cycles + 31333 - 1, 31333) else TruncDiv(cycles, 9600);
      HalfOf(a, Pow2(shift));
    }
  }

  lemma HalfOf(a: int, p: int)
    requires p > 0
    ensures 2 * (a / (2 * p)) <= a / p <= 2 * (a / (2 * p)) + 1
  {
    var q, r := a / p, a % p;
    assert a == q * p + r;
    var h := q / 2;
    var s := (q % 2) * p + r;
    assert q == 2 * h + q % 2;
    assert a == h * (2 * p) + s by { Spread(h, q % 2, p); }
    assert 0 <= s < 2 * p by { if q % 2 == 0 { assert s == r; } else { assert s == p + r; } }
    SameQuotient(a, h, 2 * p, s);
  }

  lemma Spread(h: int, b: int, p: int)
    ensures (2 * h + b) * p == h * (2 * p) + b * p
  {
  }

  lemma SameQuotient(a: int, q: int, n: int, s: int)
    requires n > 0 && a == q * n + s && 0 <= s < n
    ensures a / n == q
  {
    Utils.OneQuotient(a / n, q, n, a % n, s);
  }
}
