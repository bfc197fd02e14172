/** What the scheduler does for its callers: stopping and resuming timers, absolute times, the time a timer has run,
    and a reset. Each property is stated with the exact condition under which it holds, and with a reachable state
    in which it does not where there is one. */
module CycIntUses {
  import opened Utils
  import opened CycInt

  lemma PendingXorFrozen(s: Scheduler, h: int)
    requires s.Valid() && 0 < h < MAX_INTERRUPTS
    ensures (h in s.Due() <==> h !in s.Frozen()) && (h in s.Due() <==> s.handlers[h].used)
    ensures if h in s.Due() then s.Due()[h] == s.now + s.Rem(h) else s.Frozen()[h] == s.handlers[h].cycles
  {
    PendingOrFrozen(s.handlers[..], s.now - s.Elapsed(), h);
  }

  // ------------------------------------------------------------------ stopping and resuming

  /** How the MFP starts a timer that may go on from where it was stopped: it is removed first, which brings the table
      up to date. A stopped timer then runs for exactly the saved count, a running one is not disturbed. */
  method RestartTimer(s: Scheduler, h: int)
    requires s.Valid() && s.Small() && 0 < h < MAX_INTERRUPTS && (h in s.Frozen() ==> s.Frozen()[h] < INT_MAX)
    modifies s, s.handlers
    ensures s.Valid() && s.Linked() && s.Small() && s.now == old(s.now)
    ensures h in old(s.Due()) ==> s.Due() == old(s.Due())
    ensures h !in old(s.Due()) ==> h in old(s.Frozen()) && s.Due() == old(s.Due())[h := s.now + old(s.Frozen())[h]]
  {
    hide DueOf;
    hide FrozenOf;
    ghost var due := s.Due();
    PendingXorFrozen(s, h);
    assert h in due ==> due[h] - s.now < INT_MAX;
    s.RemovePendingInterrupt(h);
    PendingXorFrozen(s, h);
    s.ResumeStoppedInterrupt(h);
    assert h in due ==> (due - {h})[h := due[h]] == due;
    assert h !in due ==> due - {h} == due;
  }

  /** A timer that is stopped for `n` cycles is due exactly `n` cycles later. */
  method StopAndRestart(s: Scheduler, h: int, n: nat)
    requires s.Valid() && s.Small() && 0 < h < MAX_INTERRUPTS && h in s.Due()
    modifies s, s.handlers
    ensures s.Valid() && s.Linked() && s.Small() && s.now == old(s.now) + n
    ensures s.Due() == old(s.Due())[h := old(s.Due())[h] + n]
  {
    hide DueOf;
    hide FrozenOf;
    PendingXorFrozen(s, h);
    assert s.Due()[h] - s.now < INT_MAX;
    s.RemovePendingInterrupt(h);
    s.Tick(n);
    RestartTimer(s, h);
  }

  /** Without the removal, `n` cycles after the table was brought up to date, `n` cycles of the saved count are lost. */
  method ResumeLate(n: nat) returns (s: Scheduler)
    ensures fresh(s) && s.Valid() && 1 in s.Due() && s.Due()[1] == s.now + 100 * 9600 - n
  {
    hide DueOf;
    hide FrozenOf;
    s := new Scheduler(0);
    s.AddRelativeInterrupt(200, CpuCycle, 2);
    s.AddRelativeInterrupt(100, CpuCycle, 1);
    s.RemovePendingInterrupt(1);
    s.Tick(n);
    PendingXorFrozen(s, 1);
    s.ResumeStoppedInterrupt(1);
  }

  // ------------------------------------------------------------------ absolute times

  /** The first of the other events is due together with the first one if and only if any other event is. */
  lemma FirstOfRest(due: map<int, int>, first: int, second: int)
    requires Earliest(due, first) && Earliest(due - {first}, second)
    ensures second in due && second != first
    ensures due[second] == due[first] <==> exists k :: k in due && k != first && due[k] == due[first]
  {
    assert second in due - {first};
    if k :| k in due && k != first && due[k] == due[first] {
      assert k in due - {first};
    }
  }

  /** The use that absolute times are meant for: a handler acknowledges its interrupt and asks for the next one,
      counted from the time of the interrupt. It is counted from there if and only if nothing else is pending, or
      another event is due at the time of this interrupt as well. */
  method AbsoluteAfterInterrupt(s: Scheduler, cycles: nat, kind: CycleType, h: int)
    requires s.Valid() && s.Small() && s.active > 0 && 0 < h < MAX_INTERRUPTS
    requires forall k | 0 < k < MAX_INTERRUPTS && s.handlers[k].used ::
               ToInternal(cycles, kind, s.freqShift) + s.Rem(k) < INT_MAX
    modifies s, s.handlers
    ensures s.Valid() && s.Linked() && s.Small() && s.now == old(s.now) && h in s.Due()
    ensures old(s.active) in old(s.Due())
    ensures s.Due()[h] == old(s.Due())[old(s.active)] + ToInternal(cycles, kind, s.freqShift)
       <==> old(s.Due()) - {old(s.active)} == map[]
            || exists k :: k in old(s.Due()) && k != old(s.active) && old(s.Due())[k] == old(s.Due())[old(s.active)]
  {
    hide DueOf;
    hide FrozenOf;
    hide ToInternal;
    hide Earliest;
    ghost var due, first := s.Due(), s.active;
    s.ActiveIsEarliest();
    InDue(due, first);
    PendingCounts(s, ToInternal(cycles, kind, s.freqShift));
    s.AcknowledgeInterrupt();
    if s.active > 0 {
      s.ActiveIsEarliest();
      FirstOfRest(due, first, s.active);
      assert s.Due()[s.active] == due[s.active];
    } else {
      NoneActive(s);
    }
    s.AddAbsoluteInterrupt(cycles, kind, h);
  }

  lemma InDue(due: map<int, int>, h: int)
    requires Earliest(due, h)
    ensures h in due
  {
  }

  lemma NoneActive(s: Scheduler)
    requires s.Valid()
    ensures s.active == 0 <==> s.Due() == map[]
  {
    if s.active == 0 {
      NothingDue(s.handlers[..], s.now - s.Elapsed());
    } else {
      PendingXorFrozen(s, s.active);
    }
  }

  lemma PendingCounts(s: Scheduler, c: int)
    requires s.Valid()
    requires forall k | 0 < k < MAX_INTERRUPTS && s.handlers[k].used :: c + s.Rem(k) < INT_MAX
    ensures forall k | k in s.Due() :: 0 < k < MAX_INTERRUPTS && c + (s.Due()[k] - s.now) < INT_MAX
  {
  }

  /** Two events, one and two cycles away. When the first one has occurred, four cycles from then should be five
      from the start; they are six. */
  method LateAbsolute() returns (s: Scheduler)
    ensures fresh(s) && s.Valid() && s.now == 9600 && 1 in s.Due() && s.Due()[1] == 6 * 9600
  {
    hide DueOf;
    hide FrozenOf;
    s := new Scheduler(0);
    s.AddRelativeInterrupt(1, CpuCycle, 1);
    s.AddRelativeInterrupt(2, CpuCycle, 2);
    s.Tick(9600);
    OneActive(s);
    s.AcknowledgeInterrupt();
    TwoActive(s);
    s.AddAbsoluteInterrupt(4, CpuCycle, 1);
  }

  lemma OneActive(s: Scheduler)
    requires s.Valid() && s.Due() == map[1 := s.now, 2 := s.now + 9600]
    ensures s.active == 1
  {
    NoneActive(s);
    s.ActiveIsEarliest();
    assert 1 in s.Due() && 2 in s.Due();
  }

  lemma TwoActive(s: Scheduler)
    requires s.Valid() && s.Due() == map[2 := s.now + 9600]
    ensures s.active == 2 && s.pendingCount == 9600
  {
    NoneActive(s);
    assert 2 in s.Due();
    s.ActiveIsEarliest();
  }

  /** How the keyboard asks the program to quit: an absolute event without a function. It takes the place of the next
      event if and only if nothing else is pending. */
  method Quit(s: Scheduler)
    requires s.Valid() && s.Small() && s.active > 0
    modifies s, s.handlers
    ensures s.Valid() && s.Linked() && s.Small() && s.now == old(s.now)
    ensures s.Due() == old(s.Due()) - {old(s.active)}
    ensures s.pendingFunction == 0 <==> old(s.Due()) - {old(s.active)} == map[]
    ensures s.pendingFunction == 0 ==> s.pendingCount == 4 * 9600 + old(s.pendingCount)
  {
    hide DueOf;
    hide FrozenOf;
    s.AcknowledgeInterrupt();
    s.AddAbsoluteInterrupt(4, CpuCycle, 0);
    NoneActive(s);
  }

  // ------------------------------------------------------------------ the time a timer has run

  /** By how many units `e` internal cycles reduce the time left. A processor cycle is taken off when it begins, an MFP
      cycle, as the time left is rounded up, when it is complete; a faster processor divides once more, and rounds
      up. */
  function UnitsTaken(e: nat, kind: CycleType, shift: nat): nat {
    match kind
    case CpuCycle => Ceil(e, 9600)
    case Cpu8Cycle => Ceil(Ceil(e, 9600), Pow2(shift))
    case MfpCycle => Ceil(e / 31333, Pow2(shift))
  }

  /** How many units are left of `n` when `e` internal cycles have passed. */
  lemma LeftWhenPassed(n: nat, e: nat, kind: CycleType, shift: nat)
    requires e <= ToInternal(n, kind, shift)
    ensures FromInternal(ToInternal(n, kind, shift) - e, kind, shift) == n - UnitsTaken(e, kind, shift)
  {
    hide Pow2;
    hide Ceil;
    var p := Pow2(shift);
    match kind
    case CpuCycle => LeftOf(n, e, 9600);
    case Cpu8Cycle =>
      Commute(n, 9600, p);
      LeftOf(n * p, e, 9600);
      LeftOf(n, Ceil(e, 9600), p);
    case MfpCycle =>
      Commute(n, 31333, p);
      LeftRounded(n * p, e);
      LeftOf(n, e / 31333, p);
  }

  lemma Commute(a: nat, b: nat, c: nat)
    ensures a * b * c == a * c * b && a * c >= 0
  {
  }

  lemma LeftRounded(n: nat, e: nat)
    requires e <= n * 31333
    ensures e / 31333 <= n && TruncDiv(n * 31333 - e + 31333 - 1, 31333) == n - e / 31333
  {
  }

  /** What is left of `n` times `b`, in units of `b`. */
  lemma LeftOf(n: nat, e: nat, b: int)
    requires b > 0 && e <= n * b
    ensures Ceil(e, b) <= n && (n * b - e) / b == n - Ceil(e, b)
  {
    var c := Ceil(e, b);
    assert c * b < e + b && e <= c * b;
    var q := (n * b - e) / b;
    QuotientBounds(n * b - e, b);
    assert n * b - c * b == (n - c) * b;
    OneQuotient(q, n - c, b, n * b - e - q * b, c * b - e);
  }

  /** A timer is started for `n` units, and `e` internal cycles later its owner asks for the cycles passed. The answer
      is what is left of the timer. It is the time that has passed, as documented, exactly if that time, converted by
      itself, and the units taken from the time left make up the `n`. */
  method StartAndAsk(s: Scheduler, n: nat, kind: CycleType, h: int, e: nat) returns (r: int)
    requires s.Valid() && s.Small() && 0 < h < MAX_INTERRUPTS && e <= ToInternal(n, kind, s.freqShift) < INT_MAX
    modifies s, s.handlers
    ensures s.Valid() && h in s.Due() && s.now == old(s.now) + e
    ensures r == n - UnitsTaken(e, kind, s.freqShift)
    ensures r == FromInternal(e, kind, s.freqShift)
      <==> n == FromInternal(e, kind, s.freqShift) + UnitsTaken(e, kind, s.freqShift)
  {
    hide DueOf;
    hide FrozenOf;
    hide ToInternal;
    hide FromInternal;
    hide UnitsTaken;
    s.AddRelativeInterrupt(n, kind, h);
    s.Tick(e);
    LeftWhenPassed(n, e, kind, s.freqShift);
    r := s.FindCyclesPassed(h, kind);
  }

  /** Three of ten cycles have passed, and the answer is seven. */
  method AskEarly() returns (r: int)
    ensures r == 7
  {
    var s := new Scheduler(0);
    r := StartAndAsk(s, 10, CpuCycle, 1, 3 * 9600);
  }

  // ------------------------------------------------------------------ a reset

  /** After a reset nothing is due, but the loop that calls what is due would call the function of the event that was
      next, if there was one. */
  method ResetAndLook(s: Scheduler) returns (callsOne: bool)
    requires s.Valid() && s.Linked()
    modifies s, s.handlers
    ensures s.Valid() && s.Due() == map[]
    ensures callsOne == (s.pendingCount <= 0 && s.pendingFunction != 0)
    ensures callsOne <==> old(s.Due()) != map[]
  {
    NoneActive(s);
    s.Reset();
    callsOne := s.pendingCount <= 0 && s.pendingFunction != 0;
  }

  method ResetWhilePending() returns (callsOne: bool)
    ensures callsOne
  {
    var s := new Scheduler(0);
    s.AddRelativeInterrupt(1, CpuCycle, 1);
    assert 1 in s.Due();
    callsOne := ResetAndLook(s);
  }
}
