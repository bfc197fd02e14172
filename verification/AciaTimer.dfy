/** The ACIA on its timer: the dispatch loop calls its interrupt handler among others, arbitrarily late, and every
    bit is due exactly one period after the one before. */
module AciaTimer {
  import opened Utils
  import opened CycInt
  import opened CycIntRuns
  import opened Acia

  /** The chip after `n` bit times; `line(i)` is what the receive line carries at bit time `i`. */
  function Clocked(c: Chip, line: nat -> bool, from: nat, n: nat): (r: Chip)
    requires Counting(c)
    ensures Counting(r)
  {
    if n == 0 then c else ClockRxF(ClockTxF(Clocked(c, line, from, n - 1)), line(from + n - 1))
  }

  lemma {:induction false} ClockedFurther(c: Chip, line: nat -> bool, from: nat, m: nat, n: nat)
    requires Counting(c)
    ensures Clocked(Clocked(c, line, from, m), line, from + m, n) == Clocked(c, line, from, m + n)
  {
    hide ClockRxF;
    hide ClockTxF;
    hide Counting;
    if n > 0 {
      ClockedFurther(c, line, from, m, n - 1);
    }
  }

  /** The timer of the ACIA asks for its next bit time, and nobody else touches it. */
  ghost predicate BitTimer(next: (int, int) -> Requests, period: int) {
    Later(next) && Periodic(next, IKBD, period)
  }

  lemma BitTimerFires(due: map<int, int>, now: int, next: (int, int) -> Requests, period: int)
    requires BitTimer(next, period)
    ensures Later(next)
    ensures IKBD in due ==>
      var others := next(IKBD, now - due[IKBD]) - {IKBD};
      && Fire(due, IKBD, now, next) == Apply(due - {IKBD}, others, now)[IKBD := due[IKBD] + period]
      && (due[IKBD] <= now ==> forall k | k in others ::
            0 < k < MAX_INTERRUPTS && k != IKBD && (others[k].Some? ==> others[k].value < INT_MAX))
  {
    if IKBD !in due { return; }
    var over := now - due[IKBD];
    var asked := next(IKBD, over);
    var rest := due - {IKBD};
    assert asked[IKBD] == Some(period - over);
    assert Apply(rest, asked, now).Keys == Apply(rest, asked - {IKBD}, now).Keys + {IKBD};
  }

  function Period(cycles: int, shift: nat): int {
    ToInternal(cycles, Cpu8Cycle, shift)
  }

  ghost predicate Ready(acia: Acia, timers: Scheduler, next: (int, int) -> Requests, period: int)
    reads acia, timers, timers.handlers
  {
    && timers.Valid() && timers.Linked() && timers.Small() && Counting(acia.View()) && acia.txClock > 0
    && period == Period(acia.BitCycles(), timers.freqShift) < INT_MAX && BitTimer(next, period)
  }

  /** The call of one function that is due. */
  method CallOne(acia: Acia, timers: Scheduler, next: (int, int) -> Requests, bit: bool, ghost period: int)
    returns (ghost e: Event)
    requires Ready(acia, timers, next, period) && timers.pendingFunction != 0 && timers.pendingCount <= 0
    modifies acia`tx, acia`rx, acia`rdr, acia`sr, acia`lines, timers, timers.handlers
    ensures Ready(acia, timers, next, period) && timers.now == old(timers.now)
    ensures Earliest(old(timers.Due()), e.id) && old(timers.Due())[e.id] == e.due <= timers.now
    ensures timers.Due() == Fire(old(timers.Due()), e.id, timers.now, next) && e.id == old(timers.pendingFunction)
    ensures acia.View() == if e.id == IKBD then ClockRxF(ClockTxF(old(acia.View())), bit) else old(acia.View())
    ensures timers.pendingFunction != 0 ==>
      old(timers.pendingCount) < timers.pendingCount
      || (old(timers.pendingCount) == timers.pendingCount
          && Level(timers.Due(), e.due, MAX_INTERRUPTS) < Level(old(timers.Due()), e.due, MAX_INTERRUPTS))
    ensures e.due == timers.now + old(timers.pendingCount)
  {
    hide DueOf;
    hide BitTimer;
    hide ToInternal;
    hide ClockRxF;
    hide ClockTxF;
    hide Fire;
    hide Later;
    hide Level;
    hide Earliest;
    hide Apply;
    ghost var due, h := timers.Due(), timers.active;
    timers.ActiveIsEarliest();
    BitTimerFires(due, timers.now, next, period);
    Progress(due, h, timers.now, next, period);
    e := Event(h, due[h]);
    if timers.pendingFunction == IKBD {
      acia.InterruptHandlerIkbd(timers, bit, next(IKBD, -timers.pendingCount) - {IKBD});
    } else {
      timers.CallPendingFunction(next);
    }
    if timers.active > 0 {
      timers.ActiveIsEarliest();
      EarliestIn(timers.Due(), timers.active);
    }
  }

  lemma EarliestIn(due: map<int, int>, h: int)
    requires Earliest(due, h)
    ensures h in due
  {
  }

  /** The events `log` have led from `due0` to `due`, and the chip was clocked for those that are its own. */
  ghost predicate Done(due0: map<int, int>, due: map<int, int>, log: seq<Event>, now: int, next: (int, int) -> Requests,
                       before: Chip, after: Chip, line: nat -> bool, bits: nat, total: nat)
  {
    && InOrder(due0, log, now, next) && due == Replay(due0, log, now, next)
    && total == bits + Firings(log, IKBD) && Counting(before) && after == Clocked(before, line, bits, total - bits)
  }

  lemma DoneMore(due0: map<int, int>, due: map<int, int>, log: seq<Event>, now: int, next: (int, int) -> Requests,
                 before: Chip, after: Chip, line: nat -> bool, bits: nat, total: nat, e: Event)
    requires Done(due0, due, log, now, next, before, after, line, bits, total)
    requires Earliest(due, e.id) && due[e.id] == e.due <= now
    ensures Done(due0, Fire(due, e.id, now, next), log + [e], now, next, before,
                 if e.id == IKBD then ClockRxF(ClockTxF(after), line(total)) else after, line,
                 bits, if e.id == IKBD then total + 1 else total)
  {
    hide InOrder;
    hide Replay;
    hide Fire;
    hide Earliest;
    hide Clocked;
    hide ClockRxF;
    hide ClockTxF;
    hide Counting;
    hide Firings;
    ClockedNext(before, line, bits, total - bits);
    LogGrows(due0, log, now, next, e.id);
    EarliestIn(due, e.id);
    FiringsNext(log, e);
    assert Event(e.id, due[e.id]) == e;
  }

  lemma FiringsNext(log: seq<Event>, e: Event)
    ensures Firings(log + [e], IKBD) == Firings(log, IKBD) + if e.id == IKBD then 1 else 0
  {
    assert (log + [e])[..|log|] == log;
  }

  lemma ClockedNext(c: Chip, line: nat -> bool, from: nat, n: nat)
    requires Counting(c)
    ensures Counting(Clocked(c, line, from, n))
    ensures Clocked(c, line, from, n + 1) == ClockRxF(ClockTxF(Clocked(c, line, from, n)), line(from + n))
  {
  }

  /** One dispatch loop. `bits` bit times have passed before it, `total` after it. */
  method DispatchBits(acia: Acia, timers: Scheduler, next: (int, int) -> Requests, line: nat -> bool, bits: nat,
                      ghost period: int) returns (total: nat, ghost log: seq<Event>)
    requires Ready(acia, timers, next, period)
    modifies acia`tx, acia`rx, acia`rdr, acia`sr, acia`lines, timers, timers.handlers
    ensures Ready(acia, timers, next, period) && timers.now == old(timers.now)
    ensures Done(old(timers.Due()), timers.Due(), log, timers.now, next,
                 old(acia.View()), acia.View(), line, bits, total)
    ensures forall h | h in timers.Due() :: timers.Due()[h] > timers.now
  {
    hide DueOf;
    hide Done;
    hide Fire;
    hide Level;
    hide Earliest;
    hide BitTimer;
    hide Period;
    hide Counting;
    hide ClockRxF;
    hide ClockTxF;
    hide Later;
    hide InOrder;
    ghost var due0, chip := timers.Due(), acia.View();
    log, total := [], bits;
    NothingDone(due0, timers.now, next, chip, line, bits);
    while timers.pendingCount <= 0 && timers.pendingFunction != 0
      invariant Ready(acia, timers, next, period) && timers.now == old(timers.now)
      invariant Done(due0, timers.Due(), log, timers.now, next, chip, acia.View(), line, bits, total)
      decreases timers.pendingFunction != 0, -timers.pendingCount,
        Level(timers.Due(), timers.now + timers.pendingCount, MAX_INTERRUPTS)
    {
      ghost var due, view, count := timers.Due(), acia.View(), total;
      var mine := timers.pendingFunction == IKBD;
      ghost var e := CallOne(acia, timers, next, mine && line(total), period);
      DoneMore(due0, due, log, timers.now, next, chip, view, line, bits, count, e);
      log := log + [e];
      if mine {
        total := total + 1;
      }
    }
    timers.NothingIsDue();
  }

  /** The dispatch after `n` cycles. */
  method FlushBits(acia: Acia, timers: Scheduler, n: nat, next: (int, int) -> Requests, line: nat -> bool, bits: nat,
                   ghost period: int) returns (total: nat, ghost log: seq<Event>)
    requires Ready(acia, timers, next, period)
    modifies acia`tx, acia`rx, acia`rdr, acia`sr, acia`lines, timers, timers.handlers
    ensures Ready(acia, timers, next, period) && timers.now == old(timers.now) + n
    ensures Done(old(timers.Due()), timers.Due(), log, timers.now, next,
                 old(acia.View()), acia.View(), line, bits, total)
  {
    hide DueOf;
    hide Done;
    hide BitTimer;
    hide Period;
    hide Counting;
    timers.Tick(n);
    total, log := DispatchBits(acia, timers, next, line, bits, period);
  }

  lemma NothingDone(due: map<int, int>, now: int, next: (int, int) -> Requests, c: Chip, line: nat -> bool, bits: nat)
    requires Counting(c)
    ensures Done(due, due, [], now, next, c, c, line, bits, bits)
  {
    NoEvents(due, now, next);
  }

  lemma Progress(due: map<int, int>, h: int, now: int, next: (int, int) -> Requests, period: int)
    requires BitTimer(next, period) && Earliest(due, h) && due[h] <= now && 0 < h < MAX_INTERRUPTS
    ensures var due' := Fire(due, h, now, next);
            (forall k | k in due' :: due[h] <= due'[k])
            && Level(due', due[h], MAX_INTERRUPTS) < Level(due, due[h], MAX_INTERRUPTS)
  {
    FireProgress(due, h, now, next, MAX_INTERRUPTS);
  }

  /** A run in which the ACIA was called once for each of `bits` bit times. */
  ghost predicate Clocking(ps: seq<Phase>, delays: seq<nat>, start: int, now: int, due0: map<int, int>,
                           due: map<int, int>, before: Chip, after: Chip, line: nat -> bool, bits: nat, period: int)
  {
    && Timed(ps, start, delays) && now == start + Sum(delays[..|ps|]) && Reached(ps, due0, due, IKBD, period)
    && bits == Calls(ps, IKBD) && Counting(before) && after == Clocked(before, line, 0, bits)
  }

  /** The ACIA in a run of the program. Each bit is due exactly one period after the one before it, however late the
      dispatches come and whatever the other handlers do, and the chip is clocked once for each bit. */
  method RunBits(acia: Acia, timers: Scheduler, delays: seq<nat>, next: (int, int) -> Requests, line: nat -> bool,
                 ghost period: int) returns (bits: nat, ghost ps: seq<Phase>)
    requires Ready(acia, timers, next, period) && IKBD in timers.Due()
    modifies acia`tx, acia`rx, acia`rdr, acia`sr, acia`lines, timers, timers.handlers
    ensures Ready(acia, timers, next, period) && |ps| == |delays|
    ensures Clocking(ps, delays, old(timers.now), timers.now, old(timers.Due()), timers.Due(),
                     old(acia.View()), acia.View(), line, bits, period)
    ensures IKBD in timers.Due() && timers.Due()[IKBD] == old(timers.Due())[IKBD] + bits * period
  {
    hide DueOf;
    hide Done;
    hide Clocking;
    hide BitTimer;
    hide Period;
    hide Counting;
    ghost var due0, chip, start := timers.Due(), acia.View(), timers.now;
    ps, bits := [], 0;
    ClockingBegins(delays, start, due0, chip, line, period);
    for n := 0 to |delays|
      invariant Ready(acia, timers, next, period) && |ps| == n
      invariant Clocking(ps, delays, start, timers.now, due0, timers.Due(), chip, acia.View(), line, bits, period)
    {
      ghost var due, view, before, time := timers.Due(), acia.View(), bits, timers.now;
      ghost var log;
      bits, log := FlushBits(acia, timers, delays[n], next, line, bits, period);
      ghost var p := Phase(due, timers.now, next, log);
      ClockingGoesOn(ps, delays, start, time, due0, p, timers.Due(), chip, view, acia.View(), line, before, bits,
                     period);
      ps := ps + [p];
    }
    ClockingOnTime(ps, delays, start, timers.now, due0, timers.Due(), chip, acia.View(), line, bits, period);
  }

  lemma ClockingBegins(delays: seq<nat>, start: int, due0: map<int, int>, c: Chip, line: nat -> bool, period: int)
    requires Counting(c) && IKBD in due0
    ensures Clocking([], delays, start, start, due0, due0, c, c, line, 0, period)
  {
    RunBegins(due0, delays, IKBD, period);
  }

  lemma ClockingGoesOn(ps: seq<Phase>, delays: seq<nat>, start: int, time: int, due0: map<int, int>, p: Phase,
                       due: map<int, int>, chip: Chip, before: Chip, after: Chip, line: nat -> bool,
                       bits: nat, total: nat, period: int)
    requires Clocking(ps, delays, start, time, due0, p.due, chip, before, line, bits, period)
    requires |ps| < |delays| && p.now == time + delays[|ps|] && BitTimer(p.next, period)
    requires Done(p.due, due, p.log, p.now, p.next, before, after, line, bits, total)
    ensures Clocking(ps + [p], delays, start, p.now, due0, due, chip, after, line, total, period)
  {
    hide InOrder;
    hide Replay;
    hide Periodic;
    hide Later;
    hide Clocked;
    hide Sum;
    SumStep(delays, |ps|);
    ReachedNext(ps, due0, p, IKBD, period);
    assert (ps + [p])[..|ps|] == ps;
    ClockedFurther(chip, line, 0, bits, total - bits);
  }

  /** Every bit of such a run was due at its time. */
  lemma ClockingOnTime(ps: seq<Phase>, delays: seq<nat>, start: int, now: int, due0: map<int, int>,
                       due: map<int, int>, before: Chip, after: Chip, line: nat -> bool, bits: nat, period: int)
    requires Clocking(ps, delays, start, now, due0, due, before, after, line, bits, period)
    ensures IKBD in due0 && IKBD in due && due[IKBD] == due0[IKBD] + bits * period
    ensures forall j, i | 0 <= j < |ps| && 0 <= i < |ps[j].log| && ps[j].log[i].id == IKBD ::
              OnTime(ps, IKBD, period, j, i)
  {
    hide Chained;
    RunDoesNotDrift(ps, due0, due, IKBD, period);
  }
}
