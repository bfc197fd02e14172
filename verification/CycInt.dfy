/** The cycle interrupt scheduler of src/cycInt.c. The program keeps one counter that it decrements,
    for the event that is due next, and rebases the table of all events only when the table changes.

    The reference is the plain meaning of the table: a map from pending events to the absolute time
    at which they are due, and the counts of the stopped ones. Every operation below is specified by
    what it does to these two maps. */
module CycInt {
  import opened Utils

  const MAX_INTERRUPTS: int := 17
  const INT_MAX: int := 0x7fff_ffff

  datatype Handler = Handler(used: bool, cycles: int)

  // ------------------------------------------------------- conversion of cycle units

  datatype CycleType = CpuCycle | MfpCycle | Cpu8Cycle

  function Pow2(n: nat): (r: int)
    ensures r >= 1
  {
    if n == 0 then 1 else 2 * Pow2(n - 1)
  }

  /** C division, which truncates towards zero. */
  function TruncDiv(a: int, b: int): int
    requires b > 0
  {
    if a >= 0 then a / b else -((-a) / b)
  }

  function ToInternal(cycles: int, kind: CycleType, shift: nat): int {
    match kind
    case CpuCycle => cycles * 9600
    case MfpCycle => cycles * 31333 * Pow2(shift)
    case Cpu8Cycle => cycles * 9600 * Pow2(shift)
  }

  /** Right shifts of negative numbers round down. */
  function FromInternal(cycles: int, kind: CycleType, shift: nat): int {
    match kind
    case CpuCycle => TruncDiv(cycles, 9600)
    case MfpCycle => TruncDiv(cycles + 31333 - 1, 31333) / Pow2(shift)
    case Cpu8Cycle => TruncDiv(cycles, 9600) / Pow2(shift)
  }

  // ------------------------------------------------------- the table as two maps

  type Table = hs: seq<Handler> | |hs| == MAX_INTERRUPTS witness seq(MAX_INTERRUPTS, _ => Handler(false, 0))

  /** Due times of the pending events of a table that was rebased at time `base`. */
  function DueOf(hs: Table, base: int): map<int, int> {
    map h | 0 < h < MAX_INTERRUPTS && hs[h].used :: base + hs[h].cycles
  }

  /** Counts of the events that are not pending. */
  function FrozenOf(hs: Table): map<int, int> {
    map h | 0 < h < MAX_INTERRUPTS && !hs[h].used :: hs[h].cycles
  }

  function Rebase(hs: Table, elapsed: int): Table {
    seq(MAX_INTERRUPTS, i requires 0 <= i < MAX_INTERRUPTS =>
      if hs[i].used then Handler(true, hs[i].cycles - elapsed) else hs[i])
  }

  lemma RebaseKeeps(hs: Table, base: int, elapsed: int)
    ensures DueOf(Rebase(hs, elapsed), base + elapsed) == DueOf(hs, base)
    ensures FrozenOf(Rebase(hs, elapsed)) == FrozenOf(hs)
    ensures 0 !in DueOf(hs, base)
  {
    assert DueOf(Rebase(hs, elapsed), base + elapsed).Keys == DueOf(hs, base).Keys;
    assert FrozenOf(Rebase(hs, elapsed)).Keys == FrozenOf(hs).Keys;
  }

  lemma StartEntry(hs: Table, base: int, h: int, count: int)
    requires 0 < h < MAX_INTERRUPTS
    ensures DueOf(hs[h := Handler(true, count)], base) == DueOf(hs, base)[h := base + count]
    ensures FrozenOf(hs[h := Handler(true, count)]) == FrozenOf(hs) - {h}
  {
    var hs' := hs[h := Handler(true, count)];
    assert DueOf(hs', base).Keys == DueOf(hs, base).Keys + {h};
    assert FrozenOf(hs').Keys == FrozenOf(hs).Keys - {h};
  }

  lemma StopEntry(hs: Table, base: int, h: int)
    requires 0 < h < MAX_INTERRUPTS
    ensures DueOf(hs[h := hs[h].(used := false)], base) == DueOf(hs, base) - {h}
    ensures FrozenOf(hs[h := hs[h].(used := false)]) == FrozenOf(hs)[h := hs[h].cycles]
  {
    var hs' := hs[h := hs[h].(used := false)];
    assert DueOf(hs', base).Keys == DueOf(hs, base).Keys - {h};
    assert FrozenOf(hs').Keys == FrozenOf(hs).Keys + {h};
  }

  /** The entry without a function belongs to no event. */
  lemma NullEntry(hs: Table, base: int, x: Handler)
    ensures DueOf(hs[0 := x], base) == DueOf(hs, base) && FrozenOf(hs[0 := x]) == FrozenOf(hs)
  {
    assert DueOf(hs[0 := x], base).Keys == DueOf(hs, base).Keys;
    assert FrozenOf(hs[0 := x]).Keys == FrozenOf(hs).Keys;
  }

  lemma NullFrozen(hs: Table)
    ensures FrozenOf(hs) - {0} == FrozenOf(hs)
  {
  }

  lemma NothingDue(hs: Table, base: int)
    requires forall h | 0 < h < MAX_INTERRUPTS :: !hs[h].used
    ensures DueOf(hs, base) == map[]
  {
  }

  lemma PendingOrFrozen(hs: Table, base: int, h: int)
    requires 0 < h < MAX_INTERRUPTS
    ensures if hs[h].used then h !in FrozenOf(hs) && h in DueOf(hs, base) && DueOf(hs, base)[h] == base + hs[h].cycles
            else h !in DueOf(hs, base) && h in FrozenOf(hs) && FrozenOf(hs)[h] == hs[h].cycles
  {
  }

  /** Bringing a table up to date and then stopping one entry. */
  lemma StopRebased(hs: Table, base: int, elapsed: int, h: int)
    requires 0 < h < MAX_INTERRUPTS
    ensures var r := Rebase(hs, elapsed); var hs' := r[h := r[h].(used := false)];
            && DueOf(hs', base + elapsed) == DueOf(hs, base) - {h}
            && FrozenOf(hs') == if h in DueOf(hs, base) then FrozenOf(hs)[h := DueOf(hs, base)[h] - (base + elapsed)]
                                else FrozenOf(hs)
  {
    var r := Rebase(hs, elapsed);
    RebaseKeeps(hs, base, elapsed);
    StopEntry(r, base + elapsed, h);
    if !hs[h].used {
      assert FrozenOf(hs)[h := hs[h].cycles] == FrozenOf(hs);
    }
  }

  /** Making an entry pending again and then bringing the table up to date. */
  lemma ResumeRebased(hs: Table, base: int, elapsed: int, h: int)
    requires 0 < h < MAX_INTERRUPTS
    ensures var hs' := Rebase(hs[h := hs[h].(used := true)], elapsed);
            && DueOf(hs', base + elapsed) ==
               (if h in FrozenOf(hs) then DueOf(hs, base)[h := FrozenOf(hs)[h] + base] else DueOf(hs, base))
            && FrozenOf(hs') == FrozenOf(hs) - {h}
  {
    var r := hs[h := hs[h].(used := true)];
    RebaseKeeps(r, base, elapsed);
    StartEntry(hs, base, h, hs[h].cycles);
    if hs[h].used {
      assert r == hs;
    }
  }

  lemma ChangeEntry(hs: Table, base: int, h: int, c: int)
    requires 0 < h < MAX_INTERRUPTS
    ensures var hs' := hs[h := hs[h].(cycles := hs[h].cycles + c)];
            if hs[h].used then
              DueOf(hs', base) == DueOf(hs, base)[h := DueOf(hs, base)[h] + c] && FrozenOf(hs') == FrozenOf(hs)
            else
              DueOf(hs', base) == DueOf(hs, base) && FrozenOf(hs') == FrozenOf(hs)[h := FrozenOf(hs)[h] + c]
  {
    var hs' := hs[h := hs[h].(cycles := hs[h].cycles + c)];
    assert DueOf(hs', base).Keys == DueOf(hs, base).Keys;
    assert FrozenOf(hs').Keys == FrozenOf(hs).Keys;
  }

  // ------------------------------------------------------------------ dispatching

  datatype Event = Event(id: int, due: int)

  predicate Before(a: Event, b: Event) {
    a.due < b.due || (a.due == b.due && a.id < b.id)
  }

  /** The event that has to fire first: the smallest due time, the lowest id among equals. */
  ghost predicate Earliest(due: map<int, int>, h: int) {
    h in due && forall k | k in due && k != h :: Before(Event(h, due[h]), Event(k, due[k]))
  }

  /** What a handler asks for when it is called: new counts, from now, for some handlers, and no more calls for
      others. No handler is called twice in one dispatch with the same lateness, so a function of handler and lateness
      can stand for whatever the handlers do in it. */
  type Requests = map<int, Option<int>>

  /** Handlers only ask for times after the one at which they were due. */
  ghost predicate Later(next: (int, int) -> Requests) {
    forall h, over, k | over >= 0 && k in next(h, over) ::
      0 < k < MAX_INTERRUPTS && (next(h, over)[k].Some? ==> -over < next(h, over)[k].value < INT_MAX)
  }

  function Apply(due: map<int, int>, asked: Requests, now: int): map<int, int> {
    map k | k in due.Keys + asked.Keys && (k in asked ==> asked[k].Some?) ::
      if k in asked then now + asked[k].value else due[k]
  }

  /** What becomes of event `k`: it is due at a new time, or no more, or nothing was asked for it. */
  lemma Applied(due: map<int, int>, asked: Requests, now: int, k: int)
    ensures var r := Apply(due, asked, now);
            if k !in asked then (k in r <==> k in due) && (k in due ==> r[k] == due[k])
            else match asked[k]
                 case Some(count) => k in r && r[k] == now + count
                 case None => k !in r
  {
  }

  /** The due times after handler `h` has run. */
  function Fire(due: map<int, int>, h: int, now: int, next: (int, int) -> Requests): map<int, int> {
    if h !in due then due else Apply(due - {h}, next(h, now - due[h]), now)
  }

  function Replay(due: map<int, int>, log: seq<Event>, now: int, next: (int, int) -> Requests): map<int, int> {
    if log == [] then due
    else Fire(Replay(due, log[..|log| - 1], now, next), log[|log| - 1].id, now, next)
  }

  /** Every logged event was due, at the logged time, and was the first to fire at its point. */
  ghost predicate InOrder(due: map<int, int>, log: seq<Event>, now: int, next: (int, int) -> Requests) {
    forall i | 0 <= i < |log| ::
      var d := Replay(due, log[..i], now, next);
      Earliest(d, log[i].id) && d[log[i].id] == log[i].due <= now
  }

  lemma LogGrows(due: map<int, int>, log: seq<Event>, now: int, next: (int, int) -> Requests, h: int)
    requires InOrder(due, log, now, next)
    requires var d := Replay(due, log, now, next); Earliest(d, h) && d[h] <= now
    ensures var d := Replay(due, log, now, next); var log' := log + [Event(h, d[h])];
            InOrder(due, log', now, next) && Replay(due, log', now, next) == Fire(d, h, now, next)
  {
    var log' := log + [Event(h, Replay(due, log, now, next)[h])];
    assert log'[..|log|] == log;
    forall i | 0 <= i < |log'|
      ensures var d := Replay(due, log'[..i], now, next);
              Earliest(d, log'[i].id) && d[log'[i].id] == log'[i].due <= now
    {
      assert log'[..i] == log[..i];
      if i == |log| {
        assert log[..i] == log;
      }
    }
  }

  /** How many of the events with ids below `n` are due at time `t`. */
  function Level(due: map<int, int>, t: int, n: nat): nat {
    if n == 0 then 0 else Level(due, t, n - 1) + if n - 1 in due && due[n - 1] == t then 1 else 0
  }

  lemma {:induction false} LevelFalls(due: map<int, int>, due': map<int, int>, t: int, h: int, n: nat)
    requires h in due && due[h] == t && forall k | k in due' && due'[k] == t :: k != h && k in due && due[k] == t
    ensures Level(due', t, n) <= Level(due, t, n) && (0 <= h < n ==> Level(due', t, n) < Level(due, t, n))
  {
    if n > 0 {
      LevelFalls(due, due', t, h, n - 1);
    }
  }

  /** Whatever the handler of the earliest event asks for, nothing is due before that event afterwards, and
      less is due at its time. This is why the loop ends. */
  lemma FireProgress(due: map<int, int>, h: int, now: int, next: (int, int) -> Requests, n: nat)
    requires Earliest(due, h) && due[h] <= now && Later(next) && 0 <= h < n
    ensures var due' := Fire(due, h, now, next);
            (forall k | k in due' :: due[h] <= due'[k]) && Level(due', due[h], n) < Level(due, due[h], n)
  {
    var due' := Fire(due, h, now, next);
    assert now - due[h] >= 0;
    LevelFalls(due, due', due[h], h, n);
  }

  lemma NoEvents(due: map<int, int>, now: int, next: (int, int) -> Requests)
    ensures InOrder(due, [], now, next) && Replay(due, [], now, next) == due
  {
  }

  /** Events fire in strictly increasing order of due time and id, also when handlers ask again. */
  lemma {:induction false} FiringOrder(due: map<int, int>, log: seq<Event>, now: int, next: (int, int) -> Requests,
                                       i: nat, j: nat)
    requires InOrder(due, log, now, next) && Later(next) && i < j < |log|
    ensures log[i].due < log[j].due || (log[i].due == log[j].due && log[i].id < log[j].id)
    decreases j - i
  {
    if j == i + 1 {
      assert log[..j][..i] == log[..i];
      var d := Replay(due, log[..i], now, next);
      assert Replay(due, log[..j], now, next) == Fire(d, log[i].id, now, next);
    } else {
      FiringOrder(due, log, now, next, i, j - 1);
      FiringOrder(due, log, now, next, j - 1, j);
    }
  }

  /** How often handler `h` fires in a log. */
  function Firings(log: seq<Event>, h: int): nat {
    if log == [] then 0
    else Firings(log[..|log| - 1], h) + if log[|log| - 1].id == h then 1 else 0
  }

  /** A handler that restarts itself `period` cycles after the time it was due, like the ACIA timer, and that
      no other handler starts or stops. */
  ghost predicate Periodic(next: (int, int) -> Requests, h: int, period: int) {
    forall k, over ::
      if k == h then h in next(k, over) && next(k, over)[h] == Some(period - over) else h !in next(k, over)
  }

  /** However late the calls are, the due times of a periodic handler do not drift. */
  lemma {:induction false} NoDrift(due: map<int, int>, log: seq<Event>, now: int, next: (int, int) -> Requests,
                                   h: int, period: int)
    requires InOrder(due, log, now, next) && Periodic(next, h, period) && h in due
    ensures h in Replay(due, log, now, next)
    ensures Replay(due, log, now, next)[h] == due[h] + Firings(log, h) * period
    ensures forall i | 0 <= i < |log| && log[i].id == h :: log[i].due == due[h] + Firings(log[..i], h) * period
  {
    hide Replay;
    hide InOrder;
    if log == [] {
      NoEvents(due, now, next);
    } else {
      var n := |log| - 1;
      var pre := log[..n];
      PrefixInOrder(due, log, now, next, n);
      NoDrift(due, pre, now, next, h, period);
      DriftStep(due, log, now, next, h, period);
      var k := Firings(pre, h);
      assert (k + 1) * period == k * period + period;
      forall i | 0 <= i < |log| && log[i].id == h ensures log[i].due == due[h] + Firings(log[..i], h) * period {
        if i < n {
          assert pre[i] == log[i] && pre[..i] == log[..i];
        }
      }
    }
  }

  lemma PrefixInOrder(due: map<int, int>, log: seq<Event>, now: int, next: (int, int) -> Requests, n: nat)
    requires InOrder(due, log, now, next) && n <= |log|
    ensures InOrder(due, log[..n], now, next)
  {
    forall i | 0 <= i < n
      ensures var d := Replay(due, log[..n][..i], now, next);
              Earliest(d, log[..n][i].id) && d[log[..n][i].id] == log[..n][i].due <= now
    {
      assert log[..n][..i] == log[..i];
    }
  }

  /** The last event of a log: a periodic handler moves by its period when it fires, and not otherwise. */
  lemma DriftStep(due: map<int, int>, log: seq<Event>, now: int, next: (int, int) -> Requests, h: int, period: int)
    requires InOrder(due, log, now, next) && Periodic(next, h, period) && log != []
    requires h in Replay(due, log[..|log| - 1], now, next)
    ensures var v := Replay(due, log[..|log| - 1], now, next)[h]; var last := log[|log| - 1];
            && h in Replay(due, log, now, next)
            && Replay(due, log, now, next)[h] == (if last.id == h then v + period else v)
            && (last.id == h ==> last.due == v)
  {
  }

  /** The requests for ids below `n`. */
  function Part(asked: Requests, n: int): Requests {
    map k | k in asked && k < n :: asked[k]
  }

  lemma ApplyNone(due: map<int, int>, asked: Requests, now: int)
    requires forall k | k in asked :: k > 0
    ensures Apply(due, Part(asked, 1), now) == due
  {
  }

  lemma PartAll(asked: Requests, n: int)
    requires forall k | k in asked :: k < n
    ensures Part(asked, n) == asked
  {
  }

  lemma ApplyOne(due: map<int, int>, asked: Requests, now: int, k: int)
    ensures var before, after := Apply(due, Part(asked, k), now), Apply(due, Part(asked, k + 1), now);
            after == if k !in asked then before
                     else if asked[k].Some? then before[k := now + asked[k].value] else before - {k}
  {
    var before, after := Apply(due, Part(asked, k), now), Apply(due, Part(asked, k + 1), now);
    assert forall j :: j in Part(asked, k + 1) <==> j in Part(asked, k) || (j == k && k in asked);
    if k !in asked {
      assert Part(asked, k + 1) == Part(asked, k);
    } else if asked[k].Some? {
      assert after.Keys == before.Keys + {k};
    } else {
      assert after.Keys == before.Keys - {k};
    }
  }

  // ------------------------------------------------------------------ the program

  class Scheduler {
    const handlers: array<Handler>
    const freqShift: nat
    var active: int
    var pendingCount: int
    var pendingFunction: int   // handler id of the function to call, 0 for none
    var cyclesOver: int
    ghost var now: int         // cycles executed so far

    /** Cycles executed since the table was rebased. */
    ghost function Elapsed(): int
      reads this, handlers
      requires handlers.Length == MAX_INTERRUPTS && 0 <= active < MAX_INTERRUPTS
    {
      handlers[active].cycles - pendingCount
    }

    /** Cycles until handler `h` is due. */
    ghost function Rem(h: int): int
      reads this, handlers
      requires handlers.Length == MAX_INTERRUPTS && 0 <= active < MAX_INTERRUPTS && 0 <= h < MAX_INTERRUPTS
    {
      handlers[h].cycles - Elapsed()
    }

    /** The table makes sense: the active entry is the earliest pending one, the lowest id among equals. */
    ghost predicate Valid()
      reads this, handlers
    {
      && handlers.Length == MAX_INTERRUPTS
      && 0 <= active < MAX_INTERRUPTS
      && (forall h | 0 < h < MAX_INTERRUPTS && handlers[h].used ::
            && active > 0
            && handlers[active].cycles <= handlers[h].cycles
            && (handlers[active].cycles == handlers[h].cycles ==> active <= h))
      && (active > 0 ==> handlers[active].used)
    }

    /** The function to call is that of the active entry; a reset leaves the old one in place. */
    ghost predicate Linked()
      reads this
    {
      pendingFunction == active
    }

    /** Absolute due times of the pending events. */
    ghost function Due(): map<int, int>
      reads this, handlers
      requires Valid()
    {
      DueOf(handlers[..], now - Elapsed())
    }

    /** Counts of the events that are not pending. */
    ghost function Frozen(): map<int, int>
      reads this, handlers
      requires Valid()
    {
      FrozenOf(handlers[..])
    }

    /** No counter reaches the largest 32 bit integer: the source relies on an event that is always near. */
    ghost predicate Small()
      reads this, handlers
      requires Valid()
    {
      forall h | 0 < h < MAX_INTERRUPTS && handlers[h].used :: Rem(h) < INT_MAX
    }

    constructor (shift: nat)
      ensures Valid() && Linked() && Small() && Due() == map[] && fresh(handlers) && freqShift == shift && now == 0
    {
      handlers := new Handler[MAX_INTERRUPTS](_ => Handler(false, INT_MAX));
      freqShift := shift;
      active, pendingCount, pendingFunction, cyclesOver, now := 0, 0, 0, 0, 0;
    }

    /** The function to call is not reset. */
    method Reset()
      requires Valid()
      modifies this, handlers
      ensures Valid() && Due() == map[] && now == old(now) && cyclesOver == 0 && pendingCount == 0
      ensures pendingFunction == old(pendingFunction)
      ensures old(Linked()) ==> (Linked() <==> old(Due()) == map[])
    {
      ghost var hs, base := handlers[..], now - Elapsed();
      if active > 0 {
        PendingOrFrozen(hs, base, active);
      } else {
        NothingDue(hs, base);
      }
      pendingCount := 0;
      active := 0;
      cyclesOver := 0;
      for i := 0 to MAX_INTERRUPTS
        modifies handlers
        invariant forall k | 0 <= k < i :: handlers[k] == Handler(false, INT_MAX)
      {
        handlers[i] := Handler(false, INT_MAX);
      }
      NothingDue(handlers[..], now - Elapsed());
    }

    /** The processor has executed `n` cycles. */
    method Tick(n: nat)
      requires Valid()
      modifies this
      ensures Valid() && Due() == old(Due()) && Frozen() == old(Frozen()) && now == old(now) + n
      ensures active == old(active) && pendingFunction == old(pendingFunction) && pendingCount == old(pendingCount) - n
      ensures Elapsed() == old(Elapsed()) + n && (old(Small()) ==> Small())
    {
      pendingCount := pendingCount - n;
      now := now + n;
    }

    /** Chooses the earliest counter and copies it. */
    method SetNewInterrupt()
      requires handlers.Length == MAX_INTERRUPTS
      requires forall h | 0 < h < MAX_INTERRUPTS && handlers[h].used :: handlers[h].cycles < INT_MAX
      modifies `active, `pendingCount, `pendingFunction
      ensures Valid() && Linked() && Elapsed() == 0
      ensures active == 0 <==> forall h | 0 < h < MAX_INTERRUPTS :: !handlers[h].used
    {
      var lowestCount := INT_MAX;
      var lowest := 0;
      for i := 1 to MAX_INTERRUPTS
        invariant 0 <= lowest < i
        invariant if lowest > 0 then handlers[lowest].used && lowestCount == handlers[lowest].cycles
                  else lowestCount == INT_MAX
        invariant forall h | 0 < h < i && handlers[h].used ::
          lowest > 0 && lowestCount <= handlers[h].cycles && (lowestCount == handlers[h].cycles ==> lowest <= h)
      {
        if handlers[i].used {
          if handlers[i].cycles < lowestCount {
            lowestCount := handlers[i].cycles;
            lowest := i;
          }
        }
      }
      pendingCount := handlers[lowest].cycles;
      pendingFunction := lowest;
      active := lowest;
    }

    /** Rebases the table: all used counters are brought up to date. */
    method UpdateInterrupt()
      requires handlers.Length == MAX_INTERRUPTS && 0 <= active < MAX_INTERRUPTS
      modifies `cyclesOver, handlers
      ensures cyclesOver == pendingCount
      ensures handlers[..] == Rebase(old(handlers[..]), old(Elapsed()))
    {
      cyclesOver := pendingCount;
      var subtract := handlers[active].cycles - cyclesOver;
      for i := 0 to MAX_INTERRUPTS
        modifies handlers
        invariant forall h | 0 <= h < i ::
          handlers[h] == if old(handlers[h].used) then Handler(true, old(handlers[h].cycles) - subtract)
                         else old(handlers[h])
        invariant forall h | i <= h < MAX_INTERRUPTS :: handlers[h] == old(handlers[h])
      {
        if handlers[i].used {
          handlers[i] := handlers[i].(cycles := handlers[i].cycles - subtract);
        }
      }
    }

    /** Brings the table up to date before it is changed, if anything is pending. */
    method Settle()
      requires Valid() && Small()
      modifies `cyclesOver, handlers
      ensures DueOf(handlers[..], now) == old(Due()) && FrozenOf(handlers[..]) == old(Frozen())
      ensures forall h | 0 < h < MAX_INTERRUPTS ::
                handlers[h] == if old(handlers[h].used) then Handler(true, old(Rem(h))) else old(handlers[h])
      ensures cyclesOver == if active > 0 then pendingCount else old(cyclesOver)
      ensures active > 0 ==> active in old(Due()) && old(Due())[active] == now + pendingCount
    {
      hide DueOf;
      hide FrozenOf;
      ghost var hs, e, base := handlers[..], Elapsed(), now - Elapsed();
      if active > 0 {
        PendingOrFrozen(hs, base, active);
        UpdateInterrupt();
        RebaseKeeps(hs, base, e);
      } else {
        NothingDue(hs, base);
        NothingDue(hs, now);
      }
    }

    /** The active event has occurred: it is no longer pending. */
    method AcknowledgeInterrupt()
      requires Valid() && Small()
      modifies this, handlers
      ensures Valid() && Linked() && Small() && Elapsed() == 0 && now == old(now)
      ensures cyclesOver == old(pendingCount)
      ensures Due() == old(Due()) - {old(active)}
      ensures Frozen() == if old(active) == 0 then old(Frozen()) else old(Frozen())[old(active) := old(pendingCount)]
    {
      hide DueOf;
      hide FrozenOf;
      ghost var hs, e, base := handlers[..], Elapsed(), now - Elapsed();
      UpdateInterrupt();
      RebaseKeeps(hs, base, e);
      handlers[active] := handlers[active].(used := false);
      assert handlers[..] == Rebase(hs, e)[active := Rebase(hs, e)[active].(used := false)];
      if active > 0 {
        StopRebased(hs, base, e, active);
        PendingOrFrozen(hs, base, active);
      } else {
        NullEntry(Rebase(hs, e), base + e, handlers[0]);
        assert DueOf(hs, base) - {0} == DueOf(hs, base);
      }
      SetNewInterrupt();
    }

    method AddRelativeInterruptWithOffset(cycleTime: int, kind: CycleType, h: int, offset: int)
      requires Valid() && Small() && 0 < h < MAX_INTERRUPTS
      requires ToInternal(cycleTime, kind, freqShift) + offset < INT_MAX
      modifies this, handlers
      ensures Valid() && Linked() && Small() && Elapsed() == 0 && now == old(now)
      ensures Due() == old(Due())[h := now + ToInternal(cycleTime, kind, freqShift) + offset]
      ensures Frozen() == old(Frozen()) - {h}
      ensures cyclesOver == if old(active) > 0 then old(pendingCount) else old(cyclesOver)
    {
      hide ToInternal;
      hide DueOf;
      hide FrozenOf;
      Settle();
      ghost var hs1 := handlers[..];
      StartEntry(hs1, now, h, ToInternal(cycleTime, kind, freqShift) + offset);
      handlers[h] := Handler(true, ToInternal(cycleTime, kind, freqShift) + offset);
      assert handlers[..] == hs1[h := handlers[h]];
      SetNewInterrupt();
    }

    method AddRelativeInterrupt(cycleTime: int, kind: CycleType, h: int)
      requires Valid() && Small() && 0 < h < MAX_INTERRUPTS && ToInternal(cycleTime, kind, freqShift) < INT_MAX
      modifies this, handlers
      ensures Valid() && Linked() && Small() && now == old(now)
      ensures Due() == old(Due())[h := now + ToInternal(cycleTime, kind, freqShift)]
      ensures Frozen() == old(Frozen()) - {h}
    {
      AddRelativeInterruptWithOffset(cycleTime, kind, h, 0);
    }

    /** Meant to count from the time of the last interrupt. It counts from the due time of the next event; only
        if there is none, it counts from what the last rebase left of the time of the last interrupt. Entry 0
        has no function; its count matters only while nothing is pending. */
    method AddAbsoluteInterrupt(cycleTime: int, kind: CycleType, h: int)
      requires Valid() && Small() && 0 <= h < MAX_INTERRUPTS
      requires h > 0 ==>
        ToInternal(cycleTime, kind, freqShift) + (if active > 0 then pendingCount else cyclesOver) < INT_MAX
      modifies this, handlers
      ensures Valid() && Linked() && Small() && now == old(now)
      ensures old(active) > 0 ==> old(active) in old(Due())
      ensures Due() ==
        if h == 0 then old(Due())
        else old(Due())[h := ToInternal(cycleTime, kind, freqShift)
                             + if old(active) > 0 then old(Due())[old(active)] else now + old(cyclesOver)]
      ensures Frozen() == old(Frozen()) - {h}
      ensures h == 0 && old(active) == 0 ==>
        active == 0 && pendingCount == ToInternal(cycleTime, kind, freqShift) + old(cyclesOver)
    {
      hide ToInternal;
      hide DueOf;
      hide FrozenOf;
      Settle();
      ghost var hs1 := handlers[..];
      handlers[h] := Handler(true, ToInternal(cycleTime, kind, freqShift) + cyclesOver);
      assert handlers[..] == hs1[h := handlers[h]];
      if h > 0 {
        StartEntry(hs1, now, h, handlers[h].cycles);
      } else {
        NullEntry(hs1, now, handlers[0]);
        NullFrozen(hs1);
      }
      SetNewInterrupt();
    }

    /** Moves one event; an event that is not pending only gets a different count. */
    method ModifyInterrupt(cycleTime: int, kind: CycleType, h: int)
      requires Valid() && Small() && 0 < h < MAX_INTERRUPTS
      requires h in Due() ==> Rem(h) + ToInternal(cycleTime, kind, freqShift) < INT_MAX
      modifies this, handlers
      ensures Valid() && Linked() && Small() && Elapsed() == 0 && now == old(now)
      ensures Due() == if h in old(Due()) then old(Due())[h := old(Due()[h]) + ToInternal(cycleTime, kind, freqShift)]
                       else old(Due())
      ensures Frozen() ==
        if h in old(Frozen()) then old(Frozen())[h := old(Frozen()[h]) + ToInternal(cycleTime, kind, freqShift)]
        else old(Frozen())
    {
      hide ToInternal;
      hide DueOf;
      hide FrozenOf;
      Settle();
      ghost var hs1 := handlers[..];
      ChangeEntry(hs1, now, h, ToInternal(cycleTime, kind, freqShift));
      PendingOrFrozen(hs1, now, h);
      handlers[h] := handlers[h].(cycles := handlers[h].cycles + ToInternal(cycleTime, kind, freqShift));
      assert handlers[..] == hs1[h := handlers[h]];
      SetNewInterrupt();
    }

    /** Stops one event and keeps the cycles it had left. */
    method RemovePendingInterrupt(h: int)
      requires Valid() && Small() && 0 < h < MAX_INTERRUPTS
      modifies this, handlers
      ensures Valid() && Linked() && Small() && Elapsed() == 0 && now == old(now)
      ensures Due() == old(Due()) - {h}
      ensures Frozen() == if h in old(Due()) then old(Frozen())[h := old(Due()[h]) - now] else old(Frozen())
    {
      ghost var hs, e, base := handlers[..], Elapsed(), now - Elapsed();
      hide DueOf;
      hide FrozenOf;
      UpdateInterrupt();
      StopRebased(hs, base, e, h);
      handlers[h] := handlers[h].(used := false);
      assert handlers[..] == Rebase(hs, e)[h := Rebase(hs, e)[h].(used := false)];
      SetNewInterrupt();
    }

    /** Makes a stopped event pending again, its count running from the last rebase. */
    method ResumeStoppedInterrupt(h: int)
      requires Valid() && Small() && 0 < h < MAX_INTERRUPTS && Rem(h) < INT_MAX
      modifies this, handlers
      ensures Valid() && Linked() && Small() && Elapsed() == 0 && now == old(now)
      ensures Due() ==
        if h in old(Frozen()) then old(Due())[h := old(Frozen()[h]) + (now - old(Elapsed()))] else old(Due())
      ensures Frozen() == old(Frozen()) - {h}
      ensures h in old(Frozen()) ==> (Due()[h] == now + old(Frozen()[h]) <==> old(Elapsed()) == 0)
    {
      hide DueOf;
      hide FrozenOf;
      ghost var hs, e, base := handlers[..], Elapsed(), now - Elapsed();
      ResumeRebased(hs, base, e, h);
      handlers[h] := handlers[h].(used := true);
      assert handlers[..] == hs[h := handlers[h]];
      UpdateInterrupt();
      SetNewInterrupt();
    }

    method InterruptActive(h: int) returns (r: bool)
      requires Valid() && 0 < h < MAX_INTERRUPTS
      ensures r <==> h in Due()
    {
      r := handlers[h].used;
    }

    /** Despite its name this is the time left until the event, in the given unit. */
    method FindCyclesPassed(h: int, kind: CycleType) returns (r: int)
      requires Valid() && 0 < h < MAX_INTERRUPTS
      ensures h in Due() ==> r == FromInternal(Due()[h] - now, kind, freqShift)
    {
      var fromLastInterrupt := handlers[active].cycles - pendingCount;
      r := FromInternal(handlers[h].cycles - fromLastInterrupt, kind, freqShift);
    }

    lemma ActiveIsEarliest()
      requires Valid() && active > 0
      ensures Earliest(Due(), active) && Due()[active] == now + pendingCount
    {
    }

    lemma NothingIsDue()
      requires Valid() && (active > 0 ==> pendingCount > 0)
      ensures forall h | h in Due() :: Due()[h] > now
    {
    }

    /** What a handler asks for, one event after the other. */
    method CarryOut(asked: Requests)
      requires Valid() && Linked() && Small()
      requires forall k | k in asked :: 0 < k < MAX_INTERRUPTS && (asked[k].Some? ==> asked[k].value < INT_MAX)
      modifies this, handlers
      ensures Valid() && Linked() && Small() && now == old(now)
      ensures Due() == Apply(old(Due()), asked, now)
    {
      hide DueOf;
      hide FrozenOf;
      hide Apply;
      hide Part;
      ghost var due := Due();
      ApplyNone(due, asked, now);
      for k := 1 to MAX_INTERRUPTS
        invariant Valid() && Linked() && Small() && now == old(now)
        invariant Due() == Apply(due, Part(asked, k), now)
      {
        ApplyOne(due, asked, now, k);
        if k in asked {
          match asked[k]
          case Some(count) => AddRelativeInterruptWithOffset(0, CpuCycle, k, count);
          case None => RemovePendingInterrupt(k);
        }
      }
      PartAll(asked, MAX_INTERRUPTS);
    }

    /** The function of the active event: it acknowledges the event and carries out its requests. */
    method CallPendingFunction(next: (int, int) -> Requests)
      requires Valid() && Linked() && Small() && Later(next) && active > 0 && pendingCount <= 0
      modifies this, handlers
      ensures Valid() && Linked() && Small() && now == old(now)
      ensures Due() == Fire(old(Due()), old(active), now, next)
    {
      hide DueOf;
      hide FrozenOf;
      hide Apply;
      ActiveIsEarliest();
      var h := pendingFunction;
      var over := -pendingCount;
      AcknowledgeInterrupt();
      CarryOut(next(h, over));
    }

    /** The loop that calls every function that is due. A handler `h` that runs `over` cycles late
        asks for `next(h, over)`. */
    method Dispatch(next: (int, int) -> Requests) returns (ghost log: seq<Event>)
      requires Valid() && Linked() && Small() && Later(next)
      modifies this, handlers
      ensures Valid() && Linked() && Small() && now == old(now)
      ensures InOrder(old(Due()), log, now, next)
      ensures Due() == Replay(old(Due()), log, now, next)
      ensures forall h | h in Due() :: Due()[h] > now
    {
      hide DueOf;
      hide InOrder;
      hide Replay;
      hide Fire;
      hide Level;
      ghost var due0 := Due();
      log := [];
      NoEvents(due0, now, next);
      while pendingCount <= 0 && pendingFunction != 0
        invariant Valid() && Linked() && Small() && now == old(now)
        invariant InOrder(due0, log, now, next) && Due() == Replay(due0, log, now, next)
        decreases active > 0, -pendingCount, Level(Due(), now + pendingCount, MAX_INTERRUPTS)
      {
        ghost var due, h := Due(), active;
        ActiveIsEarliest();
        FireProgress(due, h, now, next, MAX_INTERRUPTS);
        CallPendingFunction(next);
        LogGrows(due0, log, now, next, h);
        log := log + [Event(h, due[h])];
        if active > 0 {
          ActiveIsEarliest();
        }
      }
      NothingIsDue();
    }

    /** A number of cycles is charged, and what has become due is dispatched. */
    method FlushCycles(n: nat, next: (int, int) -> Requests) returns (ghost log: seq<Event>)
      requires Valid() && Linked() && Small() && Later(next)
      modifies this, handlers
      ensures Valid() && Linked() && Small() && now == old(now) + n
      ensures InOrder(old(Due()), log, now, next)
      ensures Due() == Replay(old(Due()), log, now, next)
      ensures forall h | h in Due() :: Due()[h] > now
    {
      hide DueOf;
      hide FrozenOf;
      hide InOrder;
      hide Replay;
      hide Later;
      Tick(n);
      log := Dispatch(next);
    }
  }
}
