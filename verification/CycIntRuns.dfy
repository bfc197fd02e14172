/** Runs of the scheduler: cycles pass, what has become due is dispatched, more cycles pass. */
module CycIntRuns {
  import opened Utils
  import opened CycInt

  /** One dispatch: the due times it met, when it took place, what handlers asked for, and what it called. */
  datatype Phase = Phase(due: map<int, int>, now: int, next: (int, int) -> Requests, log: seq<Event>)

  function After(p: Phase): map<int, int> {
    Replay(p.due, p.log, p.now, p.next)
  }

  /** A run, seen by handler `h`: each phase may have its own time, and between two phases anything may happen to
      the other events. */
  ghost predicate Chained(ps: seq<Phase>, h: int, period: int)
    decreases |ps|
  {
    ps == [] ||
    (var n := |ps| - 1; var p := ps[n];
     && Chained(ps[..n], h, period)
     && h in p.due && InOrder(p.due, p.log, p.now, p.next) && Periodic(p.next, h, period)
     && (n > 0 ==> h in After(ps[n - 1]) && p.due[h] == After(ps[n - 1])[h]))
  }

  /** How often handler `h` is called in a run. */
  function Calls(ps: seq<Phase>, h: int): nat
    decreases |ps|
  {
    if ps == [] then 0 else Calls(ps[..|ps| - 1], h) + Firings(ps[|ps| - 1].log, h)
  }

  /** Entry `i` of the log of phase `j` is due where an undisturbed clock has it. */
  ghost predicate OnTime(ps: seq<Phase>, h: int, period: int, j: nat, i: nat)
    requires j < |ps| && i < |ps[j].log| && h in ps[0].due
  {
    ps[j].log[i].due == ps[0].due[h] + (Calls(ps[..j], h) + Firings(ps[j].log[..i], h)) * period
  }

  lemma {:induction false} DueAfterPhases(ps: seq<Phase>, h: int, period: int)
    requires ps != [] && Chained(ps, h, period)
    ensures h in ps[0].due && h in After(ps[|ps| - 1])
    ensures After(ps[|ps| - 1])[h] == ps[0].due[h] + Calls(ps, h) * period
    ensures ps[|ps| - 1].due[h] == ps[0].due[h] + Calls(ps[..|ps| - 1], h) * period
    decreases |ps|
  {
    hide InOrder;
    hide Replay;
    hide Periodic;
    var n := |ps| - 1;
    var p := ps[n];
    NoDrift(p.due, p.log, p.now, p.next, h, period);
    Distribute(Calls(ps[..n], h), Firings(p.log, h), period);
    if n > 0 {
      DueAfterPhases(ps[..n], h, period);
    } else {
      assert Calls(ps[..n], h) == 0;
    }
  }

  lemma {:induction false} PrefixChained(ps: seq<Phase>, h: int, period: int, n: nat)
    requires Chained(ps, h, period) && n <= |ps|
    ensures Chained(ps[..n], h, period)
    decreases |ps|
  {
    if n < |ps| {
      PrefixChained(ps[..|ps| - 1], h, period, n);
      assert ps[..|ps| - 1][..n] == ps[..n];
    } else {
      assert ps[..n] == ps;
    }
  }

  lemma LoggedOnTime(ps: seq<Phase>, h: int, period: int, j: nat, i: nat)
    requires Chained(ps, h, period) && j < |ps| && i < |ps[j].log| && ps[j].log[i].id == h
    ensures h in ps[0].due && OnTime(ps, h, period, j, i)
  {
    hide InOrder;
    hide Replay;
    hide Periodic;
    var qs := ps[..j + 1];
    assert qs[..j] == ps[..j] && qs[j] == ps[j] && qs[0] == ps[0];
    PrefixChained(ps, h, period, j + 1);
    DueAfterPhases(qs, h, period);
    var p := ps[j];
    NoDrift(p.due, p.log, p.now, p.next, h, period);
    Distribute(Calls(ps[..j], h), Firings(p.log[..i], h), period);
  }

  /** However late each call of a run is, the k-th one is due exactly k periods after the first. */
  lemma NoDriftOverPhases(ps: seq<Phase>, h: int, period: int)
    requires ps != [] && Chained(ps, h, period)
    ensures h in ps[0].due && h in After(ps[|ps| - 1])
    ensures After(ps[|ps| - 1])[h] == ps[0].due[h] + Calls(ps, h) * period
    ensures forall j, i | 0 <= j < |ps| && 0 <= i < |ps[j].log| && ps[j].log[i].id == h :: OnTime(ps, h, period, j, i)
  {
    hide Chained;
    hide OnTime;
    hide After;
    DueAfterPhases(ps, h, period);
    forall j, i | 0 <= j < |ps| && 0 <= i < |ps[j].log| && ps[j].log[i].id == h ensures OnTime(ps, h, period, j, i) {
      LoggedOnTime(ps, h, period, j, i);
    }
  }

  lemma ChainGrows(ps: seq<Phase>, p: Phase, h: int, period: int)
    requires Chained(ps, h, period)
    requires h in p.due && InOrder(p.due, p.log, p.now, p.next) && Periodic(p.next, h, period)
    requires ps != [] ==> h in After(ps[|ps| - 1]) && p.due[h] == After(ps[|ps| - 1])[h]
    ensures Chained(ps + [p], h, period) && Calls(ps + [p], h) == Calls(ps, h) + Firings(p.log, h)
  {
    assert (ps + [p])[..|ps|] == ps;
  }

  function Sum(delays: seq<nat>): nat {
    if delays == [] then 0 else Sum(delays[..|delays| - 1]) + delays[|delays| - 1]
  }

  /** The phases took place when the first `|ps|` delays had passed, one after the other. */
  ghost predicate Timed(ps: seq<Phase>, start: int, delays: seq<nat>) {
    |ps| <= |delays| && forall j | 0 <= j < |ps| :: ps[j].now == start + Sum(delays[..j + 1])
  }

  lemma SumStep(delays: seq<nat>, n: nat)
    requires n < |delays|
    ensures Sum(delays[..n + 1]) == Sum(delays[..n]) + delays[n]
  {
    assert delays[..n + 1][..n] == delays[..n];
  }

  /** A run that has come to `due` after the phases `ps`. */
  ghost predicate Reached(ps: seq<Phase>, due0: map<int, int>, due: map<int, int>, h: int, period: int) {
    && Chained(ps, h, period) && h in due
    && if ps == [] then due == due0 else ps[0].due == due0 && due == After(ps[|ps| - 1])
  }

  lemma ReachedNext(ps: seq<Phase>, due0: map<int, int>, p: Phase, h: int, period: int)
    requires Reached(ps, due0, p.due, h, period)
    requires InOrder(p.due, p.log, p.now, p.next) && Periodic(p.next, h, period)
    ensures Reached(ps + [p], due0, Replay(p.due, p.log, p.now, p.next), h, period)
  {
    hide Chained;
    hide InOrder;
    hide Periodic;
    hide Replay;
    ChainGrows(ps, p, h, period);
    DueAfterPhases(ps + [p], h, period);
  }

  /** A run of the program: the delays between the dispatches are arbitrary. */
  method Run(s: Scheduler, delays: seq<nat>, next: (int, int) -> Requests, ghost h: int, ghost period: int)
    returns (ghost ps: seq<Phase>)
    requires s.Valid() && s.Linked() && s.Small() && Later(next) && Periodic(next, h, period) && h in s.Due()
    modifies s, s.handlers
    ensures s.Valid() && s.Linked() && s.Small() && s.now == old(s.now) + Sum(delays)
    ensures |ps| == |delays| && Timed(ps, old(s.now), delays) && Reached(ps, old(s.Due()), s.Due(), h, period)
    ensures delays != [] ==> forall k | k in s.Due() :: s.Due()[k] > s.now
  {
    hide InOrder;
    hide Periodic;
    hide Later;
    hide Replay;
    hide Reached;
    hide DueOf;
    hide Sum;
    ghost var due0 := s.Due();
    ps := [];
    RunBegins(due0, delays, h, period);
    for n := 0 to |delays|
      invariant s.Valid() && s.Linked() && s.Small() && s.now == old(s.now) + Sum(delays[..n])
      invariant |ps| == n && Timed(ps, old(s.now), delays) && Reached(ps, due0, s.Due(), h, period)
      invariant n > 0 ==> forall k | k in s.Due() :: s.Due()[k] > s.now
    {
      ghost var due := s.Due();
      ghost var log := s.FlushCycles(delays[n], next);
      SumStep(delays, n);
      ReachedNext(ps, due0, Phase(due, s.now, next, log), h, period);
      ps := ps + [Phase(due, s.now, next, log)];
    }
    assert delays[..|delays|] == delays;
  }

  lemma RunBegins(due: map<int, int>, delays: seq<nat>, h: int, period: int)
    ensures Sum(delays[..0]) == 0 && (h in due ==> Reached([], due, due, h, period))
  {
  }

  /** What a run means for a periodic handler. */
  lemma RunDoesNotDrift(ps: seq<Phase>, due0: map<int, int>, due: map<int, int>, h: int, period: int)
    requires Reached(ps, due0, due, h, period)
    ensures h in due0 && due[h] == due0[h] + Calls(ps, h) * period
    ensures forall j, i | 0 <= j < |ps| && 0 <= i < |ps[j].log| && ps[j].log[i].id == h :: OnTime(ps, h, period, j, i)
  {
    if ps != [] {
      NoDriftOverPhases(ps, h, period);
    }
  }
}
