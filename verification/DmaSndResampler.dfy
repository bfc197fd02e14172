/** Laws of the resampler of the DMA sound model: which input sample each output sample is, however the output is
    divided among calls, and what of that is lost when a frame ends between two calls. */
module DmaSndResampler {
  import opened Utils
  import opened DmaSnd
  import opened DmaSndLaws

  /** Bytes in one input sample. */
  function GroupSize(mono: bool): nat { if mono then 1 else 2 }

  /** Input sample `g` of a stream. */
  function Input(s: Stream, ram: Ram, mono: bool, g: nat): (int, int)
    requires s.Valid()
  {
    if mono then (s.ByteAt(ram, g), s.ByteAt(ram, g)) else (s.ByteAt(ram, 2 * g), s.ByteAt(ram, 2 * g + 1))
  }

  /** Number of the input sample that output sample `n` plays. */
  function Heard(ratio: nat, n: nat): nat { n * ratio / ONE }

  /** The player is about to put out sample `n`: pulls, kept fraction, and the input sample it holds. */
  predicate InSync(p: Player, s: Stream, mono: bool, ram: Ram, ratio: nat, n: nat) {
    && s.Valid() && p.counter == n * ratio % ONE
    && if p.starting then n == 0 && Fed(p.core, s, 0)
       else Fed(p.core, s, GroupSize(mono) * (Heard(ratio, n) + 1))
            && (p.left, p.right) == Input(s, ram, mono, Heard(ratio, n))
  }

  lemma InSyncAligned(p: Player, s: Stream, mono: bool, ram: Ram, ratio: nat, n: nat)
    requires InSync(p, s, mono, ram, ratio, n)
    ensures Aligned(p.core) && 0 <= p.counter && s.Valid()
  {
  }

  // ------------------------------------------------------------------ inside one call

  lemma PullGroupFollows(p: Player, s: Stream, mono: bool, ram: Ram, g: nat)
    requires Fed(p.core, s, GroupSize(mono) * g)
    ensures Aligned(p.core) && s.Valid()
    ensures var r := PullGroup(p, mono, ram);
            Fed(r.core, s, GroupSize(mono) * (g + 1)) && (r.left, r.right) == Input(s, ram, mono, g)
  {
    hide Fed;
    hide PullF;
    PullFollows(p.core, s, ram, GroupSize(mono) * g);
    if !mono {
      PullFollows(PullF(p.core, ram).0, s, ram, 2 * g + 1);
    }
  }

  lemma {:induction false} PullGroupsFollow(p: Player, s: Stream, mono: bool, ram: Ram, g: nat, m: nat)
    requires Fed(p.core, s, GroupSize(mono) * (g + 1)) && s.Valid() && (p.left, p.right) == Input(s, ram, mono, g)
    ensures Aligned(p.core)
    ensures var r := PullGroups(p, mono, ram, m);
            Fed(r.core, s, GroupSize(mono) * (g + m + 1)) && (r.left, r.right) == Input(s, ram, mono, g + m)
  {
    hide PullGroup;
    hide Follows;
    hide Input;
    FollowsAligned(p.core, s);
    if m > 0 {
      PullGroupsFollow(p, s, mono, ram, g, m - 1);
      PullGroupFollows(PullGroups(p, mono, ram, m - 1), s, mono, ram, g + m);
    }
  }

  /** The fixed point counter carries exactly the fraction that is left over. */
  lemma CounterCarry(ratio: nat, n: nat)
    ensures (n * ratio % ONE + ratio) / ONE + Heard(ratio, n) == Heard(ratio, n + 1)
    ensures (n * ratio % ONE + ratio) % ONE == (n + 1) * ratio % ONE
  {
    assert (n + 1) * ratio == n * ratio + ratio;
    CarryOne(n * ratio, ratio);
  }

  lemma CarryOne(a: nat, b: nat)
    ensures (a % ONE + b) / ONE + a / ONE == (a + b) / ONE && (a % ONE + b) % ONE == (a + b) % ONE
  {
  }

  lemma ReadyInSync(p: Player, s: Stream, mono: bool, ram: Ram, ratio: nat, n: nat)
    requires InSync(p, s, mono, ram, ratio, n)
    ensures Aligned(p.core) && InSync(Ready(p, mono, ram), s, mono, ram, ratio, n)
  {
    hide PullGroup;
    hide Fed;
    hide Input;
    InSyncAligned(p, s, mono, ram, ratio, n);
    if p.starting {
      assert Heard(ratio, 0) == 0;
      PullGroupFollows(p, s, mono, ram, 0);
    }
  }

  lemma AdvanceInSync(p: Player, s: Stream, mono: bool, ram: Ram, ratio: nat, n: nat)
    requires InSync(p, s, mono, ram, ratio, n)
    ensures Aligned(p.core) && 0 <= p.counter
    ensures InSync(Advance(p, mono, ram, ratio), s, mono, ram, ratio, n + 1) && !Advance(p, mono, ram, ratio).starting
  {
    hide PullGroup;
    hide PullGroups;
    hide Fed;
    hide Input;
    hide Heard;
    InSyncAligned(p, s, mono, ram, ratio, n);
    ReadyInSync(p, s, mono, ram, ratio, n);
    var q := Ready(p, mono, ram);
    PullGroupsFollow(q, s, mono, ram, Heard(ratio, n), (q.counter + ratio) / ONE);
    CounterCarry(ratio, n);
  }

  lemma {:induction false} AdvanceNInSync(p: Player, s: Stream, mono: bool, ram: Ram, ratio: nat, n: nat, m: nat)
    requires InSync(p, s, mono, ram, ratio, n)
    ensures Aligned(p.core) && 0 <= p.counter
    ensures var r := AdvanceN(p, mono, ram, ratio, m);
            InSync(r, s, mono, ram, ratio, n + m) && (m > 0 ==> !r.starting)
  {
    hide Advance;
    hide Aligned;
    hide InSync;
    InSyncAligned(p, s, mono, ram, ratio, n);
    if m > 0 {
      AdvanceNInSync(p, s, mono, ram, ratio, n, m - 1);
      AdvanceInSync(AdvanceN(p, mono, ram, ratio, m - 1), s, mono, ram, ratio, n + m - 1);
    }
  }

  lemma SampleInSync(p: Player, s: Stream, mono: bool, ram: Ram, ratio: nat, n: nat, i: nat)
    requires InSync(p, s, mono, ram, ratio, n) && !Silent(p)
    ensures Aligned(p.core) && 0 <= p.counter && s.Valid()
    ensures SampleF(p, mono, ram, ratio, i) == Input(s, ram, mono, Heard(ratio, n + i))
  {
    hide Fed;
    hide AdvanceN;
    hide Input;
    InSyncAligned(p, s, mono, ram, ratio, n);
    AdvanceNInSync(p, s, mono, ram, ratio, n, i);
    ReadyInSync(AdvanceN(p, mono, ram, ratio, i), s, mono, ram, ratio, n + i);
  }

  // ------------------------------------------------------------------ from call to call

  /** The number of input samples in a frame that is played once. */
  function Groups(s: Stream, mono: bool): int
    requires s.Valid()
  {
    if mono then s.Total() else (s.Total() + 1) / 2
  }

  /** A call that begins with output sample `n` finds sound off and nothing left: all it does is hold the last
      sample. */
  predicate Stops(s: Stream, mono: bool, ratio: nat, n: nat)
    requires s.Valid()
  {
    s.kind == Once && n > 0 && Heard(ratio, n) + 1 >= Groups(s, mono)
  }

  /** Between two calls, about to put out sample `n`. */
  predicate AtCall(p: Player, s: Stream, mono: bool, ram: Ram, ratio: nat, n: nat) {
    InSync(p, s, mono, ram, ratio, n) && (p.starting <==> n == 0) && (s.kind == Once ==> s.Total() > 0)
  }

  /** Sound starts, whatever is waiting in the buffer and whatever the frame registers are. */
  lemma StartsInSync(p: Player, loop: bool, mono: bool, ram: Ram, ratio: nat)
    requires Aligned(p.core) && !p.core.frame.play
    ensures var s := Started(p.core, loop);
            var r := p.(core := SetControlF(p.core, true, loop), starting := true, counter := 0);
            s.Valid() && ((s.kind == Once && s.Total() == 0) || AtCall(r, s, mono, ram, ratio, 0))
  {
    hide Follows;
    StartsStream(p.core, loop);
    FollowsAligned(SetControlF(p.core, true, loop), Started(p.core, loop));
  }

  lemma SilentIffStops(p: Player, s: Stream, mono: bool, ram: Ram, ratio: nat, n: nat)
    requires AtCall(p, s, mono, ram, ratio, n)
    ensures s.Valid() && (Silent(p) <==> Stops(s, mono, ratio, n))
  {
    hide Follows;
    hide Input;
    hide Heard;
    FollowsAligned(p.core, s);
    NothingLeft(p.core, s);
  }

  /** What a program does while a frame plays: refill the buffer, or ask for some samples. */
  datatype Call = FillUp | Generate(n: nat)

  function RunCalls(p: Player, calls: seq<Call>, mono: bool, ram: Ram, ratio: nat): (Player, seq<(int, int)>)
    requires Aligned(p.core) && 0 <= p.counter
    decreases |calls|
  {
    if calls == [] then (p, [])
    else
      match calls[0]
      case FillUp => RunCalls(p.(core := RefillF(p.core)), calls[1..], mono, ram, ratio)
      case Generate(n) =>
        var out := seq(n, i requires 0 <= i < n => SampleF(p, mono, ram, ratio, i));
        var (r, rest) := RunCalls(GenerateF(p, mono, ram, ratio, n), calls[1..], mono, ram, ratio);
        (r, out + rest)
  }

  function SamplesAsked(calls: seq<Call>): nat {
    if calls == [] then 0 else (if calls[0].Generate? then calls[0].n else 0) + SamplesAsked(calls[1..])
  }

  /** How far the player gets: no call moves it once it has stopped. */
  function Reach(calls: seq<Call>, s: Stream, mono: bool, ratio: nat, n: nat): (r: nat)
    requires s.Valid()
    ensures n <= r <= n + SamplesAsked(calls)
    decreases |calls|
  {
    if calls == [] then n
    else
      var next := if calls[0].Generate? && !Stops(s, mono, ratio, n) then n + calls[0].n else n;
      Reach(calls[1..], s, mono, ratio, next)
  }

  lemma {:induction false} ReachEnds(calls: seq<Call>, s: Stream, mono: bool, ratio: nat, n: nat)
    requires s.Valid()
    ensures var r := Reach(calls, s, mono, ratio, n); r == n + SamplesAsked(calls) || Stops(s, mono, ratio, r)
    decreases |calls|
  {
    hide Stops;
    if calls != [] {
      var stopped := Stops(s, mono, ratio, n);
      ReachEnds(calls[1..], s, mono, ratio, if calls[0].Generate? && !stopped then n + calls[0].n else n);
      StaysStopped(calls, s, mono, ratio, n);
    }
  }

  function Min(a: nat, b: nat): nat { if a < b then a else b }

  lemma RefillAtCall(p: Player, s: Stream, mono: bool, ram: Ram, ratio: nat, n: nat)
    requires AtCall(p, s, mono, ram, ratio, n)
    ensures Aligned(p.core) && AtCall(p.(core := RefillF(p.core)), s, mono, ram, ratio, n)
  {
    hide Follows;
    RefillFollows(p.core, s);
  }

  /** The player after one call, and the samples of the call. */
  lemma CallInSync(p: Player, s: Stream, mono: bool, ram: Ram, ratio: nat, n: nat, m: nat)
    requires AtCall(p, s, mono, ram, ratio, n)
    ensures Aligned(p.core) && 0 <= p.counter && s.Valid()
    ensures var next := if Stops(s, mono, ratio, n) then n else n + m;
            && AtCall(GenerateF(p, mono, ram, ratio, m), s, mono, ram, ratio, next)
            && forall i | 0 <= i < m ::
                 SampleF(p, mono, ram, ratio, i) == Input(s, ram, mono, Heard(ratio, Min(n + i, next)))
  {
    hide Fed;
    hide AdvanceN;
    hide Input;
    hide Ready;
    hide Silent;
    hide Heard;
    InSyncAligned(p, s, mono, ram, ratio, n);
    SilentIffStops(p, s, mono, ram, ratio, n);
    if !Silent(p) {
      AdvanceNInSync(p, s, mono, ram, ratio, n, m);
      AdvanceNone(p, mono, ram, ratio);
      forall i | 0 <= i < m
        ensures SampleF(p, mono, ram, ratio, i) == Input(s, ram, mono, Heard(ratio, Min(n + i, n + m)))
      {
        SampleInSync(p, s, mono, ram, ratio, n, i);
      }
    }
  }

  lemma AdvanceNone(p: Player, mono: bool, ram: Ram, ratio: nat)
    requires Aligned(p.core) && 0 <= p.counter
    ensures AdvanceN(p, mono, ram, ratio, 0) == p
  {
  }

  /** Frames of every kind and any list of calls: output sample `n + i` is input sample `Heard(n + i)`, up to the
      sample at which a call found nothing left; that one is held. The bytes taken out and the kept fraction
      follow the number of samples up to there. */
  lemma {:induction false} ResamplerPlays(p: Player, calls: seq<Call>, s: Stream, mono: bool, ram: Ram, ratio: nat,
                                          n: nat)
    requires AtCall(p, s, mono, ram, ratio, n)
    ensures Aligned(p.core) && 0 <= p.counter && s.Valid()
    ensures var (r, out) := RunCalls(p, calls, mono, ram, ratio); var reach := Reach(calls, s, mono, ratio, n);
            && |out| == SamplesAsked(calls) && AtCall(r, s, mono, ram, ratio, reach)
            && forall i | 0 <= i < |out| :: out[i] == Input(s, ram, mono, Heard(ratio, Min(n + i, reach)))
    decreases |calls|
  {
    hide AtCall;
    hide Stops;
    hide Input;
    hide Heard;
    hide GenerateF;
    hide SampleF;
    CallInSync(p, s, mono, ram, ratio, n, 0);
    if calls != [] {
      match calls[0]
      case FillUp =>
        RefillAtCall(p, s, mono, ram, ratio, n);
        ResamplerPlays(p.(core := RefillF(p.core)), calls[1..], s, mono, ram, ratio, n);
      case Generate(m) =>
        CallInSync(p, s, mono, ram, ratio, n, m);
        var next := if Stops(s, mono, ratio, n) then n else n + m;
        var q := GenerateF(p, mono, ram, ratio, m);
        ResamplerPlays(q, calls[1..], s, mono, ram, ratio, next);
        var rest := RunCalls(q, calls[1..], mono, ram, ratio).1;
        var out := RunCalls(p, calls, mono, ram, ratio).1;
        StaysStopped(calls[1..], s, mono, ratio, next);
        forall i | 0 <= i < |out|
          ensures out[i] == Input(s, ram, mono, Heard(ratio, Min(n + i, Reach(calls, s, mono, ratio, n))))
        {
          if i < m {
            assert out[i] == SampleF(p, mono, ram, ratio, i);
          } else {
            assert out[i] == rest[i - m];
          }
        }
    }
  }

  lemma {:induction false} StaysStopped(calls: seq<Call>, s: Stream, mono: bool, ratio: nat, n: nat)
    requires s.Valid()
    ensures Stops(s, mono, ratio, n) ==> Reach(calls, s, mono, ratio, n) == n
    decreases |calls|
  {
    if calls != [] {
      StaysStopped(calls[1..], s, mono, ratio, n);
    }
  }

  lemma HeardBounds(ratio: nat, n: nat)
    ensures Heard(ratio, n) * 0x1_0000_0000 <= n * ratio < Heard(ratio, n) * 0x1_0000_0000 + 0x1_0000_0000
  {
  }

  lemma HeardMonotone(ratio: nat, m: nat, n: nat)
    requires m <= n
    ensures Heard(ratio, m) <= Heard(ratio, n)
  {
    HeardBounds(ratio, m);
    HeardBounds(ratio, n);
    Monotone(ratio, m, n);
  }

  /** A frame that is repeated, and one that is played once as long as it lasts: output sample `n + i` is input sample
      `Heard(n + i)`, however the samples are divided among calls. */
  lemma InsideFrame(p: Player, calls: seq<Call>, s: Stream, mono: bool, ram: Ram, ratio: nat, n: nat, i: nat)
    requires AtCall(p, s, mono, ram, ratio, n) && i < SamplesAsked(calls)
    requires s.Valid() && (s.kind == Once ==> Heard(ratio, n + i) < Groups(s, mono))
    ensures Aligned(p.core) && 0 <= p.counter && |RunCalls(p, calls, mono, ram, ratio).1| == SamplesAsked(calls)
    ensures RunCalls(p, calls, mono, ram, ratio).1[i] == Input(s, ram, mono, Heard(ratio, n + i))
  {
    hide AtCall;
    hide Input;
    hide Heard;
    hide RunCalls;
    ResamplerPlays(p, calls, s, mono, ram, ratio, n);
    var reach := Reach(calls, s, mono, ratio, n);
    ReachEnds(calls, s, mono, ratio, n);
    if reach < n + i {
      HeardMonotone(ratio, reach, n + i);
    }
  }

  // ------------------------------------------------------------------ the end of a frame

  /** After the last input sample there is silence. */
  lemma SilentTail(s: Stream, ram: Ram, mono: bool, g: nat)
    requires s.Valid() && s.kind == Once && g >= Groups(s, mono)
    ensures Input(s, ram, mono, g) == (0, 0)
  {
  }

  /** The samples do not depend on how they are divided among calls. */
  ghost predicate DivisionIndependent(p: Player, mono: bool, ram: Ram, ratio: nat)
    requires Aligned(p.core) && 0 <= p.counter
  {
    forall a, b | SamplesAsked(a) == SamplesAsked(b) ::
      RunCalls(p, a, mono, ram, ratio).1 == RunCalls(p, b, mono, ram, ratio).1
  }

  /** The first output sample, after the very first one, that is not before the last input sample. */
  function LastFrom(groups: int, ratio: nat): (n: nat)
    requires groups > 0 && ratio > 0
    ensures n > 0
  {
    if groups == 1 then 1 else Ceil((groups - 1) * ONE, ratio)
  }

  /** Some output sample, after the very first one, plays the last input sample: a call that begins there finds
      nothing left although the sample is still to be heard. */
  predicate CanStopEarly(s: Stream, mono: bool, ratio: nat)
    requires s.Valid() && s.Total() > 0
  {
    ratio > 0 && LastFrom(Groups(s, mono), ratio) * ratio < Groups(s, mono) * ONE
  }

  lemma LastHeard(groups: int, ratio: nat, n: nat)
    requires groups > 0 && ratio > 0 && n > 0
    ensures Heard(ratio, n) + 1 >= groups <==> n >= LastFrom(groups, ratio)
    ensures Heard(ratio, n) < groups <==> n * ratio < groups * ONE
  {
    HeardBounds(ratio, n);
    var h, l := Heard(ratio, n), LastFrom(groups, ratio);
    if h + 1 < groups {
      AtLeast(h, groups - 1, ONE);
      if n >= l {
        Monotone(ratio, l, n);
      }
    } else {
      Monotone(ONE, groups - 1, h);
      if n < l {
        AtLeast(n, l, ratio);
      }
    }
    if h < groups {
      Monotone(ONE, h + 1, groups);
    } else {
      Monotone(ONE, groups, h);
    }
  }

  /** A stop that cannot be heard: what is held is what would have been played. */
  lemma Canonical(p: Player, calls: seq<Call>, s: Stream, mono: bool, ram: Ram, ratio: nat, i: nat)
    requires AtCall(p, s, mono, ram, ratio, 0) && s.kind == Once && i < SamplesAsked(calls)
    requires s.Valid() && s.Total() > 0
    requires !CanStopEarly(s, mono, ratio) || Input(s, ram, mono, Groups(s, mono) - 1) == (0, 0)
    ensures Aligned(p.core) && 0 <= p.counter && |RunCalls(p, calls, mono, ram, ratio).1| == SamplesAsked(calls)
    ensures RunCalls(p, calls, mono, ram, ratio).1[i] == Input(s, ram, mono, Heard(ratio, i))
  {
    hide AtCall;
    hide Input;
    hide Heard;
    hide RunCalls;
    hide LastFrom;
    ResamplerPlays(p, calls, s, mono, ram, ratio, 0);
    var reach, last := Reach(calls, s, mono, ratio, 0), Groups(s, mono) - 1;
    ReachEnds(calls, s, mono, ratio, 0);
    if reach < i {
      var h, j := Heard(ratio, reach), Heard(ratio, i);
      HeardMonotone(ratio, reach, i);
      if j > last {
        SilentTail(s, ram, mono, j);
      }
      if h > last {
        SilentTail(s, ram, mono, h);
      } else if j > last {
        assert h == last;
        EarlyStop(s, mono, ratio, reach, i);
      }
    }
  }

  /** A call that begins within the last input sample, and a later sample behind it. */
  lemma EarlyStop(s: Stream, mono: bool, ratio: nat, m: nat, n: nat)
    requires s.Valid() && s.Total() > 0 && 0 < m && Heard(ratio, m) == Groups(s, mono) - 1
      && Heard(ratio, n) >= Groups(s, mono)
    ensures CanStopEarly(s, mono, ratio)
  {
    StandsStill(ratio, n);
    LastHeard(Groups(s, mono), ratio, m);
    Monotone(ratio, LastFrom(Groups(s, mono), ratio), m);
  }

  lemma StandsStill(ratio: nat, n: nat)
    ensures ratio == 0 ==> Heard(ratio, n) == 0
  {
  }

  /** A frame that is played once gives the same samples for every division into calls if and only if no output sample
      after the first plays its last input sample, or that sample is silent anyway. Otherwise a call may find
      nothing left, and holds the last sample where another division gives silence. */
  lemma DivisionIffTail(p: Player, s: Stream, mono: bool, ram: Ram, ratio: nat)
    requires AtCall(p, s, mono, ram, ratio, 0) && s.kind == Once
    ensures Aligned(p.core) && 0 <= p.counter && s.Valid() && s.Total() > 0
    ensures DivisionIndependent(p, mono, ram, ratio)
       <==> !CanStopEarly(s, mono, ratio) || Input(s, ram, mono, Groups(s, mono) - 1) == (0, 0)
  {
    hide RunCalls;
    hide Fed;
    hide Input;
    hide Heard;
    hide CanStopEarly;
    InSyncAligned(p, s, mono, ram, ratio, 0);
    if !CanStopEarly(s, mono, ratio) || Input(s, ram, mono, Groups(s, mono) - 1) == (0, 0) {
      forall a, b | SamplesAsked(a) == SamplesAsked(b)
        ensures RunCalls(p, a, mono, ram, ratio).1 == RunCalls(p, b, mono, ram, ratio).1
      {
        SameSamples(p, a, b, s, mono, ram, ratio);
      }
    } else {
      var a, b := DifferentCalls(p, s, mono, ram, ratio);
      assert RunCalls(p, a, mono, ram, ratio).1 != RunCalls(p, b, mono, ram, ratio).1;
    }
  }

  lemma SameSamples(p: Player, a: seq<Call>, b: seq<Call>, s: Stream, mono: bool, ram: Ram, ratio: nat)
    requires AtCall(p, s, mono, ram, ratio, 0) && s.kind == Once && s.Valid() && s.Total() > 0
    requires SamplesAsked(a) == SamplesAsked(b)
    requires !CanStopEarly(s, mono, ratio) || Input(s, ram, mono, Groups(s, mono) - 1) == (0, 0)
    ensures Aligned(p.core) && 0 <= p.counter
    ensures RunCalls(p, a, mono, ram, ratio).1 == RunCalls(p, b, mono, ram, ratio).1
  {
    hide RunCalls;
    hide AtCall;
    hide Input;
    hide Heard;
    hide CanStopEarly;
    ResamplerPlays(p, a, s, mono, ram, ratio, 0);
    ResamplerPlays(p, b, s, mono, ram, ratio, 0);
    var x, y := RunCalls(p, a, mono, ram, ratio).1, RunCalls(p, b, mono, ram, ratio).1;
    forall i | 0 <= i < |x| ensures x[i] == y[i] {
      Canonical(p, a, s, mono, ram, ratio, i);
      Canonical(p, b, s, mono, ram, ratio, i);
    }
  }

  /** One call, and the same number of samples in two calls, the second of which begins with the last input sample. */
  lemma DifferentCalls(p: Player, s: Stream, mono: bool, ram: Ram, ratio: nat) returns (a: seq<Call>, b: seq<Call>)
    requires AtCall(p, s, mono, ram, ratio, 0) && s.kind == Once && s.Valid() && s.Total() > 0
    requires CanStopEarly(s, mono, ratio) && Input(s, ram, mono, Groups(s, mono) - 1) != (0, 0)
    ensures Aligned(p.core) && 0 <= p.counter && SamplesAsked(a) == SamplesAsked(b)
    ensures RunCalls(p, a, mono, ram, ratio).1 != RunCalls(p, b, mono, ram, ratio).1
  {
    hide RunCalls;
    hide AtCall;
    hide Input;
    hide Heard;
    hide LastFrom;
    var groups := Groups(s, mono);
    var m := LastFrom(groups, ratio);
    var t := m + groups * ONE;
    LastHeard(groups, ratio, m);
    LastHeard(groups, ratio, t);
    Far(m, groups * ONE, ratio);
    a, b := [Generate(t + 1)], [Generate(m), Generate(t + 1 - m)];
    TwoCalls(s, mono, ratio, m, t + 1 - m);
    ResamplerPlays(p, a, s, mono, ram, ratio, 0);
    ResamplerPlays(p, b, s, mono, ram, ratio, 0);
    SilentTail(s, ram, mono, Heard(ratio, t));
    var x, y := RunCalls(p, a, mono, ram, ratio).1, RunCalls(p, b, mono, ram, ratio).1;
    assert x[t] == Input(s, ram, mono, Heard(ratio, t)) && y[t] == Input(s, ram, mono, Heard(ratio, m));
  }

  lemma Far(m: nat, d: nat, ratio: nat)
    requires ratio > 0
    ensures (m + d) * ratio >= d
  {
    Monotone(m + d, 1, ratio);
  }

  lemma TwoCalls(s: Stream, mono: bool, ratio: nat, m: nat, n: nat)
    requires s.Valid() && s.kind == Once && Stops(s, mono, ratio, m)
    ensures Reach([Generate(m + n)], s, mono, ratio, 0) == m + n && SamplesAsked([Generate(m + n)]) == m + n
    ensures Reach([Generate(m), Generate(n)], s, mono, ratio, 0) == m
      && SamplesAsked([Generate(m), Generate(n)]) == m + n
  {
    hide Stops;
    assert !Stops(s, mono, ratio, 0) by {
      NeverAtOnce(s, mono, ratio);
    }
    var b := [Generate(m), Generate(n)];
    assert b[1..] == [Generate(n)] && [Generate(n)][1..] == [] && [Generate(m + n)][1..] == [];
    assert SamplesAsked([Generate(n)]) == n + SamplesAsked([]);
    assert SamplesAsked([Generate(m + n)]) == m + n + SamplesAsked([]);
    assert Reach([Generate(n)], s, mono, ratio, m) == Reach([], s, mono, ratio, m);
    assert Reach([Generate(m + n)], s, mono, ratio, 0) == Reach([], s, mono, ratio, m + n);
  }

  lemma NeverAtOnce(s: Stream, mono: bool, ratio: nat)
    requires s.Valid()
    ensures !Stops(s, mono, ratio, 0)
  {
  }

  /** Two bytes in mono, played once at the output rate: three samples in one call end in silence, one and two
      samples in two calls end in the second byte. */
  lemma TwoByteFrame(p: Player, s: Stream, ram: Ram)
    requires AtCall(p, s, true, ram, ONE, 0) && s == Stream(Once, p.core.pulled, p.core.pulled, 0, 2, [])
    ensures Aligned(p.core) && 0 <= p.counter
    ensures var b0, b1 := (ram(0), ram(0)), (ram(1), ram(1));
            && RunCalls(p, [Generate(3)], true, ram, ONE).1 == [b0, b1, (0, 0)]
            && RunCalls(p, [Generate(1), Generate(2)], true, ram, ONE).1 == [b0, b1, b1]
  {
    hide RunCalls;
    hide AtCall;
    assert Heard(ONE, 0) == 0 && Heard(ONE, 1) == 1 && Heard(ONE, 2) == 2;
    ResamplerPlays(p, [Generate(3)], s, true, ram, ONE, 0);
    ResamplerPlays(p, [Generate(1), Generate(2)], s, true, ram, ONE, 0);
    TwoCalls(s, true, ONE, 1, 2);
  }

  // ------------------------------------------------------------------ accuracy

  /** The ratio that the program computes from the two sample rates. */
  function Ratio(rate: nat, outputRate: nat): nat
    requires outputRate > 0
  {
    rate * ONE / outputRate
  }

  /** The input sample played is never ahead of the exact position k * rate / outputRate, and behind
      it by less than 1 + k / 2^32. */
  lemma ResamplerError(rate: nat, outputRate: nat, k: nat)
    requires outputRate > 0
    ensures var g := Heard(Ratio(rate, outputRate), k);
            && g * outputRate <= k * rate
            && k * rate * 0x1_0000_0000 < (g + 1) * 0x1_0000_0000 * outputRate + k * outputRate
  {
    var r := Ratio(rate, outputRate);
    var g := Heard(r, k);
    FloorBounds(rate * ONE, outputRate);
    FloorBounds(k * r, ONE);
    var x, y, z, w := r * outputRate, rate * ONE, k * r, g * ONE;
    Scaled(x, y, outputRate, k);
    Scaled(w, z, ONE, outputRate);
    Regroup(k, r, outputRate);
    Regroup(outputRate, g, ONE);
    Regroup(k, rate, ONE);
    NextRegrouped(g, outputRate);
    Cancel(g * outputRate, k * rate);
  }

  lemma NextRegrouped(g: nat, outputRate: nat)
    ensures (g + 1) * ONE * outputRate == g * outputRate * ONE + outputRate * ONE
  {
    assert (g + 1) * ONE == g * ONE + ONE;
    Regroup(outputRate, g, ONE);
  }

  lemma Cancel(p: nat, q: nat)
    ensures p * ONE <= q * ONE ==> p <= q
  {
  }

  lemma Regroup(a: int, b: int, c: int)
    ensures a * (b * c) == c * (a * b) && a * (b * c) == b * a * c
  {
  }

  lemma Scaled(x: int, y: int, d: int, k: nat)
    requires x <= y < x + d
    ensures k * x <= k * y <= k * x + k * d && (k > 0 ==> k * y < k * x + k * d)
  {
    assert k * (y - x) >= 0 && k * (x + d - y) >= 0;
    assert k > 0 ==> k * (x + d - y) > 0;
    assert k * (y - x) == k * y - k * x && k * (x + d - y) == k * x + k * d - k * y;
  }

  lemma FloorBounds(a: nat, b: nat)
    requires b > 0
    ensures a / b * b <= a < a / b * b + b
  {
    assert a == a / b * b + a % b;
  }
}
