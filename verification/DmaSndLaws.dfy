/** Laws of the DMA sound buffer: whatever the interleaving of refills and pulls, what was waiting when a frame was
    started comes first, and then the frame, byte by byte; and the stereo channels do not swap. */
module DmaSndLaws {
  import opened Utils
  import opened DmaSnd

  // ------------------------------------------------------------------ arithmetic of cycles

  lemma ModUnique(a: int, q: int, n: int, r: int)
    requires 0 <= r < n && a == q * n + r
    ensures a % n == r && a / n == q
  {
    assert a == a / n * n + a % n;
    OneQuotient(a / n, q, n, a % n, r);
  }

  /** Position in a frame of `n` bytes after `m` steps. */
  function Cycle(m: int, n: int): (r: int)
    requires n > 0
    ensures 0 <= r < n
  {
    m % n
  }

  lemma EvenRest(m: nat, q: int, h: int, r: int)
    requires m % 2 == 0 && m == q * (2 * h) + r
    ensures r % 2 == 0
  {
    assert q * (2 * h) == 2 * (q * h);
  }

  /** Positions in a frame of even length, two bytes at a time. */
  lemma WordInCycle(m: nat, n: nat)
    requires m % 2 == 0 && n % 2 == 0 && n > 0
    ensures Cycle(m, n) + 2 <= n && Cycle(m + 1, n) == Cycle(m, n) + 1
    ensures Cycle(m + 2, n) == if Cycle(m, n) + 2 == n then 0 else Cycle(m, n) + 2
  {
    var q, r := m / n, m % n;
    assert m == q * n + r;
    EvenRest(m, q, n / 2, r);
    ModUnique(m + 1, q, n, r + 1);
    if r + 2 == n {
      assert (q + 1) * n == q * n + n;
      ModUnique(m + 2, q + 1, n, 0);
    } else {
      ModUnique(m + 2, q, n, r + 2);
    }
  }

  // ------------------------------------------------------------------ streams

  /** A frame is repeated, or played once, or its counter starts behind its end and never meets it. */
  datatype Kind = Loop | Once | Open

  /** The bytes that are pulled from byte number `first` on: the addresses in `left`, which were waiting, and from byte
      number `base` on the frame. */
  datatype Stream = Stream(kind: Kind, first: nat, base: nat, start: int, end: int, left: seq<int>)
  {
    predicate Valid() {
      && first + |left| == base && base % 2 == 0 && start % 2 == 0 && end % 2 == 0
      && match kind
         case Loop => start < end
         case Once => start <= end
         case Open => start >= end
    }

    /** How many bytes a frame that is played once has, together with what was waiting. */
    function Total(): int { |left| + end - start }

    /** Address of byte `m` of the frame. */
    function Address(m: nat): int
      requires Valid()
    {
      if kind == Loop then start + Cycle(m, end - start) else start + m
    }

    /** What pull number `k` delivers. */
    function ByteAt(ram: Ram, k: nat): int
      requires Valid()
    {
      if k < |left| then ram(left[k])
      else if kind == Once && k >= Total() then 0
      else ram(Address(k - |left|))
    }
  }

  /** The frame registers and the counter when `m` bytes of the frame have been fetched. */
  predicate Counts(f: Frame, s: Stream, m: nat)
    requires s.Valid()
  {
    match s.kind
    case Loop =>
      && f.play && f.loop && f.end == s.end && f.counter == s.Address(m)
      && EvenAddress(f.startReg) == s.start && EvenAddress(f.endReg) == s.end
    case Once =>
      && !f.loop && m <= s.end - s.start && (f.play <==> m < s.end - s.start)
      && (f.play ==> f.end == s.end && f.counter == s.start + m)
    case Open => f.play && f.end == s.end && f.counter == s.start + m
  }

  /** The buffer carries a stream. */
  predicate Follows(c: Core, s: Stream) {
    && Aligned(c) && s.Valid() && s.base <= |c.log| && Counts(c.frame, s, |c.log| - s.base)
    && c.log[s.first..s.base] == s.left
    && forall k | s.base <= k < |c.log| :: c.log[k] == s.Address(k - s.base)
  }

  /** `k` pulls have been made; after the end of a frame that is played once they do not move any more. */
  predicate Fed(c: Core, s: Stream, k: nat) {
    Follows(c, s) && c.pulled == s.first + if s.kind == Once && k > s.Total() then s.Total() else k
  }

  /** The stream that starts when sound is switched on. */
  function Started(c: Core, loop: bool): Stream
    requires c.pulled <= |c.log|
  {
    var start, end := EvenAddress(c.frame.startReg), EvenAddress(c.frame.endReg);
    Stream(if start < end then (if loop then Loop else Once) else if start == end && !loop then Once else Open,
           c.pulled, |c.log|, start, end, c.log[c.pulled..])
  }

  /** Whatever is waiting in the buffer and whatever the frame registers are. */
  lemma StartsStream(c: Core, loop: bool)
    requires Aligned(c) && !c.frame.play
    ensures Fed(SetControlF(c, true, loop), Started(c, loop), 0)
  {
    var s := Started(c, loop);
    assert c.log[s.first..s.base] == s.left;
    assert s.start < s.end ==> Cycle(0, s.end - s.start) == 0;
  }

  lemma FetchCounts(f: Frame, s: Stream, m: nat)
    requires s.Valid() && Counts(f, s, m) && f.play && m % 2 == 0
    ensures Counts(NextWord(f), s, m + 2) && f.counter == s.Address(m) && f.counter + 1 == s.Address(m + 1)
  {
    hide Cycle;
    hide EvenAddress;
    if s.kind == Loop {
      WordInCycle(m, s.end - s.start);
    } else if s.kind == Once {
      EvenLess(m, s.end - s.start);
    }
  }

  lemma EvenLess(m: nat, n: nat)
    requires m < n && m % 2 == 0 && n % 2 == 0
    ensures m + 2 <= n
  {
  }

  lemma FetchFollows(c: Core, s: Stream)
    requires Follows(c, s) && Waiting(c) <= FIFO_SIZE - 2 && c.frame.play
    ensures Follows(FetchWord(c), s)
  {
    hide Counts;
    hide NextWord;
    hide Aligned;
    var r, n := FetchWord(c), |c.log|;
    EvenDistance(c, s.base);
    FetchCounts(c.frame, s, n - s.base);
    assert r.log[s.first..s.base] == c.log[s.first..s.base];
    forall k | s.base <= k < |r.log| ensures r.log[k] == s.Address(k - s.base) {
      if k >= n {
        assert k == n || k == n + 1;
      }
    }
  }

  lemma EvenDistance(c: Core, base: nat)
    requires Aligned(c) && base <= |c.log| && base % 2 == 0
    ensures (|c.log| - base) % 2 == 0
  {
  }

  lemma {:induction false} RefillFollows(c: Core, s: Stream)
    requires Follows(c, s)
    ensures Aligned(c) && Follows(RefillF(c), s)
    decreases FIFO_SIZE - Waiting(c)
  {
    hide NextWord;
    hide Follows;
    FollowsAligned(c, s);
    if c.frame.play && Waiting(c) <= FIFO_SIZE - 2 {
      FetchFollows(c, s);
      RefillFollows(FetchWord(c), s);
    }
  }

  lemma FollowsAligned(c: Core, s: Stream)
    requires Follows(c, s)
    ensures Aligned(c) && s.Valid()
  {
  }

  /** Byte `k` of the stream, as long as it has been fetched. */
  lemma FetchedByte(c: Core, s: Stream, ram: Ram, k: nat)
    requires Follows(c, s) && s.first + k < |c.log|
    ensures ram(c.log[s.first + k]) == s.ByteAt(ram, k) && (s.kind == Once ==> k < s.Total())
  {
    hide Aligned;
    if k < |s.left| {
      assert s.left[k] == c.log[s.first..s.base][k];
    }
  }

  /** Sound is over exactly when everything has been pulled. */
  lemma NothingLeft(c: Core, s: Stream)
    requires Follows(c, s) && s.first <= c.pulled
    ensures !c.frame.play && Waiting(c) == 0 <==> s.kind == Once && c.pulled == s.first + s.Total()
    ensures s.kind == Once ==> |c.log| <= s.first + s.Total()
  {
  }

  /** Each pull delivers the next byte of the stream. */
  lemma PullFollows(c: Core, s: Stream, ram: Ram, k: nat)
    requires Fed(c, s, k)
    ensures Aligned(c) && s.Valid()
    ensures var (r, b) := PullF(c, ram); Fed(r, s, k + 1) && b == s.ByteAt(ram, k)
  {
    hide Follows;
    hide RefillF;
    RefillFollows(c, s);
    FollowsAligned(c, s);
    var c1 := if Waiting(c) == 0 then RefillF(c) else c;
    NothingLeft(c1, s);
    if Waiting(c1) > 0 {
      FetchedByte(c1, s, ram, c1.pulled - s.first);
      PulledFollows(c1, s);
    } else {
      assert !c1.frame.play;
    }
  }

  lemma PulledFollows(c: Core, s: Stream)
    requires Follows(c, s) && Waiting(c) > 0
    ensures Follows(c.(pulled := c.pulled + 1), s)
  {
  }

  // ------------------------------------------------------------------ any interleaving

  datatype Op = Refill | Pull

  function RunF(c: Core, ops: seq<Op>, ram: Ram): (Core, seq<int>)
    requires Aligned(c)
    decreases |ops|
  {
    if ops == [] then (c, [])
    else if ops[0] == Refill then RunF(RefillF(c), ops[1..], ram)
    else
      var (c1, b) := PullF(c, ram);
      var (c2, bs) := RunF(c1, ops[1..], ram);
      (c2, [b] + bs)
  }

  function Pulls(ops: seq<Op>): nat {
    if ops == [] then 0 else (if ops[0] == Pull then 1 else 0) + Pulls(ops[1..])
  }

  /** Whatever the interleaving, the pulls deliver the stream in order. */
  lemma {:induction false} StreamIsDelivered(c: Core, s: Stream, ops: seq<Op>, ram: Ram, k: nat)
    requires Fed(c, s, k)
    ensures Aligned(c) && s.Valid()
    ensures var (r, out) := RunF(c, ops, ram);
            && Fed(r, s, k + Pulls(ops)) && |out| == Pulls(ops)
            && forall i | 0 <= i < |out| :: out[i] == s.ByteAt(ram, k + i)
    decreases |ops|
  {
    hide Follows;
    hide Aligned;
    hide PullF;
    hide RefillF;
    FollowsAligned(c, s);
    if ops == [] {
    } else if ops[0] == Refill {
      RefillFollows(c, s);
      StreamIsDelivered(RefillF(c), s, ops[1..], ram, k);
    } else {
      PullFollows(c, s, ram, k);
      var (c1, b) := PullF(c, ram);
      StreamIsDelivered(c1, s, ops[1..], ram, k + 1);
      var out, rest := RunF(c, ops, ram).1, RunF(c1, ops[1..], ram).1;
      forall i | 0 <= i < |out| ensures out[i] == s.ByteAt(ram, k + i) {
        if i > 0 {
          assert out[i] == rest[i - 1];
        }
      }
    }
  }

  /** A repeated frame: first what was waiting, then byte `i` of the frame, cyclically. */
  lemma LoopDeliversFrame(c: Core, ops: seq<Op>, ram: Ram)
    requires Aligned(c) && !c.frame.play && EvenAddress(c.frame.startReg) < EvenAddress(c.frame.endReg)
    ensures var start, end := EvenAddress(c.frame.startReg), EvenAddress(c.frame.endReg);
            var out := RunF(SetControlF(c, true, true), ops, ram).1; var w := Waiting(c);
            && |out| == Pulls(ops)
            && forall i | 0 <= i < |out| ::
                 out[i] == if i < w then ram(c.log[c.pulled + i]) else ram(start + Cycle(i - w, end - start))
  {
    hide Aligned;
    hide RunF;
    hide SetControlF;
    hide Cycle;
    hide Follows;
    hide EvenAddress;
    AlignedCounts(c);
    StartsStream(c, true);
    StreamIsDelivered(SetControlF(c, true, true), Started(c, true), ops, ram, 0);
  }

  /** A frame without repeat, which may be empty: what was waiting, the frame exactly once, then zeros. */
  lemma OnceDeliversFrame(c: Core, ops: seq<Op>, ram: Ram)
    requires Aligned(c) && !c.frame.play && EvenAddress(c.frame.startReg) <= EvenAddress(c.frame.endReg)
    ensures var start, end := EvenAddress(c.frame.startReg), EvenAddress(c.frame.endReg);
            var out := RunF(SetControlF(c, true, false), ops, ram).1; var w := Waiting(c);
            && |out| == Pulls(ops)
            && forall i | 0 <= i < |out| ::
                 out[i] == if i < w then ram(c.log[c.pulled + i])
                           else if i < w + (end - start) then ram(start + i - w) else 0
  {
    hide Aligned;
    hide RunF;
    hide SetControlF;
    hide Cycle;
    hide Follows;
    hide EvenAddress;
    AlignedCounts(c);
    StartsStream(c, false);
    StreamIsDelivered(SetControlF(c, true, false), Started(c, false), ops, ram, 0);
  }

  /** A frame whose counter starts behind its end, or a repeated empty one: memory from the start on, without an end. */
  lemma OpenFrameRunsOn(c: Core, loop: bool, ops: seq<Op>, ram: Ram)
    requires Aligned(c) && !c.frame.play
    requires var start, end := EvenAddress(c.frame.startReg), EvenAddress(c.frame.endReg);
             start > end || (start == end && loop)
    ensures var start, w := EvenAddress(c.frame.startReg), Waiting(c);
            var out := RunF(SetControlF(c, true, loop), ops, ram).1;
            && |out| == Pulls(ops)
            && forall i | 0 <= i < |out| :: out[i] == if i < w then ram(c.log[c.pulled + i]) else ram(start + i - w)
  {
    hide Aligned;
    hide RunF;
    hide SetControlF;
    hide Cycle;
    hide Follows;
    hide EvenAddress;
    AlignedCounts(c);
    StartsStream(c, loop);
    StreamIsDelivered(SetControlF(c, true, loop), Started(c, loop), ops, ram, 0);
  }

  // ------------------------------------------------------------------ channels

  /** One stereo sample: both bytes or none. The left one comes from an even address, the right one from an odd one. */
  lemma StereoPair(p: Player, ram: Ram)
    requires Aligned(p.core) && p.core.pulled % 2 == 0
    ensures var r := PullGroup(p, false, ram); var k := p.core.pulled;
            if r.core.pulled == k then r.left == 0 && r.right == 0
            else r.core.pulled == k + 2 <= |r.core.log|
                 && r.core.log[k] % 2 == 0 && r.left == ram(r.core.log[k])
                 && r.core.log[k + 1] % 2 == 1 && r.right == ram(r.core.log[k + 1])
  {
    hide PullF;
    hide Aligned;
    hide Waiting;
    LeftByte(p.core, ram);
    var c1 := PullF(p.core, ram).0;
    if c1.pulled == p.core.pulled {
      NothingToPull(c1, ram);
    } else {
      RightByte(c1, ram);
    }
  }

  lemma LeftByte(c: Core, ram: Ram)
    requires Aligned(c) && c.pulled % 2 == 0
    ensures var (r, b) := PullF(c, ram);
            Aligned(r) && if r.pulled == c.pulled then b == 0 && Waiting(r) == 0 && !r.frame.play
                          else (r.pulled == c.pulled + 1 < |r.log| && r.log[c.pulled] % 2 == 0
                                && b == ram(r.log[c.pulled]))
  {
    hide RefillF;
    hide Aligned;
    var c1 := if Waiting(c) == 0 then RefillF(c) else c;
    AlignedCounts(c1);
    if Waiting(c1) > 0 {
      AddressParity(c1, c1.pulled);
      EvenBelow(c1.pulled, |c1.log|);
    }
  }

  lemma EvenBelow(a: nat, b: nat)
    requires a < b && a % 2 == 0 && b % 2 == 0
    ensures a + 1 < b
  {
  }

  lemma RightByte(c: Core, ram: Ram)
    requires Aligned(c) && c.pulled % 2 == 1 && c.pulled < |c.log|
    ensures var (r, b) := PullF(c, ram);
            r == c.(pulled := c.pulled + 1) && c.log[c.pulled] % 2 == 1 && b == ram(c.log[c.pulled])
  {
    hide RefillF;
    hide Aligned;
    AddressParity(c, c.pulled);
  }

  lemma NothingToPull(c: Core, ram: Ram)
    requires Aligned(c) && Waiting(c) == 0 && !c.frame.play
    ensures PullF(c, ram) == (c, 0)
  {
  }

  lemma AddressParity(c: Core, k: nat)
    requires Aligned(c) && k < |c.log|
    ensures c.log[k] % 2 == k % 2 && |c.log| % 2 == 0
  {
  }

  /** After a switch to stereo the channels stay where they belong for any number of samples, whether sound
      plays, ends or has ended. */
  lemma {:induction false} ChannelsNeverSwap(p: Player, ram: Ram, n: nat)
    requires Aligned(p.core)
    ensures var q := p.(core := SetStereoF(p.core));
            PullGroups(q, false, ram, n).core.pulled % 2 == 0
  {
    hide PullGroup;
    hide SetStereoF;
    if n > 0 {
      ChannelsNeverSwap(p, ram, n - 1);
      StereoPair(PullGroups(p.(core := SetStereoF(p.core)), false, ram, n - 1), ram);
    }
  }
}
