/** The STE DMA sound of src/dmaSnd.c: an 8 byte ring buffer that is filled with words of a sound
    frame, pulled byte by byte, and resampled with a 32.32 fixed point counter.

    `Core` is the unbounded view of the buffer: the addresses of all bytes ever fetched, and how many
    of them have been taken out. The class keeps the eight byte window of it. */
module DmaSnd {

  /** RAM is fixed while sound plays; it is a parameter of the model. */
  type Ram = int -> int

  const FIFO_SIZE: int := 8

  function EvenAddress(a: int): (r: int)
    ensures r % 2 == 0
  {
    a - a % 2
  }

  /** The lowest bit of an address does not count. */
  lemma EvenAddressIs(a: int)
    ensures EvenAddress(2 * a) == 2 * a && EvenAddress(2 * a + 1) == 2 * a
  {
  }

  // ------------------------------------------------------------------ frames

  /** Control bits, frame registers, and the address counter of the frame being played. */
  datatype Frame = Frame(play: bool, loop: bool, startReg: int, endReg: int, end: int, counter: int)

  /** The registers are copied when a frame starts. An empty frame without repeat stops at once. */
  function StartNewFrame(f: Frame): Frame {
    var start, end := EvenAddress(f.startReg), EvenAddress(f.endReg);
    f.(end := end, counter := start, play := f.play && (f.loop || start != end))
  }

  /** The frame after one word has been fetched at its counter. */
  function NextWord(f: Frame): Frame {
    var f1 := f.(counter := f.counter + 2);
    if f1.counter != f.end then f1
    else if f.loop then StartNewFrame(f1)
    else f1.(play := false)
  }

  datatype Core = Core(frame: Frame, log: seq<int>, pulled: nat)

  predicate Aligned(c: Core) {
    && c.pulled <= |c.log| <= c.pulled + FIFO_SIZE
    && |c.log| % 2 == 0 && c.frame.counter % 2 == 0
    && forall k | 0 <= k < |c.log| :: c.log[k] % 2 == k % 2
  }

  function Waiting(c: Core): int { |c.log| - c.pulled }

  function FetchWord(c: Core): (r: Core)
    requires Aligned(c) && Waiting(c) <= FIFO_SIZE - 2
    ensures Aligned(r)
  {
    c.(frame := NextWord(c.frame), log := c.log + [c.frame.counter, c.frame.counter + 1])
  }

  function RefillF(c: Core): (r: Core)
    requires Aligned(c)
    ensures Aligned(r) && r.pulled == c.pulled && c.log <= r.log
    ensures r.frame.play ==> Waiting(r) >= FIFO_SIZE - 1
    decreases FIFO_SIZE - Waiting(c)
  {
    if c.frame.play && Waiting(c) <= FIFO_SIZE - 2 then RefillF(FetchWord(c)) else c
  }

  /** An empty buffer is refilled first; if there is nothing to fetch, the byte is zero. */
  function PullF(c: Core, ram: Ram): (r: (Core, int))
    requires Aligned(c)
    ensures Aligned(r.0)
  {
    var c1 := if Waiting(c) == 0 then RefillF(c) else c;
    if Waiting(c1) == 0 then (c1, 0)
    else (c1.(pulled := c1.pulled + 1), ram(c1.log[c1.pulled]))
  }

  /** Switching to stereo drops one byte if the next one belongs to the right channel. */
  function SetStereoF(c: Core): (r: Core)
    requires Aligned(c)
    ensures Aligned(r) && r.pulled % 2 == 0 && c.pulled <= r.pulled <= c.pulled + 1
    ensures r.log == c.log && r.frame == c.frame
    ensures Waiting(r) > 0 ==> r.log[r.pulled] % 2 == 0
  {
    if c.pulled % 2 == 1 then c.(pulled := c.pulled + 1) else c
  }

  function SetControlF(c: Core, play: bool, loop: bool): (r: Core)
    requires Aligned(c)
    ensures Aligned(r)
  {
    var f := c.frame.(play := play, loop := loop);
    c.(frame := if play && !c.frame.play then StartNewFrame(f) else f)
  }

  // ------------------------------------------------------------------ resampling

  const ONE: int := 0x1_0000_0000

  /** `counter` is the fraction kept between samples, `starting` asks for the first input sample,
      `left` and `right` are the input samples that are being heard. */
  datatype Player = Player(core: Core, counter: int, starting: bool, left: int, right: int)

  function PullGroup(p: Player, mono: bool, ram: Ram): (r: Player)
    requires Aligned(p.core)
    ensures Aligned(r.core) && r.counter == p.counter && r.starting == p.starting
  {
    var (c1, l) := PullF(p.core, ram);
    if mono then p.(core := c1, left := l, right := l)
    else var (c2, r) := PullF(c1, ram); p.(core := c2, left := l, right := r)
  }

  function PullGroups(p: Player, mono: bool, ram: Ram, n: nat): (r: Player)
    requires Aligned(p.core)
    ensures Aligned(r.core) && r.counter == p.counter && r.starting == p.starting
  {
    if n == 0 then p else PullGroup(PullGroups(p, mono, ram, n - 1), mono, ram)
  }

  /** The player when it puts out a sample, and after it has moved on. */
  function Ready(p: Player, mono: bool, ram: Ram): (r: Player)
    requires Aligned(p.core)
    ensures Aligned(r.core) && r.counter == p.counter && !r.starting
  {
    if p.starting then PullGroup(p, mono, ram).(starting := false) else p
  }

  function Advance(p: Player, mono: bool, ram: Ram, ratio: nat): (r: Player)
    requires Aligned(p.core) && 0 <= p.counter
    ensures Aligned(r.core) && 0 <= r.counter < ONE
  {
    var q := Ready(p, mono, ram);
    PullGroups(q, mono, ram, (q.counter + ratio) / ONE).(counter := (q.counter + ratio) % ONE)
  }

  function AdvanceN(p: Player, mono: bool, ram: Ram, ratio: nat, n: nat): (r: Player)
    requires Aligned(p.core) && 0 <= p.counter
    ensures Aligned(r.core) && 0 <= r.counter
  {
    if n == 0 then p else Advance(AdvanceN(p, mono, ram, ratio, n - 1), mono, ram, ratio)
  }

  /** With sound off and nothing buffered, the last sample is held and the counter stands still. */
  predicate Silent(p: Player) { !p.core.frame.play && Waiting(p.core) == 0 }

  /** The `i`-th sample of a call. */
  function SampleF(p: Player, mono: bool, ram: Ram, ratio: nat, i: nat): (int, int)
    requires Aligned(p.core) && 0 <= p.counter
  {
    if Silent(p) then (p.left, p.right)
    else var q := Ready(AdvanceN(p, mono, ram, ratio, i), mono, ram); (q.left, q.right)
  }

  function GenerateF(p: Player, mono: bool, ram: Ram, ratio: nat, n: nat): (r: Player)
    requires Aligned(p.core) && 0 <= p.counter
    ensures Aligned(r.core) && 0 <= r.counter
  {
    if Silent(p) then p else AdvanceN(p, mono, ram, ratio, n)
  }

  // ------------------------------------------------------------------ the ring

  function Slot(k: int): (r: int)
    ensures 0 <= r < FIFO_SIZE
  {
    k % FIFO_SIZE
  }

  /** Byte number `k` of the stream sits in slot `k` modulo 8 until it is taken out. */
  ghost predicate Ring(slots: seq<int>, log: seq<int>, pulled: nat, ram: Ram) {
    && |slots| == FIFO_SIZE && pulled <= |log| <= pulled + FIFO_SIZE
    && forall k | pulled <= k < |log| :: slots[Slot(k)] == ram(log[k])
  }

  lemma DistinctSlots(j: nat, k: nat)
    requires j < k < j + FIFO_SIZE
    ensures Slot(j) != Slot(k)
  {
  }

  lemma SlotOf(pulled: nat, i: nat)
    ensures Slot(Slot(pulled) + i) == Slot(pulled + i) && Slot(pulled) % 2 == pulled % 2
  {
    hide Slot;
    var q1 := SlotQuotient(pulled);
    var q2 := SlotQuotient(Slot(pulled) + i);
    SlotUnique(q1 + q2, Slot(Slot(pulled) + i));
    SlotParity(q1, Slot(pulled));
  }

  lemma SlotQuotient(k: int) returns (q: int)
    ensures k == 8 * q + Slot(k)
  {
    q := k / FIFO_SIZE;
  }

  lemma SlotUnique(q: int, r: int)
    requires 0 <= r < FIFO_SIZE
    ensures Slot(8 * q + r) == r
  {
  }

  lemma SlotParity(q: int, r: int)
    ensures (8 * q + r) % 2 == r % 2
  {
  }

  lemma RingPush(slots: seq<int>, log: seq<int>, pulled: nat, ram: Ram, a: int)
    requires Ring(slots, log, pulled, ram) && |log| < pulled + FIFO_SIZE
    ensures Ring(slots[Slot(|log|) := ram(a)], log + [a], pulled, ram)
  {
    hide Slot;
    forall k | pulled <= k < |log| ensures Slot(k) != Slot(|log|) {
      DistinctSlots(k, |log|);
    }
  }

  lemma RingPop(slots: seq<int>, log: seq<int>, pulled: nat, ram: Ram)
    requires Ring(slots, log, pulled, ram) && pulled < |log|
    ensures Ring(slots, log, pulled + 1, ram) && slots[Slot(pulled)] == ram(log[pulled])
  {
  }

  /** Bytes are fetched in pairs: at an odd position the buffer is never empty. */
  lemma OddPositionNotEmpty(c: Core)
    requires Aligned(c) && Slot(c.pulled) % 2 == 1
    ensures Waiting(c) > 0 && Waiting(c) % 2 == 1
  {
    hide Aligned;
    hide Slot;
    AlignedCounts(c);
    OddSlot(c.pulled, |c.log|);
  }

  lemma AlignedCounts(c: Core)
    requires Aligned(c)
    ensures c.pulled <= |c.log| && |c.log| % 2 == 0
  {
  }

  lemma OddSlot(pulled: nat, n: nat)
    requires pulled <= n && n % 2 == 0 && Slot(pulled) % 2 == 1
    ensures n > pulled && (n - pulled) % 2 == 1
  {
    assert pulled == 8 * (pulled / 8) + Slot(pulled);
  }

  // ------------------------------------------------------------------ the program

  class Sound {
    const ram: Ram
    // control and frame registers
    var play: bool
    var loop: bool
    var mono: bool
    var frameStartReg: int
    var frameEndReg: int
    var frameStartAddr: int
    var frameEndAddr: int
    var frameCounterAddr: int
    // the buffer
    const fifo: array<int>
    var fifoPos: nat
    var fifoNbBytes: nat
    // resampling
    var frameLeft: int
    var frameRight: int
    var frameCounter: int
    var initSample: bool
    // all bytes ever fetched, and how many of them were taken out
    ghost var log: seq<int>
    ghost var pulled: nat

    ghost function View(): Core
      reads this
    {
      Core(Frame(play, loop, frameStartReg, frameEndReg, frameEndAddr, frameCounterAddr), log, pulled)
    }

    ghost function PlayerView(): Player
      reads this
    {
      Player(View(), frameCounter, initSample, frameLeft, frameRight)
    }

    /** The ring buffer holds the fetched bytes that have not been taken out; positions and addresses
        have the same parity. */
    ghost predicate Valid()
      reads this, fifo
    {
      && fifo.Length == FIFO_SIZE && Aligned(View()) && 0 <= frameCounter
      && fifoPos == Slot(pulled) && fifoNbBytes == |log| - pulled
      && Ring(fifo[..], log, pulled, ram)
    }

    constructor (ram: Ram)
      ensures Valid() && View() == Core(Frame(false, false, 0, 0, 0, 0), [], 0) && this.ram == ram && fresh(fifo)
    {
      this.ram := ram;
      play, loop, mono := false, false, false;
      frameStartReg, frameEndReg, frameStartAddr, frameEndAddr, frameCounterAddr := 0, 0, 0, 0, 0;
      fifo := new int[8];
      fifoPos, fifoNbBytes := 0, 0;
      frameLeft, frameRight, frameCounter, initSample := 0, 0, 0, false;
      log, pulled := [], 0;
    }

    method StartFrame()
      modifies `frameStartAddr, `frameEndAddr, `frameCounterAddr, `play
      ensures View().frame == StartNewFrame(old(View().frame))
    {
      frameStartAddr := EvenAddress(frameStartReg);
      frameEndAddr := EvenAddress(frameEndReg);
      frameCounterAddr := frameStartAddr;
      if frameStartAddr == frameEndAddr && !loop {
        play := false;
      }
    }

    /** Returns whether the sound stops. */
    method EndOfFrameReached() returns (stop: bool)
      modifies `frameStartAddr, `frameEndAddr, `frameCounterAddr, `play
      ensures View().frame == if loop then StartNewFrame(old(View().frame)) else old(View().frame).(play := false)
      ensures stop == !loop
    {
      if loop {
        StartFrame();
        stop := false;
      } else {
        play := false;
        stop := true;
      }
    }

    /** Puts the word at the frame counter into the buffer. */
    method StoreWord()
      requires Valid() && fifoNbBytes <= FIFO_SIZE - 2
      modifies `fifoNbBytes, `log, fifo
      ensures Valid() && fifoNbBytes == old(fifoNbBytes) + 2
      ensures log == old(log) + [frameCounterAddr, frameCounterAddr + 1]
    {
      hide Ring;
      hide Slot;
      ghost var c, slots := View(), fifo[..];
      ghost var r := FetchWord(c);
      SlotOf(pulled, fifoNbBytes);
      SlotOf(pulled, fifoNbBytes + 1);
      RingPush(slots, log, pulled, ram, frameCounterAddr);
      fifo[Slot(fifoPos + fifoNbBytes)] := ram(frameCounterAddr);
      log := log + [frameCounterAddr];
      assert fifo[..] == slots[Slot(|log| - 1) := ram(frameCounterAddr)];
      slots := fifo[..];
      RingPush(slots, log, pulled, ram, frameCounterAddr + 1);
      fifo[Slot(fifoPos + fifoNbBytes + 1)] := ram(frameCounterAddr + 1);
      log := log + [frameCounterAddr + 1];
      assert fifo[..] == slots[Slot(|log| - 1) := ram(frameCounterAddr + 1)];
      fifoNbBytes := fifoNbBytes + 2;
      assert log == r.log;
    }

    /** Adds one word and moves the counter; returns whether the sound stops. */
    method FetchNext() returns (stop: bool)
      requires Valid() && fifoNbBytes <= FIFO_SIZE - 2 && play
      modifies `frameStartAddr, `frameEndAddr, `frameCounterAddr, `play, `fifoNbBytes, `log, fifo
      ensures Valid() && View() == FetchWord(old(View())) && stop == !play
    {
      hide Ring;
      hide Slot;
      ghost var c := View();
      StoreWord();
      frameCounterAddr := frameCounterAddr + 2;
      stop := false;
      if frameCounterAddr == frameEndAddr {
        stop := EndOfFrameReached();
        assert loop ==> play;
      }
      assert View() == FetchWord(c);
    }

    method Refill()
      requires Valid()
      modifies `frameStartAddr, `frameEndAddr, `frameCounterAddr, `play, `fifoNbBytes, `log, fifo
      ensures Valid() && View() == RefillF(old(View()))
    {
      hide Ring;
      hide Aligned;
      hide NextWord;
      if !play {
        return;
      }
      var stop := false;
      while FIFO_SIZE - fifoNbBytes >= 2 && !stop
        invariant Valid() && stop == !play
        invariant RefillF(View()) == RefillF(old(View()))
        decreases FIFO_SIZE - fifoNbBytes
      {
        stop := FetchNext();
      }
    }

    method PullByte() returns (sample: int)
      requires Valid()
      modifies `frameStartAddr, `frameEndAddr, `frameCounterAddr, `play, `fifoNbBytes, `fifoPos, `log, `pulled, fifo
      ensures Valid() && (View(), sample) == PullF(old(View()), ram)
    {
      if fifoNbBytes == 0 {
        Refill();
        if fifoNbBytes == 0 {
          return 0;
        }
      }
      RingPop(fifo[..], log, pulled, ram);
      SlotOf(pulled, 1);
      sample := fifo[fifoPos];
      fifoPos := Slot(fifoPos + 1);
      fifoNbBytes := fifoNbBytes - 1;
      pulled := pulled + 1;
    }

    method SetStereo()
      requires Valid()
      modifies `fifoPos, `fifoNbBytes, `pulled
      ensures Valid() && View() == SetStereoF(old(View()))
    {
      hide Ring;
      hide Slot;
      ghost var c := View();
      SlotOf(pulled, 1);
      if fifoPos % 2 == 1 {
        fifoPos := Slot(fifoPos + 1);
        // never empty here
        OddPositionNotEmpty(c);
        RingPop(fifo[..], log, pulled, ram);
        if fifoNbBytes > 0 {
          fifoNbBytes := fifoNbBytes - 1;
        }
        pulled := pulled + 1;
      }
      assert View() == SetStereoF(c);
    }

    method WriteSoundMode(newMono: bool)
      requires Valid()
      modifies `fifoPos, `fifoNbBytes, `pulled, `mono
      ensures Valid() && mono == newMono
      ensures View() == if old(mono) && !newMono then SetStereoF(old(View())) else old(View())
    {
      if mono && !newMono {
        SetStereo();
      }
      mono := newMono;
    }

    method WriteSoundControl(newPlay: bool, newLoop: bool)
      requires Valid()
      modifies `play, `loop, `initSample, `frameCounter, `frameStartAddr, `frameEndAddr, `frameCounterAddr
      ensures Valid() && View() == SetControlF(old(View()), newPlay, newLoop)
      ensures if newPlay && !old(play) then initSample && frameCounter == 0
              else initSample == old(initSample) && frameCounter == old(frameCounter)
    {
      var oldPlay := play;
      play := newPlay;
      loop := newLoop;
      if !oldPlay && newPlay {
        initSample := true;
        frameCounter := 0;
        StartFrame();
      }
    }

    /** One input sample: a byte, or a pair of bytes. */
    method PullFrame()
      requires Valid()
      modifies `frameStartAddr, `frameEndAddr, `frameCounterAddr, `play, `fifoNbBytes, `fifoPos, `log, `pulled, fifo,
               `frameLeft, `frameRight
      ensures Valid() && PlayerView() == PullGroup(old(PlayerView()), mono, ram)
    {
      var l := PullByte();
      var r := l;
      if !mono {
        r := PullByte();
      }
      frameLeft := l;
      frameRight := r;
    }

    /** Moves on by `ratio`: pulls the input samples that are passed and keeps the fraction. */
    method SkipSamples(ratio: nat)
      requires Valid()
      modifies `frameStartAddr, `frameEndAddr, `frameCounterAddr, `play, `fifoNbBytes, `fifoPos, `log, `pulled, fifo,
               `frameLeft, `frameRight, `frameCounter
      ensures Valid()
      ensures var p := old(PlayerView());
        PlayerView() == PullGroups(p, mono, ram, (p.counter + ratio) / ONE).(counter := (p.counter + ratio) % ONE)
    {
      hide PullGroup;
      hide Ring;
      hide Aligned;
      ghost var p := PlayerView();
      var total := frameCounter + ratio;
      var n := total / ONE;
      for i := 0 to n
        invariant Valid() && PlayerView() == PullGroups(p, mono, ram, i)
      {
        PullFrame();
      }
      frameCounter := total % ONE;
    }

    /** Puts out `n` samples; `ratio` is the input rate divided by the output rate, times 2^32. */
    method GenerateSamples(n: nat, ratio: nat) returns (out: seq<(int, int)>)
      requires Valid()
      modifies `frameStartAddr, `frameEndAddr, `frameCounterAddr, `play, `fifoNbBytes, `fifoPos, `log, `pulled, fifo,
               `frameLeft, `frameRight, `frameCounter, `initSample
      ensures Valid() && PlayerView() == GenerateF(old(PlayerView()), mono, ram, ratio, n)
      ensures |out| == n && forall i | 0 <= i < n :: out[i] == SampleF(old(PlayerView()), mono, ram, ratio, i)
    {
      hide PullGroup;
      hide PullGroups;
      hide Ring;
      hide Aligned;
      ghost var p := PlayerView();
      out := [];
      if !play && fifoNbBytes == 0 {
        for i := 0 to n
          invariant |out| == i && forall k | 0 <= k < i :: out[k] == (frameLeft, frameRight)
        {
          out := out + [(frameLeft, frameRight)];
        }
        return;
      }
      for i := 0 to n
        invariant Valid() && PlayerView() == AdvanceN(p, mono, ram, ratio, i)
        invariant |out| == i && forall k | 0 <= k < i :: out[k] == SampleF(p, mono, ram, ratio, k)
      {
        if initSample {
          PullFrame();
          initSample := false;
        }
        out := out + [(frameLeft, frameRight)];
        SkipSamples(ratio);
      }
    }
  }
}
