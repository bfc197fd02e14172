/** A repeated frame of the DMA sound model whose registers are rewritten while it plays: each frame is what the
    registers say at the moment the frame before it has been fetched. */
module DmaSndFrames {
  import opened DmaSnd
  import opened DmaSndLaws

  /** A frame as it was latched. */
  datatype Latched = Latched(start: int, end: int)
  {
    predicate Valid() { start < end && start % 2 == 0 && end % 2 == 0 }
  }

  function Range(start: int, end: int): (r: seq<int>)
    requires start <= end
    ensures |r| == end - start && forall i | 0 <= i < |r| :: r[i] == start + i
  {
    seq(end - start, i requires 0 <= i < end - start => start + i)
  }

  predicate AllValid(fs: seq<Latched>) {
    forall k | 0 <= k < |fs| :: fs[k].Valid()
  }

  /** The addresses of frames that follow each other. */
  function Flat(fs: seq<Latched>): seq<int>
    requires AllValid(fs)
  {
    if fs == [] then [] else Flat(fs[..|fs| - 1]) + Range(fs[|fs| - 1].start, fs[|fs| - 1].end)
  }

  /** What the frame registers say. */
  function Registers(f: Frame): Latched {
    Latched(EvenAddress(f.startReg), EvenAddress(f.endReg))
  }

  /** The frames `fs` have begun since byte number `base`, the last one is being fetched. */
  ghost predicate Playing(c: Core, base: nat, fs: seq<Latched>) {
    && Aligned(c) && base <= |c.log| && fs != [] && AllValid(fs) && Registers(c.frame).Valid()
    && var f := fs[|fs| - 1];
       && c.frame.play && c.frame.loop && c.frame.end == f.end && f.start <= c.frame.counter < f.end
       && c.log[base..] == Flat(fs[..|fs| - 1]) + Range(f.start, c.frame.counter)
  }

  /** The frames that have begun when one more word is fetched: behind the end of a frame, the registers are read. */
  function Begun(c: Core, fs: seq<Latched>): seq<Latched> {
    if c.frame.counter + 2 == c.frame.end then fs + [Registers(c.frame)] else fs
  }

  lemma FlatSnoc(fs: seq<Latched>, f: Latched)
    requires AllValid(fs) && f.Valid()
    ensures AllValid(fs + [f]) && Flat(fs + [f]) == Flat(fs) + Range(f.start, f.end)
  {
    assert (fs + [f])[..|fs|] == fs;
  }

  lemma RangeMore(start: int, counter: int)
    requires start <= counter
    ensures Range(start, counter + 2) == Range(start, counter) + [counter, counter + 1]
  {
  }

  lemma FetchPlays(c: Core, base: nat, fs: seq<Latched>)
    requires Playing(c, base, fs) && Waiting(c) <= FIFO_SIZE - 2
    ensures Playing(FetchWord(c), base, Begun(c, fs))
  {
    hide Flat;
    hide Range;
    hide EvenAddress;
    var n := |fs| - 1;
    var f, r := fs[n], FetchWord(c);
    var counter := c.frame.counter;
    RangeMore(f.start, counter);
    NextCounter(counter, f);
    assert r.log[base..] == c.log[base..] + [counter, counter + 1];
    assert r.log[base..] == Flat(fs[..n]) + Range(f.start, counter + 2);
    if counter + 2 == f.end {
      var next := Registers(c.frame);
      FlatSnoc(fs[..n], f);
      assert fs[..n] + [f] == fs;
      assert (fs + [next])[..|fs|] == fs;
      assert Range(next.start, next.start) == [];
    }
  }

  lemma NextCounter(counter: int, f: Latched)
    requires f.Valid() && counter % 2 == 0 && f.start <= counter < f.end
    ensures counter + 2 <= f.end
  {
  }

  /** A refill, with the frames that begin in it. */
  function RefillFrames(c: Core, fs: seq<Latched>): (r: (Core, seq<Latched>))
    requires Aligned(c)
    ensures r.0 == RefillF(c)
    decreases FIFO_SIZE - Waiting(c)
  {
    if c.frame.play && Waiting(c) <= FIFO_SIZE - 2 then RefillFrames(FetchWord(c), Begun(c, fs)) else (c, fs)
  }

  lemma {:induction false} RefillPlays(c: Core, base: nat, fs: seq<Latched>)
    requires Playing(c, base, fs)
    ensures Aligned(c) && Playing(RefillF(c), base, RefillFrames(c, fs).1) && fs <= RefillFrames(c, fs).1
    decreases FIFO_SIZE - Waiting(c)
  {
    hide Flat;
    hide NextWord;
    hide EvenAddress;
    if c.frame.play && Waiting(c) <= FIFO_SIZE - 2 {
      FetchPlays(c, base, fs);
      RefillPlays(FetchWord(c), base, Begun(c, fs));
    }
  }

  /** A pull refills an empty buffer first. */
  function PullFrames(c: Core, fs: seq<Latched>): seq<Latched>
    requires Aligned(c)
  {
    if Waiting(c) == 0 then RefillFrames(c, fs).1 else fs
  }

  lemma PlayingAligned(c: Core, base: nat, fs: seq<Latched>)
    requires Playing(c, base, fs)
    ensures Aligned(c) && base <= |c.log| && c.frame.play && AllValid(fs)
  {
  }

  /** What has been fetched are the first bytes of the frames. */
  lemma FetchedFrames(c: Core, base: nat, fs: seq<Latched>, k: nat)
    requires Playing(c, base, fs) && base + k < |c.log|
    ensures AllValid(fs) && k < |Flat(fs)| && c.log[base + k] == Flat(fs)[k]
  {
    var n := |fs| - 1;
    var f := fs[n];
    assert c.log[base + k] == c.log[base..][k];
    var done := Range(f.start, c.frame.counter);
    assert forall i | 0 <= i < |done| :: done[i] == Range(f.start, f.end)[i];
  }

  lemma PullPlays(c: Core, base: nat, fs: seq<Latched>, ram: Ram)
    requires Playing(c, base, fs) && c.pulled >= base
    ensures Aligned(c)
    ensures var (r, b) := PullF(c, ram); var fs' := PullFrames(c, fs);
            && Playing(r, base, fs') && fs <= fs' && r.pulled == c.pulled + 1
            && AllValid(fs') && c.pulled - base < |Flat(fs')| && b == ram(Flat(fs')[c.pulled - base])
  {
    hide Flat;
    hide RefillF;
    hide Playing;
    PlayingAligned(c, base, fs);
    RefillPlays(c, base, fs);
    var c1 := if Waiting(c) == 0 then RefillF(c) else c;
    PlayingAligned(c1, base, PullFrames(c, fs));
    FetchedFrames(c1, base, PullFrames(c, fs), c1.pulled - base);
    PulledPlays(c1, base, PullFrames(c, fs));
  }

  lemma PulledPlays(c: Core, base: nat, fs: seq<Latched>)
    requires Playing(c, base, fs) && Waiting(c) > 0
    ensures Playing(c.(pulled := c.pulled + 1), base, fs)
  {
  }

  // ------------------------------------------------------------------ runs

  datatype Use = Fill | Take | Write(startReg: int, endReg: int)

  predicate Proper(u: Use) {
    u.Write? ==> EvenAddress(u.startReg) < EvenAddress(u.endReg)
  }

  function WriteF(c: Core, startReg: int, endReg: int): Core {
    c.(frame := c.frame.(startReg := startReg, endReg := endReg))
  }

  lemma WritePlays(c: Core, base: nat, fs: seq<Latched>, u: Use)
    requires Playing(c, base, fs) && u.Write? && Proper(u)
    ensures Playing(WriteF(c, u.startReg, u.endReg), base, fs)
  {
    hide Flat;
  }

  /** The buffer, the frames that have begun, and the bytes that were taken. */
  function RunUses(c: Core, fs: seq<Latched>, us: seq<Use>, ram: Ram): (Core, seq<Latched>, seq<int>)
    requires Aligned(c)
    decreases |us|
  {
    if us == [] then (c, fs, [])
    else
      match us[0]
      case Fill => var (c1, fs1) := RefillFrames(c, fs); RunUses(c1, fs1, us[1..], ram)
      case Write(startReg, endReg) => RunUses(WriteF(c, startReg, endReg), fs, us[1..], ram)
      case Take =>
        var (c1, b) := PullF(c, ram);
        var (c2, fs2, bs) := RunUses(c1, PullFrames(c, fs), us[1..], ram);
        (c2, fs2, [b] + bs)
  }

  function Takes(us: seq<Use>): nat {
    if us == [] then 0 else (if us[0].Take? then 1 else 0) + Takes(us[1..])
  }

  lemma {:induction false} FlatPrefix(fs: seq<Latched>, gs: seq<Latched>)
    requires AllValid(gs) && fs <= gs
    ensures AllValid(fs) && Flat(fs) <= Flat(gs)
    decreases |gs|
  {
    if fs == gs {
    } else {
      var n := |gs| - 1;
      assert fs <= gs[..n];
      FlatPrefix(fs, gs[..n]);
    }
  }

  /** Whatever the interleaving of refills, pulls and register writes: the bytes taken are those of the frames in the
      order in which they began, without a gap. */
  lemma {:induction false} FramesAreDelivered(c: Core, base: nat, fs: seq<Latched>, us: seq<Use>, ram: Ram)
    requires Playing(c, base, fs) && c.pulled >= base && forall k | 0 <= k < |us| :: Proper(us[k])
    ensures Aligned(c)
    ensures var (r, gs, out) := RunUses(c, fs, us, ram); var k := c.pulled - base;
            && Playing(r, base, gs) && fs <= gs && |out| == Takes(us) && r.pulled == c.pulled + |out|
            && AllValid(gs) && (out == [] || k + |out| <= |Flat(gs)|)
            && forall i | 0 <= i < |out| :: out[i] == ram(Flat(gs)[k + i])
    decreases |us|
  {
    hide Playing;
    hide Flat;
    hide Aligned;
    hide PullF;
    hide RefillF;
    hide RefillFrames;
    PlayingAligned(c, base, fs);
    if us != [] {
      assert forall k | 0 <= k < |us[1..]| :: us[1..][k] == us[k + 1];
      match us[0]
      case Fill =>
        RefillPlays(c, base, fs);
        FramesAreDelivered(RefillF(c), base, RefillFrames(c, fs).1, us[1..], ram);
      case Write(startReg, endReg) =>
        WritePlays(c, base, fs, us[0]);
        FramesAreDelivered(WriteF(c, startReg, endReg), base, fs, us[1..], ram);
      case Take =>
        PullPlays(c, base, fs, ram);
        var (c1, b) := PullF(c, ram);
        FramesAreDelivered(c1, base, PullFrames(c, fs), us[1..], ram);
        var (r, gs, rest) := RunUses(c1, PullFrames(c, fs), us[1..], ram);
        FlatPrefix(PullFrames(c, fs), gs);
        var out := RunUses(c, fs, us, ram).2;
        assert out == [b] + rest;
    }
  }

  /** Switching on with repeat begins the first frame. */
  lemma FirstFrame(c: Core)
    requires Aligned(c) && !c.frame.play && Registers(c.frame).Valid()
    ensures Playing(SetControlF(c, true, true), |c.log|, [Registers(c.frame)])
  {
    var f := Registers(c.frame);
    assert [f][..0] == [];
    assert Range(f.start, f.start) == [];
  }
}
