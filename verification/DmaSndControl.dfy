/** What writes to the sound control register do to a sound that is playing or has been switched off. */
module DmaSndControl {
  import opened DmaSnd
  import opened DmaSndLaws
  import opened DmaSndFrames

  /** With sound switched off, the bytes that were waiting come out, then zeros, and nothing is fetched. */
  lemma {:induction false} OffDelivers(c: Core, ops: seq<Op>, ram: Ram)
    requires Aligned(c) && !c.frame.play
    ensures var (r, out) := RunF(c, ops, ram); var w := |c.log| - c.pulled;
            && |out| == Pulls(ops) && r.log == c.log && r.frame == c.frame
            && r.pulled == c.pulled + (if |out| < w then |out| else w)
            && forall i | 0 <= i < |out| :: out[i] == if i < w then ram(c.log[c.pulled + i]) else 0
    decreases |ops|
  {
    hide Aligned;
    AlignedCounts(c);
    if ops != [] {
      if ops[0] == Refill {
        OffDelivers(c, ops[1..], ram);
      } else {
        var (c1, b) := PullF(c, ram);
        OffDelivers(c1, ops[1..], ram);
        var rest, out := RunF(c1, ops[1..], ram).1, RunF(c, ops, ram).1;
        assert forall i | 0 < i < |out| :: out[i] == rest[i - 1];
      }
    }
  }

  /** Switching off, at any moment. */
  lemma SwitchedOff(c: Core, loop: bool, ops: seq<Op>, ram: Ram)
    requires Aligned(c)
    ensures var (r, out) := RunF(SetControlF(c, false, loop), ops, ram); var w := |c.log| - c.pulled;
            && |out| == Pulls(ops) && r.log == c.log
            && r.frame == c.frame.(play := false, loop := loop)
            && forall i | 0 <= i < |out| :: out[i] == if i < w then ram(c.log[c.pulled + i]) else 0
  {
    OffDelivers(SetControlF(c, false, loop), ops, ram);
    hide RunF;
  }

  /** Switching off and on again: what is still waiting is heard, and then the frame that the registers name, from its
      first byte on, wherever the other one had been. */
  lemma OffAndOn(c: Core, off: bool, ops: seq<Op>, ram: Ram)
    requires Aligned(c) && EvenAddress(c.frame.startReg) < EvenAddress(c.frame.endReg)
    ensures var start, end, w := EvenAddress(c.frame.startReg), EvenAddress(c.frame.endReg), |c.log| - c.pulled;
            var out := RunF(SetControlF(SetControlF(c, false, off), true, true), ops, ram).1;
            && |out| == Pulls(ops)
            && forall i | 0 <= i < |out| ::
                 out[i] == if i < w then ram(c.log[c.pulled + i]) else ram(start + (i - w) % (end - start))
  {
    hide RunF;
    hide EvenAddress;
    hide Aligned;
    var c1 := SetControlF(c, false, off);
    AlignedCounts(c1);
    LoopDeliversFrame(c1, ops, ram);
  }

  /** A write that leaves a playing sound on moves nothing; only the repeat bit is new. */
  lemma StillOn(c: Core, loop: bool)
    requires Aligned(c) && c.frame.play
    ensures SetControlF(c, true, loop) == Core(
              Frame(true, loop, c.frame.startReg, c.frame.endReg, c.frame.end, c.frame.counter), c.log, c.pulled)
  {
  }

  /** A frame that plays, repeated or not, is played to its end and no further if the write clears the repeat bit. */
  lemma RepeatCleared(c: Core, ops: seq<Op>, ram: Ram)
    requires Aligned(c) && c.frame.play && c.frame.counter < c.frame.end && c.frame.end % 2 == 0
    ensures var out := RunF(SetControlF(c, true, false), ops, ram).1;
            var w, counter, end := |c.log| - c.pulled, c.frame.counter, c.frame.end;
            && |out| == Pulls(ops)
            && forall i | 0 <= i < |out| ::
                 out[i] == if i < w then ram(c.log[c.pulled + i])
                           else if i < w + (end - counter) then ram(counter + i - w) else 0
  {
    hide RunF;
    AlignedCounts(c);
    var s := Stream(Once, c.pulled, |c.log|, c.frame.counter, c.frame.end, c.log[c.pulled..]);
    assert c.log[s.first..s.base] == s.left;
    StreamIsDelivered(SetControlF(c, true, false), s, ops, ram, 0);
  }

  /** A frame that plays is followed by the frame in the registers if the write sets the repeat bit: the rest of it is
      the first of the frames that begin then. */
  lemma RepeatSet(c: Core)
    requires Aligned(c) && c.frame.play && c.frame.counter < c.frame.end && c.frame.end % 2 == 0
    requires Registers(c.frame).Valid()
    ensures Playing(SetControlF(c, true, true), |c.log|, [Latched(c.frame.counter, c.frame.end)])
  {
    var f := Latched(c.frame.counter, c.frame.end);
    assert [f][..0] == [];
    assert Range(f.start, f.start) == [];
  }
}
