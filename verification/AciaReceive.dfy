/** What an ACIA makes of the bits on its line: a whole frame, with all its stop bits or with one missing. */
module AciaReceive {
  import opened Acia
  import opened AciaWave
  import opened AciaLoopback

  /** The chip after an edge of the receive clock for each of `bits`. */
  function Taking(c: Chip, bits: seq<bool>): (r: Chip)
    requires Counting(c)
    ensures Counting(r)
  {
    if bits == [] then c else ClockRxF(Taking(c, bits[..|bits| - 1]), bits[|bits| - 1])
  }

  lemma TakingNext(c: Chip, bits: seq<bool>, bit: bool)
    requires Counting(c)
    ensures Taking(c, bits + [bit]) == ClockRxF(Taking(c, bits), bit)
  {
    assert (bits + [bit])[..|bits|] == bits;
  }

  /** Receiving a frame changes the receiver and the flags below only. */
  predicate SoFar(c: Chip, r: Chip) {
    && Counting(r) && r.cr == c.cr && r.rdr == c.rdr && r.rx.overrun == c.rx.overrun
    && r.sr.rdrf == c.sr.rdrf && r.sr.fe == c.sr.fe
  }

  predicate OddOnes(bits: seq<bool>) { Ones(bits) % 2 == 1 }

  lemma UpdateKeeps(c: Chip, r: Chip)
    ensures SoFar(c, UpdateIrqF(r)) == SoFar(c, r) && UpdateIrqF(r).sr.pe == r.sr.pe && UpdateIrqF(r).rx == r.rx
  {
    hide InterruptCause;
  }

  /** `i` data bits have arrived. */
  predicate AfterBits(c: Chip, b: Octet, i: nat, r: Chip) {
    && SoFar(c, r) && r.sr.pe == c.sr.pe && i <= DataCount(c.cr) && r.rx.stopBits == StopCount(c.cr)
    && r.rx.parity == OddOnes(b[..i])
    && if i < DataCount(c.cr) then
         r.rx.state == DataBit && r.rx.size == DataCount(c.cr) - i && r.rx.rsr == Partial(b, i)
       else
         && r.rx.state == (if ParityCount(c.cr) == 1 then ParityBit else StopBit)
         && r.rx.rsr == Delivered(b, DataCount(c.cr))
  }

  lemma StartTaken(c: Chip, b: Octet)
    requires Counting(c) && c.rx.state == Idle
    ensures AfterBits(c, b, 0, ClockRxF(c, false))
  {
    hide FormatOf;
    hide InterruptCause;
    FormatIs(c.cr);
    assert Partial(b, 0) == Zeros(8);
  }

  lemma DataTaken(c: Chip, b: Octet, i: nat, r: Chip)
    requires AfterBits(c, b, i, r) && i < DataCount(c.cr)
    ensures Counting(r) && AfterBits(c, b, i + 1, ClockRxF(r, b[i]))
  {
    hide FormatOf;
    hide UpdateIrqF;
    hide ShiftRight;
    hide Delivered;
    hide Partial;
    hide Ones;
    hide DataCount;
    hide ParityCount;
    hide StopCount;
    FormatIs(c.cr);
    OnesNext(b, i);
    ShiftIn(b, i, DataCount(c.cr));
    UpdateKeeps(c, TakeDataF(r, b[i]));
  }

  lemma {:induction false} BitsTaken(c: Chip, b: Octet, i: nat)
    requires Counting(c) && c.rx.state == Idle && i <= DataCount(c.cr)
    ensures AfterBits(c, b, i, Taking(c, [false] + b[..i]))
  {
    hide ClockRxF;
    hide AfterBits;
    if i == 0 {
      StartTaken(c, b);
      TakingNext(c, [], false);
      assert [] + [false] == [false] + b[..0];
    } else {
      BitsTaken(c, b, i - 1);
      DataTaken(c, b, i - 1, Taking(c, [false] + b[..i - 1]));
      TakingNext(c, [false] + b[..i - 1], b[i - 1]);
      assert [false] + b[..i] == [false] + b[..i - 1] + [b[i - 1]];
    }
  }

  /** Start bit, data bits and, if the format has one, a parity bit. */
  function Head(cr: nat, b: Octet, parity: bool): seq<bool> {
    [false] + b[..DataCount(cr)] + if ParityCount(cr) == 1 then [parity] else []
  }

  /** The frame is complete but for its stop bits. A frame with odd parity is marked if the number of ones is even, a
      frame with even parity always. */
  predicate AfterHead(c: Chip, b: Octet, parity: bool, r: Chip) {
    && SoFar(c, r) && r.rx.state == StopBit && r.rx.stopBits == StopCount(c.cr)
    && r.rx.rsr == Delivered(b, DataCount(c.cr))
    && (r.sr.pe <==> c.sr.pe || (ParityCount(c.cr) == 1
                                 && (WantedOnes(c.cr) == 1 ==> Ones(b[..DataCount(c.cr)] + [parity]) % 2 == 0)))
  }

  lemma HeadTaken(c: Chip, b: Octet, parity: bool)
    requires Counting(c) && c.rx.state == Idle
    ensures AfterHead(c, b, parity, Taking(c, Head(c.cr, b, parity)))
  {
    hide ClockRxF;
    hide AfterBits;
    hide AfterHead;
    var d := DataCount(c.cr);
    BitsTaken(c, b, d);
    var data := [false] + b[..d];
    if ParityCount(c.cr) == 1 {
      TakingNext(c, data, parity);
      ParityTaken(c, b, parity, Taking(c, data));
    } else {
      assert Head(c.cr, b, parity) == data;
      NoParityTaken(c, b, parity, Taking(c, data));
    }
  }

  lemma NoParityTaken(c: Chip, b: Octet, parity: bool, r: Chip)
    requires AfterBits(c, b, DataCount(c.cr), r) && ParityCount(c.cr) == 0
    ensures AfterHead(c, b, parity, r)
  {
  }

  lemma ParityTaken(c: Chip, b: Octet, parity: bool, r: Chip)
    requires AfterBits(c, b, DataCount(c.cr), r) && ParityCount(c.cr) == 1
    ensures Counting(r) && AfterHead(c, b, parity, ClockRxF(r, parity))
  {
    hide FormatOf;
    hide UpdateIrqF;
    hide Delivered;
    hide Partial;
    hide DataCount;
    hide ParityCount;
    hide StopCount;
    hide WantedOnes;
    FormatIs(c.cr);
    var data := b[..DataCount(c.cr)];
    assert (data + [parity])[..|data|] == data;
    UpdateKeeps(c, TakeParityF(r, parity));
  }

  /** A whole frame. With all its stop bits high it is received: the byte is there, or, if the one before has not been
      read, remembered as an overrun. With the stop bit after `highs` good ones missing, it is a framing error: the byte
      is in the register even if the one before has not been read, and the register is not marked as full for it. */
  lemma FrameTaken(c: Chip, b: Octet, parity: bool, highs: nat, missing: bool)
    requires Counting(c) && c.rx.state == Idle
    requires if missing then highs < StopCount(c.cr) else highs == StopCount(c.cr)
    ensures var r := Taking(c, Head(c.cr, b, parity) + seq(highs, _ => true) + if missing then [false] else []);
            && r.rx.state == Idle && r.sr.fe == missing
            && r.sr.rdrf == (c.sr.rdrf || !missing)
            && r.rdr == (if c.sr.rdrf && !missing then c.rdr else Delivered(b, DataCount(c.cr)))
            && r.rx.overrun == (c.rx.overrun || (c.sr.rdrf && !missing))
            && (r.sr.pe <==> c.sr.pe || (ParityCount(c.cr) == 1
                             && (WantedOnes(c.cr) == 1 ==> Ones(b[..DataCount(c.cr)] + [parity]) % 2 == 0)))
  {
    hide ClockRxF;
    hide Delivered;
    hide Head;
    hide StopCount;
    hide ParityCount;
    hide DataCount;
    hide WantedOnes;
    hide Ones;
    var head := Head(c.cr, b, parity);
    HeadTaken(c, b, parity);
    var h := Taking(c, head);
    assert head + seq(0, _ => true) == head;
    if highs > 0 {
      TakingNext(c, head, true);
      StopTaken(c, h, true);
      assert head + seq(1, _ => true) == head + [true];
    }
    if highs > 1 {
      TakingNext(c, head + [true], true);
      StopTaken(c, Taking(c, head + [true]), true);
      assert head + seq(2, _ => true) == head + [true] + [true];
    }
    var line := head + seq(highs, _ => true);
    if missing {
      TakingNext(c, line, false);
      StopTaken(c, Taking(c, line), false);
      assert head + seq(highs, _ => true) + [false] == line + [false];
    } else {
      assert head + seq(highs, _ => true) + [] == line;
    }
  }

  /** A stop bit has been taken. */
  predicate AfterStop(c: Chip, r: Chip, bit: bool, x: Chip) {
    && x.sr.pe == r.sr.pe && x.rx.rsr == r.rx.rsr
    && if bit && r.rx.stopBits > 1 then
         SoFar(c, x) && x.rx.state == StopBit && x.rx.stopBits == r.rx.stopBits - 1
       else
         && x.rx.state == Idle && x.sr.fe == !bit && x.sr.rdrf == (c.sr.rdrf || bit)
         && x.rdr == (if c.sr.rdrf && bit then c.rdr else r.rx.rsr)
         && x.rx.overrun == (c.rx.overrun || (c.sr.rdrf && bit))
  }

  lemma StopKept(c: Chip, r: Chip, bit: bool, x: Chip)
    requires AfterStop(c, r, bit, x)
    ensures AfterStop(c, r, bit, UpdateIrqF(x))
  {
    hide InterruptCause;
  }

  lemma StopBitTaken(c: Chip, r: Chip, bit: bool)
    requires SoFar(c, r) && r.rx.state == StopBit
    ensures AfterStop(c, r, bit, TakeStopF(r, bit))
  {
    hide Counting;
    hide OnlyTakes;
    if !bit {
      assert AfterStop(c, r, false, TakeStopF(r, false));
    } else if r.rx.stopBits > 1 {
      assert AfterStop(c, r, true, TakeStopF(r, true));
    }
  }

  lemma StopTaken(c: Chip, r: Chip, bit: bool)
    requires SoFar(c, r) && r.rx.state == StopBit
    ensures AfterStop(c, r, bit, ClockRxF(r, bit))
  {
    hide UpdateIrqF;
    hide TakeStopF;
    hide AfterStop;
    StopBitTaken(c, r, bit);
    StopKept(c, r, bit, TakeStopF(r, bit));
  }
}
