/** Laws of one ACIA, however it is used: the interrupt bit and line over whole runs, and what happens to an unread
    byte. */
module AciaLaws {
  import opened Acia
  import Utils

  // ------------------------------------------------------- one ACIA, arbitrary use

  datatype Action = WriteCr(cr: nat) | ReadSr | ReadRdr | WriteTdr(b: Octet) | ClockTx | ClockRx(bit: bool)

  function Act(c: Chip, a: Action, pins: Pins): (r: Chip)
    requires Counting(c)
    ensures Counting(r)
  {
    match a
    case WriteCr(cr) => WriteCrF(c, cr, pins)
    case ReadSr => ReadSrF(c, pins)
    case ReadRdr => ReadRdrF(c, pins)
    case WriteTdr(b) => WriteTdrF(c, b)
    case ClockTx => ClockTxF(c)
    case ClockRx(bit) => ClockRxF(c, bit)
  }

  function Run(c: Chip, actions: seq<Action>, pins: Pins): (r: Chip)
    requires Counting(c)
    ensures Counting(r)
  {
    if actions == [] then c else Act(Run(c, actions[..|actions| - 1], pins), actions[|actions| - 1], pins)
  }

  /** A byte, a lost carrier or an overrun while bit 7 of the control register is set, or an empty transmit register
      while bits 5 and 6 are 1 and CTS is low. */
  predicate Causes(c: Chip) {
    || (c.cr / 128 % 2 == 1 && (c.sr.rdrf || c.sr.dcd || c.rx.overrun))
    || (c.cr / 32 % 4 == 1 && c.sr.tdre && !c.sr.cts)
  }

  /** The interrupt bit says exactly whether there is a cause, and the line is its complement. */
  predicate IrqExact(c: Chip, cts: bool) {
    && c.tx.enableInt == (c.cr / 32 % 4 == 1)
    && c.sr.irq == Causes(c)
    && c.lines.irq == !c.sr.irq && c.sr.cts == cts
  }

  /** While CTS does not change, the interrupt bit and line are exact after every access and clock edge that follows a
      master reset. */
  lemma {:induction false} IrqAlwaysExact(c: Chip, reset: nat, actions: seq<Action>, pins: Pins)
    requires Counting(c) && reset % 4 == 3
    ensures IrqExact(Run(Act(c, WriteCr(reset), pins), actions, pins), pins.cts)
  {
    hide Counting;
    hide Act;
    hide IrqExact;
    if actions == [] {
      ResetIrq(c, reset, pins);
    } else {
      var pre := actions[..|actions| - 1];
      IrqAlwaysExact(c, reset, pre, pins);
      ActionKeepsIrq(Run(Act(c, WriteCr(reset), pins), pre, pins), actions[|actions| - 1], pins);
    }
  }

  lemma ResetIrq(c: Chip, reset: nat, pins: Pins)
    requires Counting(c) && reset % 4 == 3
    ensures IrqExact(Act(c, WriteCr(reset), pins), pins.cts)
  {
  }

  lemma ActionKeepsIrq(c: Chip, a: Action, pins: Pins)
    requires Counting(c) && IrqExact(c, pins.cts)
    ensures IrqExact(Act(c, a, pins), pins.cts)
  {
    hide Counting;
    hide ClockTxF;
    hide ClockRxF;
    hide WriteCrF;
    hide ReadRdrF;
    match a
    case ClockTx => SendKeepsIrq(c);
    case ClockRx(bit) => TakeKeepsIrq(c, bit);
    case WriteCr(cr) => WriteCrKeepsIrq(c, cr, pins);
    case ReadRdr => ReadRdrKeepsIrq(c, pins);
    case _ =>
  }

  lemma WriteCrKeepsIrq(c: Chip, cr: nat, pins: Pins)
    requires IrqExact(c, pins.cts)
    ensures IrqExact(WriteCrF(c, cr, pins), pins.cts)
  {
  }

  lemma ReadRdrKeepsIrq(c: Chip, pins: Pins)
    requires IrqExact(c, pins.cts)
    ensures IrqExact(ReadRdrF(c, pins), pins.cts)
  {
  }

  lemma CauseIs(c: Chip)
    requires c.tx.enableInt == (c.cr / 32 % 4 == 1)
    ensures InterruptCause(c) == Causes(c)
  {
  }

  /** An update makes bit and line exact if they belonged together before. */
  lemma UpdateMakesExact(c: Chip)
    requires c.lines.irq == !c.sr.irq && c.tx.enableInt == (c.cr / 32 % 4 == 1)
    ensures IrqExact(UpdateIrqF(c), c.sr.cts)
  {
    CauseIs(c);
    hide InterruptCause;
  }

  lemma SendKeepsControl(c: Chip)
    requires Counting(c)
    ensures SendBit(c).tx.enableInt == c.tx.enableInt
  {
    hide FormatOf;
  }

  lemma TakeKeepsControl(c: Chip, bit: bool)
    requires Counting(c)
    ensures TakeBit(c, bit).tx == c.tx && TakeBit(c, bit).cr == c.cr
  {
    hide TakeIdleF;
    hide TakeDataF;
    hide TakeParityF;
    hide TakeStopF;
  }

  lemma SendKeepsIrq(c: Chip)
    requires Counting(c) && IrqExact(c, c.sr.cts)
    ensures IrqExact(ClockTxF(c), c.sr.cts)
  {
    hide SendBit;
    hide InterruptCause;
    SendKeepsControl(c);
    UpdateMakesExact(SendBit(c));
  }

  lemma TakeKeepsIrq(c: Chip, bit: bool)
    requires Counting(c) && IrqExact(c, c.sr.cts)
    ensures IrqExact(ClockRxF(c, bit), c.sr.cts)
  {
    hide TakeBit;
    hide InterruptCause;
    TakeKeepsControl(c, bit);
    UpdateMakesExact(TakeBit(c, bit));
  }

  /** What a master reset leaves of the past: the bytes in both data registers, the bit length, and whether the status
      has been read. */
  lemma AfterReset(c: Chip, cr: nat, pins: Pins)
    requires cr % 4 == 3
    ensures var r := WriteCrF(c, cr, pins);
            && !r.sr.rdrf && r.sr.tdre && !r.sr.fe && !r.sr.ovrn && !r.sr.pe
            && r.sr.cts == pins.cts && r.sr.dcd == pins.dcd
            && r.tx.state == Idle && r.rx.state == Idle && !r.rx.overrun
            && r.cr == cr && r.tdr == c.tdr && r.rdr == c.rdr && r.clockDivider == c.clockDivider
            && r.srRead == c.srRead && !r.firstMasterReset
            && r.lines.tx == c.lines.tx && (r.lines.rts <==> cr / 32 % 4 == 2 || c.firstMasterReset)
  {
  }

  /** Any other write keeps all that is under way. A new value in the two lower bits selects the bit length: one, 16 or
      64 periods of the clock. */
  lemma AfterControl(c: Chip, cr: nat, pins: Pins)
    requires cr % 4 != 3
    ensures var r := WriteCrF(c, cr, pins);
            && r.sr == c.sr.(irq := r.sr.irq) && r.rx == c.rx && r.cr == cr && r.tdr == c.tdr && r.rdr == c.rdr
            && r.tx == c.tx.(enableInt := cr / 32 % 4 == 1, sendBrk := cr / 32 % 4 == 3)
            && r.lines.tx == c.lines.tx && (r.lines.rts <==> cr / 32 % 4 == 2)
            && SelectsBitLength(c, cr, r)
  {
    hide InterruptCause;
    var c1 := if cr % 4 != c.cr % 4 then c.(clockDivider := [1, 16, 64][cr % 4]) else c;
    var c2 := c1.(cr := cr, tx := c1.tx.(enableInt := cr / 32 % 4 == 1, sendBrk := cr / 32 % 4 == 3),
                  lines := c1.lines.(rts := cr / 32 % 4 == 2));
    assert WriteCrF(c, cr, pins) == UpdateIrqF(c2);
  }

  predicate SelectsBitLength(c: Chip, cr: nat, r: Chip)
    requires cr % 4 != 3
  {
    && r.srRead == c.srRead && r.firstMasterReset == c.firstMasterReset
    && r.clockDivider == if cr % 4 == c.cr % 4 then c.clockDivider else [1, 16, 64][cr % 4]
  }

  /** At the clock of the machine and the usual division by 64, a bit takes 1024 cycles. */
  lemma KeyboardBit(acia: Acia)
    requires acia.txClock == 500000 && acia.clockDivider == 64
    ensures acia.BitCycles() == 1024
  {
  }

  /** A clock period lasts as many whole cycles at 8021247 Hz as fit into it, and a bit as many periods as the divider
      says. */
  lemma BitLength(acia: Acia) returns (cycles: nat)
    requires acia.txClock > 0
    ensures cycles * acia.txClock <= 8021247 < (cycles + 1) * acia.txClock
    ensures acia.BitCycles() == cycles * acia.clockDivider
  {
    cycles := 8021247 / acia.txClock;
    Utils.QuotientBounds(8021247, acia.txClock);
  }

  // ------------------------------------------------------------------ overrun

  /** Neither read nor reset, and no frame that lacks its stop bit. */
  predicate Undisturbed(c: Chip, a: Action)
  {
    && !a.ReadRdr? && (a.WriteCr? ==> Divide(a.cr) != 3)
    && (a.ClockRx? && c.rx.state == StopBit ==> a.bit)
  }

  predicate UndisturbedRun(c: Chip, actions: seq<Action>, pins: Pins)
    requires Counting(c)
  {
    actions == []
    || (var pre := actions[..|actions| - 1];
        UndisturbedRun(c, pre, pins) && Undisturbed(Run(c, pre, pins), actions[|actions| - 1]))
  }

  /** The action completes a frame with good stop bits. */
  predicate Completes(c: Chip, a: Action) {
    a.ClockRx? && c.rx.state == StopBit && a.bit && c.rx.stopBits == 1
  }

  /** Frames completed in a run. */
  function FramesCompleted(c: Chip, actions: seq<Action>, pins: Pins): nat
    requires Counting(c)
  {
    if actions == [] then 0
    else
      var pre := actions[..|actions| - 1];
      FramesCompleted(c, pre, pins) + if Completes(Run(c, pre, pins), actions[|actions| - 1]) then 1 else 0
  }

  /** A byte that has not been read is never replaced by later frames, and an overrun is remembered if and only if a
      frame was completed in between. */
  lemma {:induction false} UnreadByteSurvives(c: Chip, actions: seq<Action>, pins: Pins)
    requires Counting(c) && c.sr.rdrf && !c.rx.overrun && UndisturbedRun(c, actions, pins)
    ensures var r := Run(c, actions, pins);
            r.sr.rdrf && r.rdr == c.rdr && (r.rx.overrun <==> FramesCompleted(c, actions, pins) > 0)
  {
    hide Counting;
    hide Act;
    hide Undisturbed;
    hide Completes;
    if actions != [] {
      var pre := actions[..|actions| - 1];
      UnreadByteSurvives(c, pre, pins);
      OneUndisturbed(Run(c, pre, pins), actions[|actions| - 1], pins);
    }
  }

  /** A read returns the byte and uses up the remembered overrun. Its status says whether there was one, exactly if an
      older overrun has not been left standing: that one goes away only if the status was read before. */
  lemma ReadReportsOverrun(c: Chip, pins: Pins)
    ensures var r := ReadRdrF(c, pins);
            && r.rdr == c.rdr && !r.rx.overrun && !r.sr.rdrf
            && (r.sr.ovrn == c.rx.overrun <==> c.rx.overrun || !c.sr.ovrn || c.srRead)
  {
  }

  /** Reading the status and then the data: the overrun bit then tells of an overrun that this byte has suffered, and
      no older one, the carrier is that of the pin again, and no parity error is left. */
  lemma PollAndRead(c: Chip, pins: Pins)
    ensures var r := ReadRdrF(ReadSrF(c, pins), pins);
            && r.sr.ovrn == c.rx.overrun && r.sr.dcd == pins.dcd && r.sr.cts == pins.cts && !r.sr.pe && !r.sr.rdrf
            && r.sr.fe == c.sr.fe && r.sr.tdre == c.sr.tdre && r.rdr == c.rdr && !r.srRead
  {
    hide InterruptCause;
  }

  lemma OneUndisturbed(p: Chip, a: Action, pins: Pins)
    requires Counting(p) && p.sr.rdrf && Undisturbed(p, a)
    ensures var r := Act(p, a, pins);
            r.sr.rdrf && r.rdr == p.rdr && r.rx.overrun == (p.rx.overrun || Completes(p, a))
  {
    hide FormatOf;
    hide InterruptCause;
    hide Counting;
    hide ClockTxF;
    hide ClockRxF;
    match a
    case ClockTx => SendKeepsReceiver(p);
    case ClockRx(bit) => TakeKeepsUnread(p, bit);
    case _ =>
  }

  lemma SendKeepsReceiver(p: Chip)
    requires Counting(p)
    ensures ClockTxF(p).rx == p.rx && ClockTxF(p).rdr == p.rdr && ClockTxF(p).sr.rdrf == p.sr.rdrf
  {
    hide SendBit;
    hide InterruptCause;
  }

  lemma TakeKeepsUnread(p: Chip, bit: bool)
    requires Counting(p) && p.sr.rdrf && (p.rx.state == StopBit ==> bit)
    ensures var r := ClockRxF(p, bit);
            && r.sr.rdrf && r.rdr == p.rdr
            && r.rx.overrun == (p.rx.overrun || (p.rx.state == StopBit && p.rx.stopBits == 1))
  {
    hide TakeIdleF;
    hide TakeDataF;
    hide TakeParityF;
    hide UpdateIrqF;
  }
}
