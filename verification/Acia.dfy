/** The MC6850 of src/acia.c: a bit-serial transmitter and receiver with double buffering,
    parity, stop bits, overrun detection and an interrupt line.

    `Chip` is the state of one ACIA, the functions on it say what every register access and
    clock edge does. The class has the program's fields and methods. */
module Acia {
  import CycInt

  /** A byte as its bits, least significant first: the order in which they travel. */
  type Octet = b: seq<bool> | |b| == 8 witness Zeros(8)

  function Zeros(n: nat): (r: seq<bool>)
    ensures |r| == n && forall i | 0 <= i < n :: !r[i]
  {
    seq(n, _ => false)
  }

  function ShiftRight(b: Octet): Octet { b[1..] + [false] }

  // ------------------------------------------------------------- control register

  function Divide(cr: nat): nat { cr % 4 }

  function WordSelect(cr: nat): nat { cr / 4 % 8 }

  function TxControl(cr: nat): nat { cr / 32 % 4 }

  predicate ReceiveInterrupt(cr: nat) { cr / 128 % 2 == 1 }

  datatype Parity = NoParity | Even | Odd

  datatype Format = Format(dataBits: nat, parity: Parity, stopBits: nat)

  function FormatOf(cr: nat): (f: Format)
    ensures (f.dataBits == 7 || f.dataBits == 8) && (f.stopBits == 1 || f.stopBits == 2)
  {
    match WordSelect(cr)
    case 0 => Format(7, Even, 2)
    case 1 => Format(7, Odd, 2)
    case 2 => Format(7, Even, 1)
    case 3 => Format(7, Odd, 1)
    case 4 => Format(8, NoParity, 2)
    case 5 => Format(8, NoParity, 1)
    case 6 => Format(8, Even, 1)
    case _ => Format(8, Odd, 1)
  }

  function ClockDivider(divide: nat): nat {
    if divide == 0 then 1 else if divide == 1 then 16 else 64
  }

  // ------------------------------------------------------------------ state

  datatype Status = Status(rdrf: bool, tdre: bool, dcd: bool, cts: bool, fe: bool, ovrn: bool, pe: bool, irq: bool)

  datatype State = Idle | DataBit | ParityBit | StopBit

  datatype Transmitter = Transmitter(
    state: State, tsr: Octet, size: nat, parity: bool, stopBits: nat, enableInt: bool, sendBrk: bool)

  datatype Receiver = Receiver(state: State, rsr: Octet, size: nat, parity: bool, stopBits: nat, overrun: bool)

  datatype Lines = Lines(tx: bool, irq: bool, rts: bool)

  datatype Chip = Chip(
    cr: nat, sr: Status, tdr: Octet, rdr: Octet, clockDivider: nat, firstMasterReset: bool, srRead: bool,
    tx: Transmitter, rx: Receiver, lines: Lines)

  /** Input pins. On the ST nothing is connected to them and both are low. */
  datatype Pins = Pins(cts: bool, dcd: bool)

  predicate InterruptCause(c: Chip) {
    || (ReceiveInterrupt(c.cr) && (c.sr.rdrf || c.sr.dcd || c.rx.overrun))
    || (c.tx.enableInt && c.sr.tdre && !c.sr.cts)
  }

  /** The interrupt line is low while the interrupt bit is set. It only moves when the bit changes. */
  function UpdateIrqF(c: Chip): (r: Chip)
    ensures r.tx == c.tx && r.rx == c.rx && r.tdr == c.tdr && r.rdr == c.rdr && r.cr == c.cr
    ensures r.sr == c.sr.(irq := r.sr.irq) && r.lines == c.lines.(irq := r.lines.irq)
  {
    var irq := InterruptCause(c);
    if c.sr.irq == irq then c
    else c.(sr := c.sr.(irq := irq), lines := c.lines.(irq := !irq))
  }

  function MasterResetF(c: Chip, pins: Pins): Chip {
    c.(sr := Status(false, true, pins.dcd, pins.cts, false, false, false, false),
       tx := c.tx.(state := Idle, tsr := Zeros(8), size := 0, sendBrk := false),
       rx := c.rx.(state := Idle, rsr := Zeros(8), size := 0, overrun := false),
       lines := c.lines.(irq := true), firstMasterReset := false)
  }

  /** The RTS line is high after the first reset; otherwise the transmitter control bits decide. */
  function WriteCrF(c: Chip, cr: nat, pins: Pins): Chip {
    var reset := Divide(cr) == 3;
    var c1 := if reset then MasterResetF(c, pins)
              else if Divide(cr) != Divide(c.cr) then c.(clockDivider := ClockDivider(Divide(cr)))
              else c;
    UpdateIrqF(c1.(cr := cr, tx := c1.tx.(enableInt := TxControl(cr) == 1, sendBrk := TxControl(cr) == 3),
                   lines := c1.lines.(rts := TxControl(cr) == 2 || (reset && c.firstMasterReset))))
  }

  function ReadSrF(c: Chip, pins: Pins): Chip {
    c.(sr := c.sr.(cts := pins.cts), srRead := true)
  }

  function ReadRdrF(c: Chip, pins: Pins): Chip {
    var sr1 := c.sr.(rdrf := false, pe := false);
    var sr2 := if c.srRead then sr1.(dcd := pins.dcd, ovrn := false) else sr1;
    var sr3 := if c.rx.overrun then sr2.(ovrn := true) else sr2;
    UpdateIrqF(c.(sr := sr3, srRead := false, rx := c.rx.(overrun := false)))
  }

  function WriteTdrF(c: Chip, b: Octet): Chip {
    UpdateIrqF(c.(tdr := b, sr := c.sr.(tdre := false)))
  }

  function PrepareTxF(c: Chip): Chip {
    c.(tx := c.tx.(tsr := c.tdr, parity := false, size := FormatOf(c.cr).dataBits, stopBits := FormatOf(c.cr).stopBits),
       sr := c.sr.(tdre := true))
  }

  function PrepareRxF(c: Chip): Chip {
    var f := FormatOf(c.cr);
    c.(rx := c.rx.(rsr := Zeros(8), parity := false, size := f.dataBits, stopBits := f.stopBits))
  }

  function AfterData(cr: nat): State {
    if FormatOf(cr).parity == NoParity then StopBit else ParityBit
  }

  /** Counters of bits that are left: never zero while they are counted, no data bits left outside the data. */
  predicate Counting(c: Chip) {
    && (c.tx.state != Idle ==> c.tx.stopBits > 0) && (c.tx.state == DataBit <==> c.tx.size > 0)
    && (c.rx.state != Idle ==> c.rx.stopBits > 0) && (c.rx.state == DataBit <==> c.rx.size > 0)
  }

  // One edge of the transmit clock puts one bit on the line.

  /** Sending leaves the receiving side alone. */
  predicate OnlySends(c: Chip, r: Chip) {
    && r.cr == c.cr && r.tdr == c.tdr && r.rdr == c.rdr && r.rx == c.rx
    && r.sr == c.sr.(tdre := r.sr.tdre) && r.lines == c.lines.(tx := r.lines.tx)
  }

  function SendIdleF(c: Chip): (r: Chip)
    requires Counting(c) && c.tx.state == Idle
    ensures Counting(r) && OnlySends(c, r)
  {
    if c.tx.sendBrk then c.(lines := c.lines.(tx := false))
    else if c.sr.tdre then c.(lines := c.lines.(tx := true))
    else var p := PrepareTxF(c); p.(lines := c.lines.(tx := false), tx := p.tx.(state := DataBit))
  }

  function SendDataF(c: Chip): (r: Chip)
    requires Counting(c) && c.tx.state == DataBit
    ensures Counting(r) && OnlySends(c, r)
  {
    var t := c.tx;
    c.(lines := c.lines.(tx := t.tsr[0]),
       tx := t.(parity := t.parity != t.tsr[0], tsr := ShiftRight(t.tsr), size := t.size - 1,
                state := if t.size == 1 then AfterData(c.cr) else DataBit))
  }

  function SendParityF(c: Chip): (r: Chip)
    requires Counting(c) && c.tx.state == ParityBit
    ensures Counting(r) && OnlySends(c, r)
  {
    c.(lines := c.lines.(tx := if FormatOf(c.cr).parity == Even then c.tx.parity else !c.tx.parity),
       tx := c.tx.(state := StopBit))
  }

  function SendStopF(c: Chip): (r: Chip)
    requires Counting(c) && c.tx.state == StopBit
    ensures Counting(r) && OnlySends(c, r)
  {
    var t := c.tx;
    c.(lines := c.lines.(tx := true),
       tx := t.(stopBits := t.stopBits - 1, state := if t.stopBits == 1 then Idle else StopBit))
  }

  function SendBit(c: Chip): (r: Chip)
    requires Counting(c)
    ensures Counting(r) && OnlySends(c, r)
  {
    match c.tx.state
    case Idle => SendIdleF(c)
    case DataBit => SendDataF(c)
    case ParityBit => SendParityF(c)
    case StopBit => SendStopF(c)
  }

  function ClockTxF(c: Chip): (r: Chip)
    requires Counting(c)
    ensures Counting(r)
  {
    UpdateIrqF(SendBit(c))
  }

  // One edge of the receive clock takes one bit from the line.

  /** Receiving leaves the sending side alone. */
  predicate OnlyTakes(c: Chip, r: Chip) {
    && r.cr == c.cr && r.tdr == c.tdr && r.tx == c.tx && r.lines == c.lines
    && r.sr == c.sr.(rdrf := r.sr.rdrf, fe := r.sr.fe, pe := r.sr.pe)
    && (c.rx.state != StopBit ==>
          r.rdr == c.rdr && r.sr.rdrf == c.sr.rdrf && r.sr.fe == c.sr.fe && r.rx.overrun == c.rx.overrun)
  }

  function TakeIdleF(c: Chip, bit: bool): (r: Chip)
    requires Counting(c) && c.rx.state == Idle
    ensures Counting(r) && OnlyTakes(c, r)
  {
    if bit then c else var p := PrepareRxF(c); p.(rx := p.rx.(state := DataBit))
  }

  function TakeDataF(c: Chip, bit: bool): (r: Chip)
    requires Counting(c) && c.rx.state == DataBit
    ensures Counting(r) && OnlyTakes(c, r)
  {
    var x := c.rx;
    var rsr := x.rsr[7 := x.rsr[7] || bit];
    if x.size > 1 then c.(rx := x.(rsr := ShiftRight(rsr), parity := x.parity != bit, size := x.size - 1))
    else c.(rx := x.(rsr := rsr, parity := x.parity != bit, size := 0, state := AfterData(c.cr)))
  }

  function TakeParityF(c: Chip, bit: bool): (r: Chip)
    requires Counting(c) && c.rx.state == ParityBit
    ensures Counting(r) && OnlyTakes(c, r)
  {
    c.(sr := c.sr.(pe := c.sr.pe || FlagsParity(FormatOf(c.cr).parity, c.rx.parity, bit)),
       rx := c.rx.(state := StopBit))
  }

  function TakeStopF(c: Chip, bit: bool): (r: Chip)
    requires Counting(c) && c.rx.state == StopBit
    ensures Counting(r) && OnlyTakes(c, r)
  {
    var x := c.rx;
    if !bit then c.(sr := c.sr.(fe := true), rdr := x.rsr, rx := x.(state := Idle))
    else if x.stopBits > 1 then c.(rx := x.(stopBits := x.stopBits - 1))
    else c.(sr := c.sr.(fe := false, rdrf := true), rdr := if c.sr.rdrf then c.rdr else x.rsr,
            rx := x.(stopBits := 0, state := Idle, overrun := x.overrun || c.sr.rdrf))
  }

  function TakeBit(c: Chip, bit: bool): (r: Chip)
    requires Counting(c)
    ensures Counting(r) && OnlyTakes(c, r)
  {
    match c.rx.state
    case Idle => TakeIdleF(c, bit)
    case DataBit => TakeDataF(c, bit)
    case ParityBit => TakeParityF(c, bit)
    case StopBit => TakeStopF(c, bit)
  }

  function ClockRxF(c: Chip, bit: bool): (r: Chip)
    requires Counting(c)
    ensures Counting(r)
  {
    UpdateIrqF(TakeBit(c, bit))
  }

  /** The parity verdict of the program. */
  predicate FlagsParity(parity: Parity, computed: bool, bit: bool) {
    (parity == Even && computed != bit) || computed == bit
  }

  /** The verdict that the frame format asks for. */
  predicate WrongParity(parity: Parity, computed: bool, bit: bool) {
    match parity
    case NoParity => false
    case Even => computed != bit
    case Odd => computed == bit
  }

  /** In even mode every frame is flagged: the verdict is right unless an even-parity frame is correct. */
  lemma ParityVerdict(parity: Parity, computed: bool, bit: bool)
    requires parity != NoParity
    ensures FlagsParity(parity, computed, bit) == WrongParity(parity, computed, bit)
      <==> (parity == Odd || computed != bit)
  {
  }

  // ------------------------------------------------------------------ the program

  class Acia {
    var cr: nat
    var sr: Status
    var tdr: Octet
    var rdr: Octet
    var clockDivider: nat
    var firstMasterReset: bool
    var srRead: bool
    var tx: Transmitter
    var rx: Receiver
    var lines: Lines
    const txClock: nat
    const pins: Pins

    ghost function View(): Chip
      reads this
    {
      Chip(cr, sr, tdr, rdr, clockDivider, firstMasterReset, srRead, tx, rx, lines)
    }

    constructor (clock: nat, pins: Pins)
      ensures Counting(View()) && firstMasterReset && txClock == clock && this.pins == pins
    {
      cr, tdr, rdr := 0, Zeros(8), Zeros(8);
      sr := Status(false, false, false, false, false, false, false, false);
      txClock, clockDivider, firstMasterReset, srRead := clock, 0, true, false;
      tx := Transmitter(Idle, Zeros(8), 0, false, 0, false, false);
      rx := Receiver(Idle, Zeros(8), 0, false, 0, false);
      lines := Lines(true, true, false);
      this.pins := pins;
    }

    /** Returns the state that the RTS line takes after a reset. */
    method MasterReset(newCr: nat) returns (rts: bool)
      modifies `sr, `tx, `rx, `lines, `firstMasterReset
      ensures View() == MasterResetF(old(View()), pins) && rts == (TxControl(newCr) == 2 || old(firstMasterReset))
    {
      sr := Status(false, true, pins.dcd, pins.cts, false, false, false, false);
      tx := tx.(state := Idle, tsr := Zeros(8), size := 0, sendBrk := false);
      rx := rx.(state := Idle, rsr := Zeros(8), size := 0, overrun := false);
      lines := lines.(irq := true);
      if firstMasterReset {
        firstMasterReset := false;
        rts := true;
      } else {
        rts := TxControl(newCr) == 2;
      }
    }

    method UpdateIrq()
      modifies `sr, `lines
      ensures View() == UpdateIrqF(old(View()))
    {
      var irq := false;
      if ReceiveInterrupt(cr) && (sr.rdrf || sr.dcd || rx.overrun) {
        irq := true;
      }
      if tx.enableInt && sr.tdre && !sr.cts {
        irq := true;
      }
      if sr.irq != irq {
        sr := sr.(irq := irq);
        lines := lines.(irq := !irq);
      }
    }

    method ReadSr() returns (r: Status)
      modifies `sr, `srRead
      ensures View() == ReadSrF(old(View()), pins)
      ensures r == if pins.cts then sr.(tdre := false) else sr
    {
      sr := sr.(cts := pins.cts);
      r := sr;
      srRead := true;
      if sr.cts {
        r := r.(tdre := false);
      }
    }

    /** The result says whether the clock divider has changed, so that the timer has to be restarted. */
    method WriteCr(newCr: nat) returns (restart: bool)
      modifies `cr, `sr, `tx, `rx, `lines, `firstMasterReset, `clockDivider
      ensures View() == WriteCrF(old(View()), newCr, pins)
      ensures restart <==> Divide(newCr) != 3 && Divide(newCr) != Divide(old(cr))
    {
      hide UpdateIrqF;
      var forced := false;
      var rts := false;
      restart := false;
      if Divide(newCr) == 3 {
        rts := MasterReset(newCr);
        forced := true;
      } else if Divide(newCr) != Divide(cr) {
        clockDivider := ClockDivider(Divide(newCr));
        restart := true;
      }
      tx := tx.(enableInt := false, sendBrk := false);
      var rtsBit := false;
      match TxControl(newCr) {
        case 0 =>
        case 1 => tx := tx.(enableInt := true);
        case 2 => rtsBit := true;
        case _ => tx := tx.(sendBrk := true);
      }
      if forced {
        rtsBit := rts;
      }
      lines := lines.(rts := rtsBit);
      cr := newCr;
      UpdateIrq();
    }

    method ReadRdr() returns (r: Octet)
      modifies `sr, `srRead, `rx, `lines
      ensures View() == ReadRdrF(old(View()), pins) && r == rdr
    {
      hide UpdateIrqF;
      var status := sr.(rdrf := false, pe := false);
      if srRead {
        srRead := false;
        status := status.(dcd := pins.dcd, ovrn := false);
      }
      if rx.overrun {
        status := status.(ovrn := true);
        rx := rx.(overrun := false);
      }
      sr := status;
      UpdateIrq();
      r := rdr;
    }

    method WriteTdr(b: Octet)
      modifies `tdr, `sr, `lines
      ensures View() == WriteTdrF(old(View()), b)
    {
      tdr := b;
      sr := sr.(tdre := false);
      UpdateIrq();
    }

    method PrepareTx()
      modifies `tx, `sr
      ensures View() == PrepareTxF(old(View()))
    {
      tx := tx.(tsr := tdr, parity := false);
      tx := tx.(size := FormatOf(cr).dataBits, stopBits := FormatOf(cr).stopBits);
      sr := sr.(tdre := true);
    }

    method PrepareRx()
      modifies `rx
      ensures View() == PrepareRxF(old(View()))
    {
      rx := rx.(rsr := Zeros(8), parity := false);
      rx := rx.(size := FormatOf(cr).dataBits, stopBits := FormatOf(cr).stopBits);
    }

    /** Break bit, stop bit, or the start bit of a new byte. */
    method SendIdle()
      requires Counting(View()) && tx.state == Idle
      modifies `tx, `sr, `lines
      ensures View() == SendIdleF(old(View()))
    {
      hide FormatOf;
      if tx.sendBrk {
        lines := lines.(tx := false);
      } else {
        if !sr.tdre {
          PrepareTx();
        }
        if tx.size == 0 {
          lines := lines.(tx := true);
        } else {
          lines := lines.(tx := false);
          tx := tx.(state := DataBit);
        }
      }
    }

    /** The lowest bit of the shift register. */
    method SendDataBit()
      requires Counting(View()) && tx.state == DataBit
      modifies `tx, `lines
      ensures View() == SendDataF(old(View()))
    {
      hide FormatOf;
      var bit := tx.tsr[0];
      lines := lines.(tx := bit);
      tx := tx.(parity := tx.parity != bit, tsr := ShiftRight(tx.tsr), size := tx.size - 1);
      if tx.size == 0 {
        tx := tx.(state := if FormatOf(cr).parity != NoParity then ParityBit else StopBit);
      }
    }

    /** The parity of the data bits. */
    method SendParityBit()
      requires Counting(View()) && tx.state == ParityBit
      modifies `tx, `lines
      ensures View() == SendParityF(old(View()))
    {
      hide FormatOf;
      if FormatOf(cr).parity == Even {
        lines := lines.(tx := tx.parity);
      } else {
        lines := lines.(tx := !tx.parity);
      }
      tx := tx.(state := StopBit);
    }

    /** One of one or two stop bits. */
    method SendStopBit()
      requires Counting(View()) && tx.state == StopBit
      modifies `tx, `lines
      ensures View() == SendStopF(old(View()))
    {
      lines := lines.(tx := true);
      tx := tx.(stopBits := tx.stopBits - 1);
      if tx.stopBits == 0 {
        tx := tx.(state := Idle);
      }
    }

    method ClockTx()
      requires Counting(View())
      modifies `tx, `sr, `lines
      ensures View() == ClockTxF(old(View()))
    {
      hide SendIdleF;
      hide SendDataF;
      hide SendParityF;
      hide SendStopF;
      hide UpdateIrqF;
      match tx.state {
        case Idle => SendIdle();
        case DataBit => SendDataBit();
        case ParityBit => SendParityBit();
        case StopBit => SendStopBit();
      }
      UpdateIrq();
    }

    /** Waits for a start bit. */
    method TakeIdle(bit: bool)
      requires Counting(View()) && rx.state == Idle
      modifies `rx
      ensures View() == TakeIdleF(old(View()), bit)
    {
      hide FormatOf;
      if !bit {
        PrepareRx();
        rx := rx.(state := DataBit);
      }
    }

    /** Bits enter the shift register at the top. */
    method TakeDataBit(bit: bool)
      requires Counting(View()) && rx.state == DataBit
      modifies `rx
      ensures View() == TakeDataF(old(View()), bit)
    {
      hide FormatOf;
      if bit {
        rx := rx.(rsr := rx.rsr[7 := true]);
      }
      rx := rx.(parity := rx.parity != bit, size := rx.size - 1);
      if rx.size > 0 {
        rx := rx.(rsr := ShiftRight(rx.rsr));
      } else {
        rx := rx.(state := if FormatOf(cr).parity != NoParity then ParityBit else StopBit);
      }
    }

    /** Compares the parity. */
    method TakeParityBit(bit: bool)
      requires Counting(View()) && rx.state == ParityBit
      modifies `rx, `sr
      ensures View() == TakeParityF(old(View()), bit)
    {
      hide FormatOf;
      if FormatOf(cr).parity == Even && rx.parity != bit {
        sr := sr.(pe := true);
      } else if rx.parity == bit {
        sr := sr.(pe := true);
      }
      rx := rx.(state := StopBit);
    }

    /** Completes the frame, or finds that it is not framed. */
    method TakeStopBit(bit: bool)
      requires Counting(View()) && rx.state == StopBit
      modifies `rx, `sr, `rdr
      ensures View() == TakeStopF(old(View()), bit)
    {
      if bit {
        rx := rx.(stopBits := rx.stopBits - 1);
        if rx.stopBits == 0 {
          sr := sr.(fe := false);
          if !sr.rdrf {
            rdr := rx.rsr;
            sr := sr.(rdrf := true);
          } else {
            rx := rx.(overrun := true);
          }
          rx := rx.(state := Idle);
        }
      } else {
        sr := sr.(fe := true);
        rdr := rx.rsr;
        rx := rx.(state := Idle);
      }
    }

    method ClockRx(bit: bool)
      requires Counting(View())
      modifies `rx, `rdr, `sr, `lines
      ensures View() == ClockRxF(old(View()), bit)
    {
      hide TakeIdleF;
      hide TakeDataF;
      hide TakeParityF;
      hide TakeStopF;
      hide UpdateIrqF;
      match rx.state {
        case Idle => TakeIdle(bit);
        case DataBit => TakeDataBit(bit);
        case ParityBit => TakeParityBit(bit);
        case StopBit => TakeStopBit(bit);
      }
      UpdateIrq();
    }

    /** Length of one bit in processor cycles at 8 MHz. */
    function BitCycles(): nat
      reads this
      requires txClock > 0
    {
      8021247 / txClock * clockDivider
    }

    /** The timer that clocks both sides. It restarts itself relative to the time at which it was due,
        however late it is called. `bit` is what the receive line carries, `asked` the events that the keyboard
        asks for when it gets a bit. */
    method InterruptHandlerIkbd(timers: CycInt.Scheduler, bit: bool, asked: CycInt.Requests)
      requires timers.Valid() && timers.Linked() && timers.Small() && Counting(View()) && txClock > 0
      requires timers.active == IKBD && timers.pendingCount <= 0
      requires CycInt.ToInternal(BitCycles(), CycInt.Cpu8Cycle, timers.freqShift) < CycInt.INT_MAX
      requires forall k | k in asked ::
        0 < k < CycInt.MAX_INTERRUPTS && k != IKBD && (asked[k].Some? ==> asked[k].value < CycInt.INT_MAX)
      modifies `tx, `rx, `rdr, `sr, `lines, timers, timers.handlers
      ensures timers.Valid() && timers.Linked() && timers.Small() && timers.now == old(timers.now)
      ensures IKBD in old(timers.Due())
      ensures timers.Due() == CycInt.Apply(old(timers.Due()) - {IKBD}, asked, timers.now)
                [IKBD := old(timers.Due()[IKBD]) + CycInt.ToInternal(BitCycles(), CycInt.Cpu8Cycle, timers.freqShift)]
      ensures View() == ClockRxF(ClockTxF(old(View())), bit)
    {
      hide ClockTxF;
      hide ClockRxF;
      hide CycInt.ToInternal;
      hide CycInt.DueOf;
      hide CycInt.FrozenOf;
      hide CycInt.Apply;
      timers.ActiveIsEarliest();
      var over := -timers.pendingCount;
      timers.AcknowledgeInterrupt();
      ClockTx();
      timers.CarryOut(asked);
      ClockRx(bit);
      timers.AddRelativeInterruptWithOffset(BitCycles(), CycInt.Cpu8Cycle, IKBD, -over);
    }
  }

  /** Number of the timer in the interrupt table. */
  const IKBD := 8
}
