/** Two ACIAs on one line: the transmitter of the first feeds the receiver of the second, on the same
    clock and with the same frame format. Both state machines run in lockstep, so that every byte arrives, in order
    and as the format delivers it. */
module AciaLoopback {
  import opened Acia
  import opened AciaWave

  const LOW: Pins := Pins(false, false)

  /** `frame` is the byte on the line, `sent` what the sender wrote, `got` what the receiver read. */
  datatype Link = Link(a: Chip, b: Chip, frame: Octet, sent: seq<Octet>, got: seq<Octet>)

  /** A tick of the common clock, a write at the sender, a read at the receiver. The other events are those of the
      opposite direction, with any line, and accesses that do not move data: at the sender or at the receiver
      the status is read, or the control register is written. */
  datatype Event =
    | Tick | Put(b: Octet) | Get
    | BackTick(bit: bool) | BackPut(b: Octet) | BackGet
    | Poll(sender: bool) | Control(sender: bool, cr: nat)

  /** What a byte turns into: seven bit formats lose the top bit and shift the others up by one. */
  function Delivered(b: Octet, dataBits: nat): Octet
    requires dataBits == 7 || dataBits == 8
  {
    Zeros(8 - dataBits) + b[..dataBits]
  }

  /** Eight bit formats deliver the byte itself. Seven bit formats should deliver its seven lower bits; they do so, and
      they deliver the byte itself, only if those bits are all zero. */
  lemma DeliveredWhole(b: Octet)
    ensures Delivered(b, 8) == b
    ensures Delivered(b, 7) == b[..7] + [false] <==> b[..7] == Zeros(7)
    ensures Delivered(b, 7) == b <==> b == Zeros(8)
    ensures Delivered([true] + Zeros(7), 7) == [false, true] + Zeros(6)
  {
    var d := Delivered(b, 7);
    assert d[0] == false && forall i | 1 <= i < 8 :: d[i] == b[i - 1];
    if d == b[..7] + [false] {
      assert forall i | 1 <= i < 7 :: b[i] == (b[..7] + [false])[i] == d[i] == b[i - 1];
      assert b[0] == (b[..7] + [false])[0] == d[0];
      assert b[1] == b[0] && b[2] == b[1] && b[3] == b[2] && b[4] == b[3] && b[5] == b[4] && b[6] == b[5];
      assert b[..7] == Zeros(7);
    }
    if d == b {
      assert b[0] == d[0] && forall i | 1 <= i < 8 :: b[i] == b[i - 1];
      assert b[1] == b[0] && b[2] == b[1] && b[3] == b[2] && b[4] == b[3] && b[5] == b[4] && b[6] == b[5]
        && b[7] == b[6];
    }
  }

  function DeliveredAll(bs: seq<Octet>, dataBits: nat): (r: seq<Octet>)
    requires dataBits == 7 || dataBits == 8
    ensures |r| == |bs| && forall i | 0 <= i < |bs| :: r[i] == Delivered(bs[i], dataBits)
  {
    seq(|bs|, i requires 0 <= i < |bs| => Delivered(bs[i], dataBits))
  }

  function DataBits(l: Link): nat { FormatOf(l.a.cr).dataBits }

  /** Bytes are written only while the data register is empty and read only while one is there, and no
      frame ends before the previous byte has been read. The control register may change interrupts and RTS, but
      not the format, and the sender sends no break. */
  predicate Allowed(l: Link, e: Event) {
    match e
    case Tick => !(l.b.rx.state == StopBit && l.b.rx.stopBits == 1 && l.b.sr.rdrf)
    case Put(_) => l.a.sr.tdre
    case Get => l.b.sr.rdrf
    case Control(sender, cr) =>
      && Divide(cr) != 3 && FormatOf(cr) == FormatOf(if sender then l.a.cr else l.b.cr)
      && (sender ==> TxControl(cr) != 3)
    case _ => true
  }

  function Step(l: Link, e: Event): Link
    requires Counting(l.a) && Counting(l.b)
  {
    match e
    case Tick =>
      var a := ClockTxF(l.a);
      l.(a := a, b := ClockRxF(l.b, a.lines.tx),
         frame := if l.a.tx.state == Idle && !l.a.sr.tdre then l.a.tdr else l.frame)
    case Put(x) => l.(a := WriteTdrF(l.a, x), sent := l.sent + [x])
    case Get => l.(b := ReadRdrF(l.b, LOW), got := l.got + [l.b.rdr])
    case BackTick(bit) => l.(a := ClockRxF(l.a, bit), b := ClockTxF(l.b))
    case BackPut(x) => l.(b := WriteTdrF(l.b, x))
    case BackGet => l.(a := ReadRdrF(l.a, LOW))
    case Poll(sender) => if sender then l.(a := ReadSrF(l.a, LOW)) else l.(b := ReadSrF(l.b, LOW))
    case Control(sender, cr) =>
      if sender then l.(a := WriteCrF(l.a, cr, LOW)) else l.(b := WriteCrF(l.b, cr, LOW))
  }

  // ------------------------------------------------------------------ the lockstep invariant

  /** Bytes between sender and receiver, oldest first: in the receiver, on the line, in the sender. */
  function Pipeline(l: Link): seq<Octet> {
    (if l.b.sr.rdrf then [l.b.rdr] else [])
    + (if l.a.tx.state != Idle then [Delivered(l.frame, DataBits(l))] else [])
    + (if !l.a.sr.tdre then [Delivered(l.a.tdr, DataBits(l))] else [])
  }

  /** Sender and receiver are at the same point of the same frame. */
  predicate Lockstep(l: Link) {
    var f := FormatOf(l.a.cr);
    var t, x := l.a.tx, l.b.rx;
    && FormatOf(l.b.cr) == f && !t.sendBrk && Counting(l.a) && Counting(l.b)
    && t.state == x.state
    && match t.state
       case Idle => true
       case DataBit =>
         var i := f.dataBits - t.size;
         && 0 <= i < f.dataBits && t.size == x.size && t.parity == x.parity
         && t.stopBits == x.stopBits == f.stopBits
         && t.tsr == l.frame[i..] + Zeros(i)
         && x.rsr == Partial(l.frame, i)
       case ParityBit =>
         && f.parity != NoParity && t.parity == x.parity && t.stopBits == x.stopBits == f.stopBits
         && x.rsr == Delivered(l.frame, f.dataBits)
       case StopBit =>
         && t.stopBits == x.stopBits <= f.stopBits && x.rsr == Delivered(l.frame, f.dataBits)
  }

  /** Nothing was lost, duplicated, reordered or flagged. */
  predicate Intact(l: Link) {
    && Lockstep(l)
    && DeliveredAll(l.sent, DataBits(l)) == l.got + Pipeline(l)
    && !l.b.sr.fe && !l.b.sr.ovrn && !l.b.rx.overrun
    && (FormatOf(l.a.cr).parity != Even ==> !l.b.sr.pe)
  }

  lemma TickIdle(l: Link)
    requires Intact(l) && l.a.tx.state == Idle
    ensures Intact(Step(l, Tick))
    ensures !l.a.sr.tdre ==> Step(l, Tick).a.tx.state == DataBit && Step(l, Tick).a.tx.size == DataBits(l)
                             && Step(l, Tick).frame == l.a.tdr && Step(l, Tick).b.sr.rdrf == l.b.sr.rdrf
  {
    hide UpdateIrqF;
    hide FormatOf;
    hide InterruptCause;
  }

  lemma ShiftOut(frame: Octet, i: nat)
    requires i < 8
    ensures (frame[i..] + Zeros(i))[0] == frame[i]
    ensures ShiftRight(frame[i..] + Zeros(i)) == frame[i + 1..] + Zeros(i + 1)
  {
  }

  /** Shift register of the receiver after `i` bits. */
  function Partial(frame: Octet, i: nat): Octet
    requires i < 8
  {
    Zeros(7 - i) + frame[..i] + [false]
  }

  lemma ShiftIn(frame: Octet, i: nat, dataBits: nat)
    requires i < dataBits && (dataBits == 7 || dataBits == 8)
    ensures var r := Partial(frame, i)[7 := Partial(frame, i)[7] || frame[i]];
            if i + 1 < dataBits then ShiftRight(r) == Partial(frame, i + 1) else r == Delivered(frame, dataBits)
  {
    var r := Partial(frame, i)[7 := Partial(frame, i)[7] || frame[i]];
    assert r == Zeros(7 - i) + frame[..i] + [frame[i]];
    assert frame[..i + 1] == frame[..i] + [frame[i]];
  }

  lemma TickData(l: Link)
    requires Intact(l) && l.a.tx.state == DataBit
    ensures Intact(Step(l, Tick))
  {
    hide UpdateIrqF;
    hide FormatOf;
    hide InterruptCause;
    hide ShiftRight;
    hide Delivered;
    hide Partial;
    hide DeliveredAll;
    var i := DataBits(l) - l.a.tx.size;
    ShiftOut(l.frame, i);
    ShiftIn(l.frame, i, DataBits(l));
  }

  lemma TickParity(l: Link)
    requires Intact(l) && l.a.tx.state == ParityBit
    ensures Intact(Step(l, Tick))
  {
    hide UpdateIrqF;
    hide FormatOf;
    hide InterruptCause;
  }

  lemma TickStop(l: Link)
    requires Intact(l) && l.a.tx.state == StopBit && Allowed(l, Tick)
    ensures Intact(Step(l, Tick))
  {
    hide UpdateIrqF;
    hide FormatOf;
    hide InterruptCause;
    hide Delivered;
    hide Partial;
    hide ShiftRight;
    hide SendIdleF;
    hide SendDataF;
    hide SendParityF;
    hide TakeIdleF;
    hide TakeDataF;
    hide TakeParityF;
    hide DeliveredAll;
    hide OnlySends;
    hide OnlyTakes;
    if l.a.tx.stopBits > 1 {
      assert Lockstep(Step(l, Tick)) && Pipeline(Step(l, Tick)) == Pipeline(l);
    }
  }

  lemma PutKeeps(l: Link, x: Octet)
    requires Intact(l) && l.a.sr.tdre
    ensures Intact(Step(l, Put(x)))
  {
    hide UpdateIrqF;
    hide FormatOf;
    hide Delivered;
    hide DeliveredAll;
    hide Partial;
    hide InterruptCause;
    DeliveredSnoc(l.sent, x, DataBits(l));
    assert Lockstep(Step(l, Put(x)));
  }

  lemma DeliveredSnoc(bs: seq<Octet>, x: Octet, d: nat)
    requires d == 7 || d == 8
    ensures DeliveredAll(bs + [x], d) == DeliveredAll(bs, d) + [Delivered(x, d)]
  {
  }

  lemma GetKeeps(l: Link)
    requires Intact(l) && l.b.sr.rdrf
    ensures Intact(Step(l, Get))
  {
    hide UpdateIrqF;
    hide FormatOf;
    hide Delivered;
  }

  /** The parts of both chips that carry the bytes are the same. */
  predicate SameWire(l: Link, r: Link) {
    && FormatOf(r.a.cr) == FormatOf(l.a.cr) && FormatOf(r.b.cr) == FormatOf(l.b.cr)
    && r.a.tx == l.a.tx.(enableInt := r.a.tx.enableInt) && r.a.tdr == l.a.tdr && r.a.sr.tdre == l.a.sr.tdre
    && r.b.rx == l.b.rx && r.b.rdr == l.b.rdr
    && r.b.sr.rdrf == l.b.sr.rdrf && r.b.sr.fe == l.b.sr.fe && r.b.sr.ovrn == l.b.sr.ovrn && r.b.sr.pe == l.b.sr.pe
    && r.frame == l.frame && r.sent == l.sent && r.got == l.got
  }

  lemma WireKeeps(l: Link, r: Link)
    requires Intact(l) && SameWire(l, r) && Counting(r.a) && Counting(r.b)
    ensures Intact(r)
  {
    hide FormatOf;
    hide Delivered;
    hide DeliveredAll;
    hide Partial;
  }

  predicate OnWire(e: Event) { e.Tick? || e.Put? || e.Get? }

  lemma BackTickKeepsWire(l: Link, bit: bool)
    requires Counting(l.a) && Counting(l.b)
    ensures SameWire(l, Step(l, BackTick(bit))) && Counting(Step(l, BackTick(bit)).a)
      && Counting(Step(l, BackTick(bit)).b)
  {
    hide FormatOf;
    hide InterruptCause;
    hide SendBit;
    hide TakeBit;
    hide Counting;
  }

  lemma ControlKeepsWire(l: Link, sender: bool, cr: nat)
    requires Counting(l.a) && Counting(l.b) && !l.a.tx.sendBrk && Allowed(l, Control(sender, cr))
    ensures var r := Step(l, Control(sender, cr)); SameWire(l, r) && Counting(r.a) && Counting(r.b)
  {
    hide FormatOf;
    hide InterruptCause;
  }

  lemma AccessKeepsWire(l: Link, e: Event)
    requires Counting(l.a) && Counting(l.b) && (e.BackPut? || e.BackGet? || e.Poll?)
    ensures SameWire(l, Step(l, e)) && Counting(Step(l, e).a) && Counting(Step(l, e).b)
  {
    hide FormatOf;
    hide InterruptCause;
  }

  lemma OthersKeepWire(l: Link, e: Event)
    requires Counting(l.a) && Counting(l.b) && !l.a.tx.sendBrk && Allowed(l, e) && !OnWire(e)
    ensures SameWire(l, Step(l, e)) && Counting(Step(l, e).a) && Counting(Step(l, e).b)
  {
    hide SameWire;
    hide Counting;
    hide Step;
    hide Allowed;
    match e
    case BackTick(bit) => BackTickKeepsWire(l, bit);
    case Control(sender, cr) => ControlKeepsWire(l, sender, cr);
    case _ => AccessKeepsWire(l, e);
  }

  lemma StepKeeps(l: Link, e: Event)
    requires Intact(l) && Allowed(l, e)
    ensures Intact(Step(l, e)) && FormatOf(Step(l, e).a.cr) == FormatOf(l.a.cr)
    ensures OnWire(e) ==> Step(l, e).a.cr == l.a.cr
  {
    hide Intact;
    hide FormatOf;
    hide SendBit;
    hide TakeBit;
    hide Allowed;
    hide SameWire;
    IntactCounts(l);
    match e
    case Tick => TickKeeps(l);
    case Put(x) => PutAllowed(l, x); PutKeeps(l, x);
    case Get => GetAllowed(l); GetKeeps(l);
    case _ =>
      OthersKeepWire(l, e);
      WireKeeps(l, Step(l, e));
      SameFormat(l, Step(l, e));
  }

  lemma PutAllowed(l: Link, x: Octet)
    requires Allowed(l, Put(x))
    ensures l.a.sr.tdre
  {
  }

  lemma GetAllowed(l: Link)
    requires Allowed(l, Get)
    ensures l.b.sr.rdrf
  {
  }

  lemma SameFormat(l: Link, r: Link)
    requires SameWire(l, r)
    ensures FormatOf(r.a.cr) == FormatOf(l.a.cr)
  {
  }

  lemma TickKeeps(l: Link)
    requires Intact(l) && Allowed(l, Tick)
    ensures Intact(Step(l, Tick)) && Step(l, Tick).a.cr == l.a.cr
  {
    hide Intact;
    hide FormatOf;
    hide SendBit;
    hide TakeBit;
    IntactCounts(l);
    match l.a.tx.state
    case Idle => TickIdle(l);
    case DataBit => TickData(l);
    case ParityBit => TickParity(l);
    case StopBit => TickStop(l);
  }

  lemma IntactCounts(l: Link)
    requires Intact(l)
    ensures Counting(l.a) && Counting(l.b) && !l.a.tx.sendBrk
  {
  }

  // ------------------------------------------------------------------ whole runs

  function Run(l: Link, events: seq<Event>): (r: Link)
    requires Intact(l) && AllowedRun(l, events)
    ensures Intact(r) && FormatOf(r.a.cr) == FormatOf(l.a.cr)
    decreases |events|
  {
    if events == [] then l
    else
      StepKeeps(l, events[0]);
      Run(Step(l, events[0]), events[1..])
  }

  predicate AllowedRun(l: Link, events: seq<Event>)
    requires Intact(l)
    decreases |events|
  {
    events == []
    || (Allowed(l, events[0])
        && (StepKeeps(l, events[0]); AllowedRun(Step(l, events[0]), events[1..])))
  }

  /** Both ends after a master reset and the selection of the same format, without a break signal. */
  predicate Fresh(l: Link, a0: Chip, b0: Chip, reset: nat, cr: nat) {
    && Counting(a0) && Counting(b0) && Divide(reset) == 3 && Divide(cr) != 3 && TxControl(cr) != 3
    && l.a == WriteCrF(WriteCrF(a0, reset, LOW), cr, LOW)
    && l.b == WriteCrF(WriteCrF(b0, reset, LOW), cr, LOW)
    && l.sent == [] && l.got == []
  }

  lemma FreshIntact(l: Link, a0: Chip, b0: Chip, reset: nat, cr: nat)
    requires Fresh(l, a0, b0, reset, cr)
    ensures Intact(l) && FormatOf(l.a.cr) == FormatOf(cr)
  {
    hide FormatOf;
    hide InterruptCause;
  }

  /** Whatever was used before the reset: the bytes read are what the format makes of the bytes written, in order and
      without gaps, at most three of them are still on their way, and the receiver has seen no overrun, no framing
      error and, without even parity, no parity error. */
  lemma BytesArrive(l: Link, a0: Chip, b0: Chip, reset: nat, cr: nat, events: seq<Event>)
    requires Fresh(l, a0, b0, reset, cr) && Intact(l) && AllowedRun(l, events)
    ensures var r := Run(l, events);
            && |r.got| <= |r.sent| <= |r.got| + 3
            && r.got == DeliveredAll(r.sent[..|r.got|], DataCount(cr))
            && !r.b.sr.fe && !r.b.sr.ovrn && !r.b.rx.overrun
            && (ParityCount(cr) == 0 || WantedOnes(cr) == 1 ==> !r.b.sr.pe)
  {
    FormatIs(cr);
    hide FormatOf;
    hide Delivered;
    hide Lockstep;
    hide Step;
    FreshIntact(l, a0, b0, reset, cr);
    var r := Run(l, events);
    forall i | 0 <= i < |r.got| ensures r.got[i] == Delivered(r.sent[i], DataBits(l)) {
      assert DeliveredAll(r.sent, DataBits(l))[i] == (r.got + Pipeline(r))[i];
    }
  }

  /** The bytes read are the bytes written if and only if the format has eight bits, or nothing but zeros was sent. */
  lemma BytesUnchangedIff(l: Link, a0: Chip, b0: Chip, reset: nat, cr: nat, events: seq<Event>)
    requires Fresh(l, a0, b0, reset, cr) && Intact(l) && AllowedRun(l, events)
    ensures var r := Run(l, events);
            |r.got| <= |r.sent|
            && (r.got == r.sent[..|r.got|]
                <==> DataCount(cr) == 8 || forall i | 0 <= i < |r.got| :: r.sent[i] == Zeros(8))
  {
    hide FormatOf;
    hide Delivered;
    hide Intact;
    hide AllowedRun;
    hide Run;
    hide Fresh;
    BytesArrive(l, a0, b0, reset, cr, events);
    var r := Run(l, events);
    SameBytesIff(r.sent[..|r.got|], DataCount(cr));
    assert forall i | 0 <= i < |r.got| :: r.sent[..|r.got|][i] == r.sent[i];
  }

  lemma SameBytesIff(bs: seq<Octet>, d: nat)
    requires d == 7 || d == 8
    ensures DeliveredAll(bs, d) == bs <==> d == 8 || forall i | 0 <= i < |bs| :: bs[i] == Zeros(8)
  {
    hide Delivered;
    var ds := DeliveredAll(bs, d);
    forall i | 0 <= i < |bs| ensures ds[i] == bs[i] <==> d == 8 || bs[i] == Zeros(8) {
      DeliveredWhole(bs[i]);
    }
  }

  // ------------------------------------------------------------------ progress

  /** Clock ticks until the frame on the line is complete. */
  function TicksLeft(l: Link): nat {
    var f := FormatOf(l.a.cr);
    var parity := if f.parity == NoParity then 0 else 1;
    match l.a.tx.state
    case Idle => 0
    case DataBit => l.a.tx.size + parity + f.stopBits
    case ParityBit => 1 + f.stopBits
    case StopBit => l.a.tx.stopBits
  }

  lemma TickProgress(l: Link)
    requires Intact(l) && l.a.tx.state != Idle && !l.b.sr.rdrf
    ensures var r := Step(l, Tick);
            && TicksLeft(r) == TicksLeft(l) - 1 && r.frame == l.frame && r.got == l.got
            && (if TicksLeft(r) == 0 then r.b.sr.rdrf && r.b.rdr == Delivered(l.frame, DataBits(l))
                else !r.b.sr.rdrf && r.a.tx.state != Idle)
  {
    hide UpdateIrqF;
    hide ShiftRight;
    hide Delivered;
    hide InterruptCause;
  }

  function Ticks(n: nat): seq<Event> { seq(n, _ => Tick) }

  function AfterTicks(l: Link, n: nat): Link
    requires Intact(l) && AllowedRun(l, Ticks(n))
  {
    Run(l, Ticks(n))
  }

  lemma {:induction false} FrameFinishes(l: Link)
    requires Intact(l) && l.a.tx.state != Idle && !l.b.sr.rdrf
    ensures AllowedRun(l, Ticks(TicksLeft(l)))
    ensures var r := Run(l, Ticks(TicksLeft(l)));
            r.b.sr.rdrf && r.b.rdr == Delivered(l.frame, DataBits(l))
    decreases TicksLeft(l)
  {
    hide Intact;
    hide Step;
    hide TicksLeft;
    TickProgress(l);
    IntactCounts(l);
    StepKeeps(l, Tick);
    var n := TicksLeft(l);
    assert Ticks(n)[0] == Tick && Ticks(n)[1..] == Ticks(n - 1);
    if TicksLeft(Step(l, Tick)) > 0 {
      FrameFinishes(Step(l, Tick));
    }
  }

  lemma FrameBegins(l: Link)
    requires Intact(l) && l.a.tx.state == Idle && !l.a.sr.tdre && !l.b.sr.rdrf
    ensures Counting(l.a) && Counting(l.b) && Allowed(l, Tick)
    ensures var r := Step(l, Tick);
            && Intact(r) && r.a.tx.state == DataBit && !r.b.sr.rdrf && r.frame == l.a.tdr && r.a.cr == l.a.cr
            && TicksLeft(r) == FrameCount(l.a.cr) - 1
  {
    FormatIs(l.a.cr);
    IntactCounts(l);
    StepKeeps(l, Tick);
    TickIdle(l);
    hide Intact;
    hide Step;
    hide FormatOf;
  }

  /** A byte that is written while the line is idle is there after one start bit, the data bits, the
      parity bit if there is one, and the stop bits. */
  lemma ByteTakesOneFrame(l: Link)
    requires Intact(l) && l.a.tx.state == Idle && !l.a.sr.tdre && !l.b.sr.rdrf
    ensures AllowedRun(l, Ticks(FrameCount(l.a.cr)))
    ensures var r := AfterTicks(l, FrameCount(l.a.cr)); r.b.sr.rdrf && r.b.rdr == Delivered(l.a.tdr, DataCount(l.a.cr))
  {
    FormatIs(l.a.cr);
    hide Intact;
    hide Step;
    hide TicksLeft;
    hide FormatOf;
    hide Delivered;
    FrameBegins(l);
    var l1 := Step(l, Tick);
    FrameFinishes(l1);
    var n := 1 + TicksLeft(l1);
    assert Ticks(n)[0] == Tick && Ticks(n)[1..] == Ticks(n - 1);
  }

  // ------------------------------------------------------------------ even parity

  lemma TickMarks(l: Link)
    requires Intact(l) && l.a.tx.state != Idle && FormatOf(l.a.cr).parity == Even
    requires l.a.tx.state == StopBit ==> l.b.sr.pe
    ensures var r := Step(l, Tick); (r.a.tx.state == StopBit || TicksLeft(r) == 0) ==> r.b.sr.pe
  {
    hide UpdateIrqF;
    hide ShiftRight;
    hide Delivered;
    hide InterruptCause;
    hide DeliveredAll;
  }

  lemma {:induction false} FrameMarks(l: Link)
    requires Intact(l) && l.a.tx.state != Idle && !l.b.sr.rdrf
    requires FormatOf(l.a.cr).parity == Even && (l.a.tx.state == StopBit ==> l.b.sr.pe)
    ensures AllowedRun(l, Ticks(TicksLeft(l))) && Run(l, Ticks(TicksLeft(l))).b.sr.pe
    decreases TicksLeft(l)
  {
    hide Intact;
    hide Step;
    hide TicksLeft;
    hide FormatOf;
    TickProgress(l);
    TickMarks(l);
    IntactCounts(l);
    StepKeeps(l, Tick);
    var n := TicksLeft(l);
    assert Ticks(n)[0] == Tick && Ticks(n)[1..] == Ticks(n - 1);
    if TicksLeft(Step(l, Tick)) > 0 {
      FrameMarks(Step(l, Tick));
    }
  }

  /** A byte that arrives is marked as having a parity error exactly when the format has even parity,
      although the line never disturbs it: with even parity every frame is flagged, correct or not. */
  lemma ParityErrorIffEven(l: Link)
    requires Intact(l) && l.a.tx.state == Idle && !l.a.sr.tdre && !l.b.sr.rdrf
    ensures AllowedRun(l, Ticks(FrameCount(l.a.cr)))
    ensures AfterTicks(l, FrameCount(l.a.cr)).b.sr.pe <==> ParityCount(l.a.cr) == 1 && WantedOnes(l.a.cr) == 0
  {
    FormatIs(l.a.cr);
    hide Intact;
    hide Step;
    hide TicksLeft;
    hide FormatOf;
    ByteTakesOneFrame(l);
    FrameBegins(l);
    var l1 := Step(l, Tick);
    var n := 1 + TicksLeft(l1);
    IntactPe(Run(l, Ticks(n)));
    assert Ticks(n)[0] == Tick && Ticks(n)[1..] == Ticks(n - 1);
    if FormatOf(l.a.cr).parity == Even {
      FrameMarks(l1);
    }
  }

  lemma IntactPe(l: Link)
    requires Intact(l)
    ensures FormatOf(l.a.cr).parity != Even ==> !l.b.sr.pe
  {
  }
}
