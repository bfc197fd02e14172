/** What an ACIA puts on its line for a byte, bit by bit, in terms of the byte and the bits of the control register. */
module AciaWave {
  import opened Acia

  // ------------------------------------------------------------------ the frame, read off the control register

  /** Bit 4 of the control register asks for an eighth data bit. */
  function DataCount(cr: nat): (r: nat)
    ensures r == 7 || r == 8
  {
    7 + cr / 16 % 2
  }

  /** Bits 2 to 4 select the word; selections 4 and 5 have no parity bit. */
  function ParityCount(cr: nat): (r: nat)
    ensures r <= 1
  {
    if cr / 4 % 8 in {4, 5} then 0 else 1
  }

  function StopCount(cr: nat): (r: nat)
    ensures r == 1 || r == 2
  {
    if cr / 4 % 8 in {0, 1, 4} then 2 else 1
  }

  /** Where there is a parity bit, bit 2 asks for an odd number of ones in all. */
  function WantedOnes(cr: nat): (r: nat)
    ensures r < 2
  {
    cr / 4 % 2
  }

  /** Bit times of a whole frame. */
  function FrameCount(cr: nat): nat { 1 + DataCount(cr) + ParityCount(cr) + StopCount(cr) }

  function Ones(b: seq<bool>): nat {
    if b == [] then 0 else Ones(b[..|b| - 1]) + if b[|b| - 1] then 1 else 0
  }

  lemma FormatIs(cr: nat)
    ensures var f := FormatOf(cr);
            && f.dataBits == DataCount(cr) && f.stopBits == StopCount(cr)
            && (f.parity == NoParity <==> ParityCount(cr) == 0)
            && (f.parity == Even <==> ParityCount(cr) == 1 && WantedOnes(cr) == 0)
  {
    SelectBits(cr);
  }

  lemma SelectBits(cr: nat)
    ensures cr / 16 % 2 == cr / 4 % 8 / 4 && cr / 4 % 2 == cr / 4 % 8 % 2
  {
    var v := cr / 4;
    assert cr / 16 == v / 4;
    assert v == 8 * (v / 8) + v % 8;
    LowBits(v / 8, v % 8);
  }

  lemma LowBits(q: nat, w: nat)
    requires w < 8
    ensures (8 * q + w) / 4 % 2 == w / 4 && (8 * q + w) % 2 == w % 2
  {
    if w < 4 {
      assert (8 * q + w) / 4 == 2 * q;
    } else {
      assert (8 * q + w) / 4 == 2 * q + 1;
    }
  }

  // ------------------------------------------------------------------ sending

  /** The chip after `n` edges of the transmit clock. */
  function Sending(c: Chip, n: nat): (r: Chip)
    requires Counting(c)
    ensures Counting(r)
  {
    if n == 0 then c else ClockTxF(Sending(c, n - 1))
  }

  /** The parity bit makes the number of ones even or odd. */
  predicate MakesParity(cr: nat, data: seq<bool>, bit: bool) {
    Ones(data + [bit]) % 2 == WantedOnes(cr)
  }

  /** The transmitter after `n > 0` edges for the byte `b`. */
  predicate OnItsWay(cr: nat, b: Octet, t: Transmitter, n: nat)
    requires n > 0
  {
    var d, p, s := DataCount(cr), ParityCount(cr), StopCount(cr);
    if n <= d then
      && t.state == DataBit && t.size == d - (n - 1) && t.stopBits == s
      && t.tsr == b[n - 1..] + Zeros(n - 1) && t.parity == (Ones(b[..n - 1]) % 2 == 1)
    else if n == d + 1 && p == 1 then
      t.state == ParityBit && t.stopBits == s && t.parity == (Ones(b[..d]) % 2 == 1)
    else if n < d + 1 + p + s then
      t.state == StopBit && t.stopBits == s - (n - (d + 1 + p))
    else
      t.state == Idle
  }

  /** The bit that edge `n + 1` puts on the line. */
  predicate Carries(cr: nat, b: Octet, n: nat, line: bool)
    requires n > 0
  {
    if n <= DataCount(cr) then line == b[n - 1]
    else if n == DataCount(cr) + 1 && ParityCount(cr) == 1 then MakesParity(cr, b[..DataCount(cr)], line)
    else line
  }

  predicate SentTo(c: Chip, b: Octet, n: nat, r: Chip)
    requires n > 0
  {
    && r.cr == c.cr && r.sr.tdre && !r.tx.sendBrk
    && OnItsWay(c.cr, b, r.tx, n + 1) && Carries(c.cr, b, n, r.lines.tx)
  }

  lemma SendingData(c: Chip, b: Octet, n: nat)
    requires Counting(c) && 0 < n <= DataCount(c.cr) && c.sr.tdre && !c.tx.sendBrk && OnItsWay(c.cr, b, c.tx, n)
    ensures c.tx.state == DataBit && SentTo(c, b, n, SendDataF(c))
  {
    hide FormatOf;
    hide Ones;
    hide WantedOnes;
    hide DataCount;
    hide ParityCount;
    hide StopCount;
    hide MakesParity;
    hide ShiftRight;
    FormatIs(c.cr);
    OnesNext(b, n - 1);
    ShiftedOut(b, n - 1);
  }

  lemma ShiftedOut(b: Octet, i: nat)
    requires i < 8
    ensures (b[i..] + Zeros(i))[0] == b[i] && ShiftRight(b[i..] + Zeros(i)) == b[i + 1..] + Zeros(i + 1)
  {
  }

  lemma SendingParity(c: Chip, b: Octet, n: nat)
    requires Counting(c) && n == DataCount(c.cr) + 1 && ParityCount(c.cr) == 1
    requires c.sr.tdre && !c.tx.sendBrk && OnItsWay(c.cr, b, c.tx, n)
    ensures SentTo(c, b, n, SendBit(c))
  {
    hide FormatOf;
    hide Ones;
    hide WantedOnes;
    hide MakesParity;
    FormatIs(c.cr);
    ParityBitIs(c.cr, b[..DataCount(c.cr)]);
  }

  lemma SendingStop(c: Chip, b: Octet, n: nat)
    requires Counting(c) && n > DataCount(c.cr) + ParityCount(c.cr) && c.tx.state == StopBit
    requires c.sr.tdre && !c.tx.sendBrk && OnItsWay(c.cr, b, c.tx, n)
    ensures SentTo(c, b, n, SendStopF(c))
  {
    hide FormatOf;
    hide MakesParity;
    hide DataCount;
    hide ParityCount;
    hide StopCount;
    hide Counting;
  }

  lemma SendingIdle(c: Chip, b: Octet, n: nat)
    requires Counting(c) && n > DataCount(c.cr) + ParityCount(c.cr) && c.tx.state == Idle
    requires c.sr.tdre && !c.tx.sendBrk && OnItsWay(c.cr, b, c.tx, n)
    ensures SentTo(c, b, n, SendIdleF(c))
  {
    hide FormatOf;
    hide MakesParity;
    hide DataCount;
    hide ParityCount;
    hide StopCount;
    hide Counting;
  }

  /** Stop bits, and highs after them. */
  lemma SendingHigh(c: Chip, b: Octet, n: nat)
    requires Counting(c) && n > DataCount(c.cr) + ParityCount(c.cr)
    requires c.sr.tdre && !c.tx.sendBrk && OnItsWay(c.cr, b, c.tx, n)
    ensures SentTo(c, b, n, SendBit(c))
  {
    hide SentTo;
    hide SendIdleF;
    hide SendStopF;
    if c.tx.state == Idle {
      SendingIdle(c, b, n);
    } else {
      SendingStop(c, b, n);
    }
  }

  lemma SendingStep(c: Chip, b: Octet, n: nat)
    requires Counting(c) && n > 0 && c.sr.tdre && !c.tx.sendBrk && OnItsWay(c.cr, b, c.tx, n)
    ensures SentTo(c, b, n, ClockTxF(c))
  {
    hide SentTo;
    hide SendIdleF;
    hide SendDataF;
    hide SendParityF;
    hide SendStopF;
    hide OnItsWay;
    UpdateKeepsSent(c, b, n, SendBit(c));
    if n <= DataCount(c.cr) {
      SendingData(c, b, n);
    } else if n == DataCount(c.cr) + 1 && ParityCount(c.cr) == 1 {
      SendingParity(c, b, n);
    } else {
      SendingHigh(c, b, n);
    }
  }

  lemma UpdateKeepsSent(c: Chip, b: Octet, n: nat, r: Chip)
    requires n > 0
    ensures SentTo(c, b, n, UpdateIrqF(r)) == SentTo(c, b, n, r)
  {
    hide OnItsWay;
    hide Carries;
    hide InterruptCause;
  }

  lemma OnesNext(b: seq<bool>, n: nat)
    requires n < |b|
    ensures Ones(b[..n + 1]) == Ones(b[..n]) + if b[n] then 1 else 0
  {
    assert b[..n + 1][..n] == b[..n];
  }

  lemma ParityBitIs(cr: nat, data: seq<bool>)
    ensures MakesParity(cr, data, (Ones(data) % 2 == 1) == (WantedOnes(cr) == 0))
  {
    hide WantedOnes;
    var bit := (Ones(data) % 2 == 1) == (WantedOnes(cr) == 0);
    assert (data + [bit])[..|data|] == data;
    OneMore(Ones(data), WantedOnes(cr));
  }

  lemma OneMore(n: nat, wanted: nat)
    requires wanted < 2
    ensures (n + if (n % 2 == 1) == (wanted == 0) then 1 else 0) % 2 == wanted
  {
  }

  lemma SendingStarts(c: Chip)
    requires Counting(c) && c.tx.state == Idle && !c.sr.tdre && !c.tx.sendBrk
    ensures var r := Sending(c, 1);
            && r.cr == c.cr && r.sr.tdre && !r.tx.sendBrk && OnItsWay(c.cr, c.tdr, r.tx, 1) && !r.lines.tx
  {
    hide InterruptCause;
    hide FormatOf;
    FormatIs(c.cr);
    assert Sending(c, 0) == c;
  }

  lemma {:induction false} SendingGoesOn(c: Chip, n: nat)
    requires Counting(c) && c.tx.state == Idle && !c.sr.tdre && !c.tx.sendBrk && n > 0
    ensures var r := Sending(c, n); r.cr == c.cr && r.sr.tdre && !r.tx.sendBrk && OnItsWay(c.cr, c.tdr, r.tx, n)
    ensures n > 1 ==> Carries(c.cr, c.tdr, n - 1, Sending(c, n).lines.tx)
  {
    hide ClockTxF;
    hide OnItsWay;
    hide Carries;
    if n == 1 {
      SendingStarts(c);
    } else {
      SendingGoesOn(c, n - 1);
      SendingStep(Sending(c, n - 1), c.tdr, n - 1);
    }
  }

  /** What the line carries after each edge of the transmit clock for a byte that was waiting: a start bit, the data
      bits from the lowest up, the parity bit, and then the stop bits and the idle line. */
  lemma ByteOnTheLine(c: Chip, n: nat)
    requires Counting(c) && c.tx.state == Idle && !c.sr.tdre && !c.tx.sendBrk && n > 0
    ensures var d, line := DataCount(c.cr), Sending(c, n).lines.tx;
            if n == 1 then !line
            else if n <= d + 1 then line == c.tdr[n - 2]
            else if n == d + 2 && ParityCount(c.cr) == 1 then MakesParity(c.cr, c.tdr[..d], line)
            else line
    ensures Sending(c, n).tx.state == Idle <==> n >= FrameCount(c.cr)
  {
    hide ClockTxF;
    hide MakesParity;
    if n == 1 {
      SendingStarts(c);
    } else {
      SendingGoesOn(c, n);
    }
  }

  /** With nothing to send the line is high, unless bits 5 and 6 of the control register ask for a break, which holds it
      low, whether a byte is waiting or not. */
  lemma IdleLine(c: Chip, cr: nat, pins: Pins, n: nat)
    requires Counting(c) && c.tx.state == Idle && n > 0
    ensures Counting(WriteCrF(c, cr, pins))
    ensures var r := Sending(WriteCrF(c, cr, pins), n);
            && (cr / 32 % 4 == 3 ==> !r.lines.tx)
            && (cr / 32 % 4 != 3 && WriteCrF(c, cr, pins).sr.tdre ==> r.lines.tx)
  {
    hide FormatOf;
    hide InterruptCause;
    var c1 := WriteCrF(c, cr, pins);
    if c1.tx.sendBrk || c1.sr.tdre {
      StaysIdle(c1, n);
    }
  }

  lemma {:induction false} StaysIdle(c: Chip, n: nat)
    requires Counting(c) && c.tx.state == Idle && (c.tx.sendBrk || c.sr.tdre)
    ensures var r := Sending(c, n);
            && r.tx == c.tx && r.sr.tdre == c.sr.tdre && (n > 0 ==> r.lines.tx == !c.tx.sendBrk)
  {
    hide FormatOf;
    hide InterruptCause;
    if n > 0 {
      StaysIdle(c, n - 1);
    }
  }
}
