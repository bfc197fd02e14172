/** Machine words shared by the hardware models. A word is the sequence of its bits,
    most significant bit first; a 32 bit address is an integer that wraps modulo 2^32. */
module Words {

  const TWO_TO_32: int := 0x1_0000_0000

  function Wrap32(a: int): (r: int)
    ensures 0 <= r < TWO_TO_32
  {
    a % TWO_TO_32
  }

  /** An address is what 32 bits keep of a number: the two differ by a multiple of 2^32. */
  lemma WrapKeeps(a: int)
    ensures 0 <= Wrap32(a) < 0x1_0000_0000 && (a - Wrap32(a)) % 0x1_0000_0000 == 0
  {
  }

  lemma WrapAdd(a: int, b: int)
    ensures Wrap32(Wrap32(a) + b) == Wrap32(a + b)
  {
    var q := a / TWO_TO_32;
    assert Wrap32(a) + b == a + b - TWO_TO_32 * q;
  }

  type Word = w: seq<bool> | |w| == 16 witness Fill(16, false)
  type Long = w: seq<bool> | |w| == 32 witness Fill(32, false)

  function Fill(n: nat, b: bool): (w: seq<bool>)
    ensures |w| == n && forall i | 0 <= i < n :: w[i] == b
  {
    seq(n, _ => b)
  }

  const ZERO: Word := Fill(16, false)
  const ONES: Word := Fill(16, true)

  function Not(a: Word): (r: Word)
    ensures forall i | 0 <= i < 16 :: r[i] == !a[i]
  {
    seq(16, i requires 0 <= i < 16 => !a[i])
  }

  function And(a: Word, b: Word): (r: Word)
    ensures forall i | 0 <= i < 16 :: r[i] == (a[i] && b[i])
  {
    seq(16, i requires 0 <= i < 16 => a[i] && b[i])
  }

  function Or(a: Word, b: Word): (r: Word)
    ensures forall i | 0 <= i < 16 :: r[i] == (a[i] || b[i])
  {
    seq(16, i requires 0 <= i < 16 => a[i] || b[i])
  }

  function Xor(a: Word, b: Word): (r: Word)
    ensures forall i | 0 <= i < 16 :: r[i] == (a[i] != b[i])
  {
    seq(16, i requires 0 <= i < 16 => a[i] != b[i])
  }

  // The operations on a 32 bit window that the skew circuit needs.

  function ShiftLeft16(v: Long): Long { v[16..] + ZERO }

  function ShiftRight16(v: Long): Long { ZERO + v[..16] }

  function OrLow(v: Long, w: Word): Long { v[..16] + Or(v[16..], w) }

  function OrHigh(v: Long, w: Word): Long { Or(v[..16], w) + v[16..] }

  /** The low 16 bits of the window shifted right by `s`. */
  function Extract(v: Long, s: nat): Word
    requires s < 16
  {
    v[16 - s..32 - s]
  }

  /** The value of the lowest four bits. */
  function Nibble(w: Word): (n: nat)
    ensures n < 16
  {
    (if w[12] then 8 else 0) + (if w[13] then 4 else 0) + (if w[14] then 2 else 0) + (if w[15] then 1 else 0)
  }

  /** Concatenation of words: their bits as one stream. */
  function Flatten(ws: seq<Word>): (r: seq<bool>)
    ensures |r| == 16 * |ws|
  {
    if ws == [] then [] else Flatten(ws[..|ws| - 1]) + ws[|ws| - 1]
  }
}
