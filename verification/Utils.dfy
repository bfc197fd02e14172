/** Small things that several modules share. */
module Utils {
  datatype Option<T> = None | Some(value: T)

  type Byte = x: int | 0 <= x < 256

  /** `b` written over `s` from position `at` on, past its end if need be. */
  function Overwrite<T>(s: seq<T>, at: nat, b: seq<T>): (r: seq<T>)
    requires at <= |s|
    ensures |r| == if at + |b| <= |s| then |s| else at + |b|
  {
    s[..at] + b + (if at + |b| <= |s| then s[at + |b|..] else [])
  }

  // ------------------------------------------------------------------ products and quotients

  /** The quotient, rounded up. */
  function Ceil(a: nat, b: int): (r: nat)
    requires b > 0
    ensures a <= r * b < a + b
  {
    Quotient(a + b - 1, b)
  }

  function Quotient(a: nat, b: int): (q: nat)
    requires b > 0
    ensures q * b <= a < q * b + b
  {
    QuotientBounds(a, b);
    a / b
  }

  lemma QuotientBounds(a: nat, b: int)
    requires b > 0
    ensures 0 <= a / b && a / b * b <= a < a / b * b + b
  {
  }

  /** Quotient and remainder are unique. */
  lemma OneQuotient(p: int, q: int, n: int, s: int, r: int)
    requires 0 <= r < n && 0 <= s < n && p * n + s == q * n + r
    ensures p == q && s == r
  {
    if p < q {
      AtLeast(p, q, n);
    } else if q < p {
      AtLeast(q, p, n);
    }
  }

  lemma AtLeast(p: int, q: int, n: int)
    requires p < q && n > 0
    ensures p * n + n <= q * n
  {
    var d := q - p - 1;
    assert q * n == p * n + n + d * n;
  }

  lemma Monotone(c: nat, a: nat, b: nat)
    requires a <= b
    ensures c * a <= c * b && a * c <= b * c
  {
    assert b * c == a * c + (b - a) * c;
  }

  lemma Distribute(a: int, b: int, c: int)
    ensures a * c + b * c == (a + b) * c && c * a + c * b == c * (a + b)
  {
  }
}
