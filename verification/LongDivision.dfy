/** The division by which UART and I2C segments are split into bursts: ldiv takes 32-bit signed
    operands, and its results are stored back as 32-bit unsigned numbers. */
module LongDivision {
  const WORD := 0x1_0000_0000
  const SIGN := 0x8000_0000

  /** A 32-bit number read as a signed one. */
  function Signed(n: nat): int {
    if n % WORD < SIGN then n % WORD else n % WORD - WORD
  }

  function Unsigned(i: int): nat {
    i % WORD
  }

  /** Division that rounds towards zero. */
  function Truncated(a: int, b: nat): int
    requires 0 < b
  {
    if a < 0 then -(-a / b) else a / b
  }

  /** For divisors below 2^31, which are positive as signed numbers; bursts are 4096 at most. */
  function Quotient(n: nat, b: nat): nat
    requires 0 < b
  {
    Unsigned(Truncated(Signed(n), b))
  }

  function Remainder(n: nat, b: nat): nat
    requires 0 < b
  {
    Unsigned(Signed(n) - Truncated(Signed(n), b) * b)
  }

  /** The bytes that Quotient bursts and Remainder single bytes come to. */
  function Covered(n: nat, b: nat): nat
    requires 0 < b
  {
    Quotient(n, b) * b + Remainder(n, b)
  }

  /** The sizes for which that is right: the signed size is positive, or so close to zero from
      below that everything is left to single bytes. */
  predicate Splits(n: nat, b: nat) {
    n < SIGN || (n < WORD && WORD - n < b)
  }

  lemma Quotients(m: nat, b: nat, q: nat, r: nat, p: nat)
    requires 0 < b && p == q * b && m == p + r && r < b
    ensures q <= p && (m < b <==> q == 0)
  {
    assert p == q * (b - 1) + q;
    if q > 0 { assert p == (q - 1) * b + b; }
  }

  lemma Divided(m: nat, b: nat, q: nat, r: nat, p: nat)
    requires 0 < b && q == m / b && r == m % b && p == q * b
    ensures m == p + r && r < b && q <= p
    ensures m < b <==> q == 0
  {
    Quotients(m, b, q, r, p);
  }

  lemma NegativeWord(i: int)
    requires 0 <= i < WORD
    ensures Unsigned(-i) == if i == 0 then 0 else WORD - i
  {
  }

  lemma Negated(a: int, b: int)
    ensures (-a) * b == -(a * b)
  {
  }

  /** What is left after -q times b has been taken from -m. */
  lemma NegativeRest(m: int, b: int, q: int, p: int)
    requires p == q * b
    ensures -m - (-q) * b == p - m
  {
    Negated(q, b);
  }

  lemma NegativeSize(n: nat, b: nat, m: int)
    requires SIGN <= n < WORD && m == WORD - n && 0 < b
    ensures Quotient(n, b) == if m < b then 0 else WORD - m / b
    ensures Remainder(n, b) == if m % b == 0 then 0 else WORD - m % b
  {
    var q: int, r: int := m / b, m % b;
    var p := q * b;
    Divided(m, b, q, r, p);
    assert Signed(n) == -m;
    assert Truncated(-m, b) == -q;
    NegativeRest(m, b, q, p);
    NegativeWord(q);
    NegativeWord(r);
  }

  lemma PositiveSize(n: nat, b: nat)
    requires n < SIGN && 0 < b
    ensures Quotient(n, b) == n / b && Remainder(n, b) == n % b && Covered(n, b) == n
  {
    var q, r := n / b, n % b;
    var p := q * b;
    Divided(n, b, q, r, p);
    assert Signed(n) == n && Truncated(n, b) == q;
  }

  lemma Complement(q: int, b: int, p: int)
    requires p == q * b
    ensures (WORD - q) * b == WORD * b - p
  {
  }

  lemma Overrun(n: nat, b: nat, m: int)
    requires SIGN <= n < WORD && m == WORD - n && 2 <= b <= m
    ensures Covered(n, b) > n
  {
    var q := m / b;
    var p := q * b;
    Divided(m, b, q, m % b, p);
    NegativeSize(n, b, m);
    Complement(q, b, p);
  }

  lemma NothingCovered(n: nat, b: nat)
    requires 0 < b && Quotient(n, b) == 0
    ensures Covered(n, b) == Remainder(n, b)
  {
  }

  lemma AllSingle(n: nat, b: nat, m: int)
    requires SIGN <= n < WORD && m == WORD - n && m < b
    ensures Covered(n, b) == n
  {
    var q := m / b;
    Divided(m, b, q, m % b, q * b);
    NegativeSize(n, b, m);
    NothingCovered(n, b);
  }

  /** The parts come to the size exactly when it splits, and to more otherwise. */
  lemma CoveredExactlyWhen(n: nat, b: nat)
    requires n < WORD && 2 <= b
    ensures Covered(n, b) == n <==> Splits(n, b)
    ensures n <= Covered(n, b)
  {
    if n < SIGN {
      PositiveSize(n, b);
    } else if WORD - n < b {
      AllSingle(n, b, WORD - n);
    } else {
      Overrun(n, b, WORD - n);
    }
  }

  /** The signed division is the natural one exactly for sizes below 2^31. */
  lemma NaturalBelowSign(n: nat, b: nat)
    requires n < WORD && 2 <= b < SIGN
    ensures Quotient(n, b) == n / b && Remainder(n, b) == n % b <==> n < SIGN
  {
    Divided(n, b, n / b, n % b, n / b * b);
    if n < SIGN {
      PositiveSize(n, b);
    } else if WORD - n < b {
      NegativeSize(n, b, WORD - n);
    } else {
      Overrun(n, b, WORD - n);
    }
  }

  /** Two gigabytes in bursts of 16: the quotient is -134217728, and the program would move more
      than thirty times as much. */
  lemma TwoGigabytes()
    ensures Quotient(0x8000_0000, 16) == 4160749568 && 0x8000_0000 / 16 == 134217728
    ensures Covered(0x8000_0000, 16) == 66571993088
  {
  }
}
