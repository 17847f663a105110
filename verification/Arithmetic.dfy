/** Products and remainders, from explicit quotients. */
module Arithmetic {
  lemma MultiplesApart(d: int, unit: nat)
    ensures 1 <= d ==> unit <= d * unit
    ensures d <= -1 ==> d * unit + unit <= 0
  {
    if d >= 1 { assert (d - 1) * unit >= 0; } else if d <= -1 { assert (-1 - d) * unit >= 0; }
  }

  lemma MulMod(k: int, unit: nat)
    requires 0 < unit
    ensures (k * unit) % unit == 0
  {
    var q, r := k * unit / unit, k * unit % unit;
    assert (k - q) * unit == k * unit - q * unit;
    MultiplesApart(k - q, unit);
  }

  lemma ModAdd(a: nat, n: nat, unit: nat)
    requires 0 < unit && a % unit == 0 && n % unit == 0
    ensures (a + n) % unit == 0
  {
    var p, q := a / unit, n / unit;
    assert a == p * unit && n == q * unit;
    assert a + n == (p + q) * unit;
    MulMod(p + q, unit);
  }

  lemma ModSub(a: nat, n: nat, unit: nat)
    requires 0 < unit && n <= a && a % unit == 0 && n % unit == 0
    ensures (a - n) % unit == 0
  {
    var p, q := a / unit, n / unit;
    assert a == p * unit && n == q * unit;
    assert a - n == (p - q) * unit;
    MulMod(p - q, unit);
  }

  /** A nonzero multiple is a unit at least, and stays a multiple without it. */
  lemma ModStep(n: nat, unit: nat)
    requires 0 < unit && 0 < n && n % unit == 0
    ensures unit <= n && (n - unit) % unit == 0
  {
    var q := n / unit;
    assert n == q * unit;
    MultiplesApart(q, unit);
    assert n - unit == (q - 1) * unit;
    MulMod(q - 1, unit);
  }

  lemma MulModUnit(c: nat, n: nat, unit: nat)
    requires 0 < unit && n % unit == 0
    ensures (c * n) % unit == 0
  {
    var q := n / unit;
    assert n == q * unit;
    assert c * n == (c * q) * unit;
    MulMod(c * q, unit);
  }

  lemma Distributes(c: nat, k: nat, n: nat)
    requires c <= k
    ensures 0 <= (k - c) * n && c * n + (k - c) * n == k * n
  {
    assert (k - c) * n == k * n - c * n;
  }

  lemma OneLess(k: nat, step: nat)
    requires 0 < k
    ensures 0 <= (k - 1) * step == k * step - step
  {
  }

  lemma Regroup(count: nat, n: nat)
    ensures (count / 256) * (256 * n) + (count % 256) * n == count * n
  {
    var q, r := count / 256, count % 256;
    assert count == q * 256 + r;
    assert q * (256 * n) == (q * 256) * n;
  }

  lemma OneFewer(n: nat, w: nat)
    requires 0 < w <= n
    ensures (n - w) / w == n / w - 1
  {
    var p, q := (n - w) / w, n / w;
    var d := p - (q - 1);
    assert n - w == p * w + (n - w) % w && n == q * w + n % w;
    assert d * w == n % w - (n - w) % w by { assert d * w == p * w - q * w + w; }
    MultiplesApart(d, w);
  }
}
