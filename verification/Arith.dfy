/** Quotients and remainders under shifts. */
module Arith {

  lemma NoRoom(m: int, k: int)
    requires -m < m * k < m
    ensures k == 0
  {
    assert k >= 1 ==> m * (k - 1) >= 0;
    assert k <= -1 ==> m * (-k - 1) >= 0;
  }

  lemma ModUnique(d: int, m: nat, s: int)
    requires 0 <= s < m
    ensures (d * m + s) % m == s
  {
    var x := d * m + s;
    assert m * (d - x / m) == x % m - s;
    NoRoom(m, d - x / m);
  }

  lemma Regroup(base: int, k: int, d: int, e: int, r: int)
    ensures base * (k * d + e) + r == d * (base * k) + (base * e + r)
  {
    assert base * (k * d + e) == base * (k * d) + base * e;
    assert base * (k * d) == d * (base * k);
  }

  lemma DigitBelow(base: nat, k: nat, e: nat, r: nat)
    requires r < base && e < k
    ensures base * e + r < base * k
  {
    assert base * e <= base * (k - 1);
  }

  lemma ShiftSplit(base: nat, k: nat, d: nat, e: nat, r: nat)
    requires r < base && e < k
    ensures (base * (k * d + e) + r) % (base * k) == base * e + r
  {
    Regroup(base, k, d, e, r);
    DigitBelow(base, k, e, r);
    ModUnique(d, base * k, base * e + r);
  }

  /** Shifting a digit in, for an integer of `base * k` values. */
  lemma ShiftIn(base: nat, q: nat, r: nat, k: nat)
    requires r < base && k > 0
    ensures (base * q + r) % (base * k) == base * (q % k) + r
  {
    var d, e := q / k, q % k;
    assert q == k * d + e;
    ShiftSplit(base, k, d, e, r);
  }

  lemma ModMod(base: nat, q: nat, k: nat)
    requires k > 0 && base > 0
    ensures q % (base * k) % k == q % k
  {
    var m := base * k;
    var d, e := q / m, q % m / k;
    assert q == (base * d) * k + q % m by {
      assert (base * d) * k == m * d;
    }
    assert q % m == k * e + q % m % k;
    assert q == (base * d + e) * k + q % m % k;
    ModUnique(base * d + e, k, q % m % k);
  }

  lemma ModSame(x: nat, m: nat)
    requires m > 0
    ensures x % m <= x && (x % m == x <==> x < m)
  {
    assert x == m * (x / m) + x % m;
    assert m * (x / m) >= 0;
  }
}
