/** Exact integer arithmetic used by the rank engine and the byte codec:
    factorials, powers, and the facts about Euclidean division that the
    proofs need. These stand in for the GMP calls of the original program. */
module Arith {

  /** n! */
  function Factorial(n: nat): (f: nat)
    ensures 1 <= f
  {
    if n == 0 then 1 else n * Factorial(n - 1)
  }

  /** 2^k */
  function Pow2(k: nat): (p: nat)
    ensures 1 <= p
  {
    if k == 0 then 1 else 2 * Pow2(k - 1)
  }

  /** 256^k */
  function Pow256(k: nat): (p: nat)
    ensures 1 <= p
  {
    if k == 0 then 1 else 256 * Pow256(k - 1)
  }

  /** Euclidean quotient and remainder of naturals are naturals, the remainder below the divisor. */
  lemma DivModNat(x: nat, d: nat)
    requires 0 < d
    ensures 0 <= x / d && 0 <= x % d < d
  {
  }

  /** Quotient and remainder are determined by `x == q * d + r` with `r < d`. */
  lemma DivModUnique(x: nat, d: nat, q: nat, r: nat)
    requires 0 < d && r < d && x == q * d + r
    ensures x / d == q && x % d == r
  {
    var q', r' := x / d, x % d;
    assert x == q' * d + r';
    if q' < q {
      assert q' * d + d <= q * d by { MulMonotone(q' + 1, q, d); }
    } else if q < q' {
      assert q * d + d <= q' * d by { MulMonotone(q + 1, q', d); }
    }
  }

  lemma MulMonotone(a: nat, b: nat, c: nat)
    requires a <= b
    ensures a * c <= b * c
  {
    assert b * c == a * c + (b - a) * c;
  }

  /** A mixed-radix digit pair `q * n + s` with `q < m` and `s < n` stays below `m * n`. */
  lemma MixedRadixBound(q: nat, m: nat, s: nat, n: nat)
    requires q < m && s < n
    ensures q * n + s < n * m
  {
    MulMonotone(q + 1, m, n);
  }

  /** A factorial-base digit step: `q * n + s` with `q < (n-1)!` and `s < n` stays below `n!`. */
  lemma FactorialDigitBound(q: nat, s: nat, n: nat)
    requires 1 <= n && q < Factorial(n - 1) && s < n
    ensures 0 <= q * n + s < Factorial(n)
  {
    MixedRadixBound(q, Factorial(n - 1), s, n);
  }

  /** The lowest factorial-base digit of `r < n!` is `r mod n`; the rest, `r div n`, lies below `(n-1)!`. */
  lemma FactorialDigits(r: nat, n: nat)
    requires 1 <= n && r < Factorial(n)
    ensures r / n < Factorial(n - 1)
    ensures r == r / n * n + r % n
  {
    if Factorial(n - 1) <= r / n {
      MulMonotone(Factorial(n - 1), r / n, n);
    }
  }

  /** The largest factorial-base number: top digits everywhere give n! - 1. */
  lemma FactorialTop(n: nat)
    requires 2 <= n
    ensures (Factorial(n - 1) - 1) * n + (n - 1) == Factorial(n) - 1
  {
    var f := Factorial(n - 1);
    assert Factorial(n) == n * f;
    assert (f - 1) * n == f * n - n;
  }

  /** Reducing modulo `k * f` keeps the lowest digit (base k) and reduces the rest modulo f. */
  lemma ModProductDigits(r: nat, k: nat, f: nat)
    requires 0 < k && 0 < f
    ensures (r % (k * f)) % k == r % k
    ensures (r % (k * f)) / k == (r / k) % f
  {
    var kf := k * f;
    var m, hi := r % kf, r / kf;
    var md, mm := m / k, m % k;
    assert md < f by {
      assert m == md * k + mm;
      if f <= md {
        MulMonotone(f, md, k);
      }
    }
    var q := hi * f + md;
    assert r == q * k + mm by {
      assert r == hi * kf + m;
      assert m == md * k + mm;
      assert hi * kf == hi * f * k;
      assert q * k == hi * f * k + md * k;
    }
    DivModUnique(r, k, q, mm);
    DivModUnique(q, f, hi, md);
  }

  /** Dividing by 256 lowers a bound of `256^(k+1)` to `256^k`. */
  lemma DivBelowPow256(x: nat, k: nat)
    requires x < Pow256(k + 1)
    ensures x / 256 < Pow256(k)
  {
  }

  lemma Pow2Monotone(a: nat, b: nat)
    requires a <= b
    ensures Pow2(a) <= Pow2(b)
    decreases b
  {
    if a < b {
      Pow2Monotone(a, b - 1);
    }
  }

  lemma Pow256Monotone(a: nat, b: nat)
    requires a <= b
    ensures Pow256(a) <= Pow256(b)
    decreases b
  {
    if a < b {
      Pow256Monotone(a, b - 1);
    }
  }

  /** 2^(8k) == 256^k */
  lemma {:induction false} Pow2OfBytes(k: nat)
    ensures Pow2(8 * k) == Pow256(k)
  {
    if k > 0 {
      Pow2OfBytes(k - 1);
      var p := Pow2(8 * (k - 1));
      assert Pow2(8 * k) == 256 * p by {
        calc {
          Pow2(8 * k);
          2 * Pow2(8 * k - 1);
          4 * Pow2(8 * k - 2);
          8 * Pow2(8 * k - 3);
          16 * Pow2(8 * k - 4);
          32 * Pow2(8 * k - 5);
          64 * Pow2(8 * k - 6);
          128 * Pow2(8 * k - 7);
          256 * Pow2(8 * k - 8);
        }
      }
    }
  }
}
