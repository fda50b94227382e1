/** Congruences, extended Euclid and inverses modulo a prime. */
module NumberTheory {
  import opened Bytes

  function Pow2(n: nat): nat {
    if n == 0 then 1 else 2 * Pow2(n - 1)
  }

  lemma ProductNat(a: nat, b: nat)
    ensures a * b >= 0
  {
  }

  // ----- remainders -----

  lemma SmallMultipleIsZero(q: int, t: int)
    requires q > 0 && -q < q * t < q
    ensures t == 0
  {
  }

  lemma ModUnique(x: int, q: int, k: int, r: int)
    requires q > 0 && x == q * k + r && 0 <= r < q
    ensures x % q == r
  {
    assert x == q * (x / q) + x % q;
    assert q * (x / q - k) == r - x % q;
    SmallMultipleIsZero(q, x / q - k);
  }

  lemma ModPlusMultiple(x: int, k: int, q: int)
    requires q > 0
    ensures (x + k * q) % q == x % q
  {
    assert x + k * q == q * (x / q + k) + x % q;
    ModUnique(x + k * q, q, x / q + k, x % q);
  }

  lemma ModAtMost(x: nat, q: int)
    requires q > 0
    ensures 0 <= x % q <= x && x % q < q
  {
    assert x == q * (x / q) + x % q;
  }

  lemma ModAdd(a: int, b: int, q: int)
    requires q > 0
    ensures (a % q + b) % q == (a + b) % q
  {
    assert a + b == (a % q + b) + (a / q) * q;
    ModPlusMultiple(a % q + b, a / q, q);
  }

  lemma ModMul(a: int, b: int, q: int)
    requires q > 0
    ensures ((a % q) * b) % q == (a * b) % q
  {
    assert a == a % q + (a / q) * q;
    assert a * b == (a % q) * b + ((a / q) * b) * q;
    ModPlusMultiple((a % q) * b, (a / q) * b, q);
  }

  lemma ModMulRight(a: int, b: int, q: int)
    requires q > 0
    ensures (a * (b % q)) % q == (a * b) % q
  {
    ModMul(b, a, q);
    assert (b % q) * a == a * (b % q) && b * a == a * b;
  }

  lemma ModSum(a: int, b: int, q: int)
    requires q > 0
    ensures (a % q + b % q) % q == (a + b) % q
  {
    ModAdd(a, b % q, q);
    ModAdd(b, a, q);
  }

  lemma ModMinus(a: int, q: int)
    requires q > 0
    ensures (-(a % q)) % q == (-a) % q
  {
    assert -(a % q) == -a + (a / q) * q;
    ModPlusMultiple(-a, a / q, q);
  }

  lemma ModSmall(a: int, q: int)
    requires 0 <= a < q
    ensures a % q == a
  {
    ModUnique(a, q, 0, a);
  }

  lemma ModMod(a: int, q: int)
    requires q > 0
    ensures a % q % q == a % q
  {
    ModSmall(a % q, q);
  }

  /** Equal remainders are a difference divisible by q. */
  lemma ModEqual(a: int, b: int, q: int)
    requires q > 0
    ensures a % q == b % q <==> (a - b) % q == 0
  {
    if a % q == b % q {
      assert a - b == q * (a / q - b / q) + 0;
      ModUnique(a - b, q, a / q - b / q, 0);
    }
    if (a - b) % q == 0 {
      var k := (a - b) / q;
      assert a == b + k * q;
      ModPlusMultiple(b, k, q);
    }
  }

  lemma Cancel(q: nat, u: int, i: int, x: int)
    requires q > 1 && (u * i) % q == 1
    ensures (u * i * x) % q == x % q
  {
    ModMul(u * i, x, q);
    assert 1 * x == x;
  }

  // ----- extended Euclid -----

  datatype Bezout = Bezout(gcd: nat, x: int, y: int)

  function ExtendedGcd(a: nat, b: nat): Bezout
    decreases b
  {
    if b == 0 then Bezout(a, 1, 0)
    else
      var r := ExtendedGcd(b, a % b);
      Bezout(r.gcd, r.y, r.x - (a / b) * r.y)
  }

  lemma DividesSum(d: int, a: int, b: int, x: int, y: int)
    requires d > 0 && a % d == 0 && b % d == 0
    ensures (a * x + b * y) % d == 0
  {
    var i, j := a / d, b / d;
    assert a == d * i && b == d * j;
    assert a * x + b * y == d * (i * x + j * y) + 0 by {
      assert (d * i) * x == d * (i * x) && (d * j) * y == d * (j * y);
      assert d * (i * x) + d * (j * y) == d * (i * x + j * y);
    }
    ModUnique(a * x + b * y, d, i * x + j * y, 0);
  }

  /** The gcd is a combination of a and b that divides both. */
  lemma {:induction false} ExtendedGcdCorrect(a: nat, b: nat)
    requires a + b > 0
    ensures var r := ExtendedGcd(a, b);
            r.gcd > 0 && a * r.x + b * r.y == r.gcd && a % r.gcd == 0 && b % r.gcd == 0
    decreases b
  {
    if b == 0 {
      ModUnique(a, a, 1, 0);
    } else {
      var r, k := ExtendedGcd(b, a % b), a / b;
      ExtendedGcdCorrect(b, a % b);
      assert a == b * k + a % b;
      BezoutStep(a, b, k, r.x, r.y);
      DividesSum(r.gcd, b, a % b, k, 1);
    }
  }

  lemma BezoutStep(a: int, b: int, k: int, x: int, y: int)
    ensures a * y + b * (x - k * y) == b * x + (a - b * k) * y
  {
    assert b * (k * y) == (b * k) * y;
  }

  // ----- primes and inverses -----

  ghost predicate Prime(q: nat) {
    q > 1 && forall d {:trigger q % d} :: 1 < d < q ==> q % d != 0
  }

  /** big.Int.ModInverse: None when a has no inverse modulo n. */
  function ModInverse(a: nat, n: nat): Option<nat>
    requires n > 1
  {
    var r := ExtendedGcd(a % n, n);
    if r.gcd == 1 then Some(r.x % n) else None
  }

  lemma InverseCorrect(a: nat, n: nat)
    requires n > 1 && ModInverse(a, n).Some?
    ensures var i := ModInverse(a, n).value; 0 < i < n && (a * i) % n == 1
  {
    var r := ExtendedGcd(a % n, n);
    ExtendedGcdCorrect(a % n, n);
    var i := r.x % n;
    assert (a % n) * r.x == 1 + (-r.y) * n;
    ModPlusMultiple(1, -r.y, n);
    ModSmall(1, n);
    ModMul(a, r.x, n);
    ModMulRight(a, r.x, n);
    if i == 0 {
      assert a * i == 0;
      ModSmall(0, n);
    }
  }

  /** Modulo a prime, exactly the multiples of the prime have no inverse. */
  lemma InverseExists(a: nat, q: nat)
    requires Prime(q)
    ensures ModInverse(a, q).Some? <==> a % q != 0
  {
    var r := ExtendedGcd(a % q, q);
    ExtendedGcdCorrect(a % q, q);
    if a % q != 0 {
      ModAtMost(a, q);
      assert r.gcd <= a % q by {
        if r.gcd > a % q {
          ModSmall(a % q, r.gcd);
        }
      }
      assert q % r.gcd == 0;
    } else {
      assert ExtendedGcd(q, 0 % q).gcd == q by { ModSmall(0, q); }
    }
  }

  /** Z_q has no zero divisors. */
  lemma NoZeroDivisors(a: nat, b: int, q: nat)
    requires Prime(q) && a % q != 0 && (a * b) % q == 0
    ensures b % q == 0
  {
    InverseExists(a, q);
    InverseCorrect(a, q);
    var i := ModInverse(a, q).value;
    assert (a * b) * i == (a * i) * b;
    ModMul(a * b, i, q);
    ModMul(a * i, b, q);
    assert 1 * b == b && 0 * i == 0;
    ModSmall(0, q);
  }

  lemma ProductNonZero(a: nat, b: nat, q: nat)
    requires Prime(q) && a % q != 0 && b % q != 0
    ensures (a * b) % q != 0
  {
    if (a * b) % q == 0 {
      NoZeroDivisors(a, b, q);
    }
  }
}
