/** The chameleon hash: whoever knows the trapdoor x can move a hash to another message. */
module Chameleon {
  import opened Bytes
  import opened NumberTheory
  import opened Curve

  /** The exponent of the hashed point, m * base + Pair(Y, R). */
  function HashPoint(q: nat, y: nat, r: nat, m: nat): nat
    requires q > 1
  {
    (m % q + PairExponent(q, y, r)) % q
  }

  function HashOf(sha: Sha, marshal: Marshaller, q: nat, y: nat, r: nat, m: nat): Digest
    requires q > 1
  {
    sha(marshal(GT, HashPoint(q, y, r, m)))
  }

  method ComputeHash(Y: Point, R: Point, m: nat, sha: Sha, marshal: Marshaller) returns (ch: Digest)
    requires Y.group == G1 && R.group == G2 && Y.q == R.q > 1
    ensures ch == HashOf(sha, marshal, Y.q, Y.e, R.e, m)
  {
    var Qm := new Point(GT, Y.q);
    Qm.ScalarBaseMult(m);
    var pairedYR := Pair(Y, R);
    var h := new Point(GT, Y.q);
    h.Add(Qm, pairedYR);
    ch := sha(marshal(GT, h.e));
  }

  method Verify(target: Digest, Y: Point, R: Point, m: nat, sha: Sha, marshal: Marshaller) returns (ok: bool)
    requires Y.group == G1 && R.group == G2 && Y.q == R.q > 1
    ensures ok <==> target == HashOf(sha, marshal, Y.q, Y.e, R.e, m)
  {
    var computed := ComputeHash(Y, R, m, sha, marshal);
    ok := computed == target;
  }

  /** The new randomness, not reduced modulo q. */
  function CollisionR(q: nat, x: nat, r: nat, m: nat, mp: nat): (rp: nat)
    requires q > 1 && ModInverse(x, q).Some?
  {
    ProductNat((x * r + m - mp) % q, ModInverse(x, q).value);
    ((x * r + m - mp) % q) * ModInverse(x, q).value
  }

  /** Without an inverse of x the call would multiply by a nil number. */
  method ComputeCollision(Y: Point, x: nat, r: nat, m: nat, mp: nat, q: nat, sha: Sha, marshal: Marshaller)
    returns (ch: Digest, rp: nat, Rp: Point)
    requires Y.group == G1 && Y.q == q > 1 && ModInverse(x, q).Some?
    ensures rp == CollisionR(q, x, r, m, mp)
    ensures fresh(Rp) && Rp.group == G2 && Rp.q == q && Rp.e == rp % q
    ensures ch == HashOf(sha, marshal, q, Y.e, rp % q, mp)
  {
    var temp: int := x * r;
    temp := temp + m;
    temp := temp - mp;
    temp := temp % q;
    var ix := ModInverse(x, q).value;
    ProductNat(temp, ix);
    rp := temp * ix;
    Rp := new Point(G2, q);
    Rp.ScalarBaseMult(rp);
    ch := ComputeHash(Y, Rp, mp, sha, marshal);
  }

  // ----- the collision -----

  lemma HashPointForm(q: nat, y: nat, r: nat, m: nat)
    requires q > 1
    ensures HashPoint(q, y % q, r % q, m) == (m + y * r) % q
  {
    ModMul(y, r % q, q);
    ModMulRight(y, r, q);
    ModSum(m, y * r, q);
  }

  /** x * rp is m + x * r - mp, modulo q. */
  lemma CollisionSolves(q: nat, x: nat, r: nat, m: nat, mp: nat)
    requires q > 1 && ModInverse(x, q).Some?
    ensures (x * CollisionR(q, x, r, m, mp)) % q == (x * r + m - mp) % q
  {
    InverseCorrect(x, q);
    var d, ix := x * r + m - mp, ModInverse(x, q).value;
    Reorder(x, d % q, ix);
    Cancel(q, x, ix, d % q);
    ModMod(d, q);
  }

  lemma Reorder(a: int, b: int, c: int)
    ensures a * (b * c) == a * c * b
  {
  }

  /** With the right trapdoor the collision hashes to the same point, whatever the two messages. */
  lemma CollisionKeepsPoint(q: nat, x: nat, r: nat, m: nat, mp: nat)
    requires q > 1 && ModInverse(x, q).Some?
    ensures HashPoint(q, x % q, CollisionR(q, x, r, m, mp) % q, mp) == HashPoint(q, x % q, r % q, m)
  {
    hide CollisionR, HashPoint;
    var rp := CollisionR(q, x, r, m, mp);
    HashPointForm(q, x, rp, mp);
    HashPointForm(q, x, r, m);
    CollisionSolves(q, x, r, m, mp);
    ModAdd(x * rp, mp, q);
    ModAdd(x * r + m - mp, mp, q);
  }

  /** With trapdoor x used on another public key y * G1, it does so exactly when y is x or the messages
      agree, modulo q. */
  lemma CollisionNeedsTrapdoor(q: nat, x: nat, y: nat, r: nat, m: nat, mp: nat)
    requires Prime(q) && x % q != 0
    ensures ModInverse(x, q).Some?
    ensures HashPoint(q, y % q, CollisionR(q, x, r, m, mp) % q, mp) == HashPoint(q, y % q, r % q, m)
       <==> (y % q == x % q || m % q == mp % q)
  {
    hide CollisionR, HashPoint;
    InverseExists(x, q);
    var rp := CollisionR(q, x, r, m, mp);
    HashPointForm(q, y, rp, mp);
    HashPointForm(q, y, r, m);
    CollisionSolves(q, x, r, m, mp);
    ModEqual(x * rp, x * r + m - mp, q);
    var d := rp - r;
    assert x * rp - (x * r + m - mp) == x * d - (m - mp) by { assert x * d == x * rp - x * r; }
    ModEqual(mp + y * rp, m + y * r, q);
    assert mp + y * rp - (m + y * r) == y * d - (m - mp) by { assert y * d == y * rp - y * r; }
    ModEqual(x * d, m - mp, q);
    ModEqual(y * d, m - mp, q);
    SameProduct(q, x, y, d);
    ModEqual(m, mp, q);
    ModEqual(m - mp, 0, q);
    ModSmall(0, q);
    DividesRight(q, x, d);
  }

  lemma SameProduct(q: nat, x: nat, y: nat, d: int)
    requires Prime(q)
    ensures (y * d) % q == (x * d) % q <==> (y % q == x % q || d % q == 0)
  {
    ModEqual(y * d, x * d, q);
    ModEqual(y, x, q);
    assert y * d - x * d == (y - x) * d;
    ModSmall(0, q);
    if ((y - x) * d) % q == 0 && (y - x) % q != 0 {
      ModMul(y - x, d, q);
      ModMod(y - x, q);
      NoZeroDivisors((y - x) % q, d, q);
    }
    if (y - x) % q == 0 {
      ModMul(y - x, d, q);
      assert 0 * d == 0;
    }
    if d % q == 0 {
      ModMulRight(y - x, d, q);
      assert (y - x) * 0 == 0;
    }
  }

  lemma DividesRight(q: nat, x: nat, d: int)
    requires Prime(q) && x % q != 0
    ensures (x * d) % q == 0 <==> d % q == 0
  {
    if (x * d) % q == 0 {
      NoZeroDivisors(x, d, q);
    }
    if d % q == 0 {
      ModMulRight(x, d, q);
      assert x * 0 == 0;
      ModSmall(0, q);
    }
  }

  /** The randomness is the product of a residue and an inverse of x, itself not reduced. */
  lemma CollisionValue(q: nat, x: nat, r: nat, m: nat, mp: nat, t: nat, ix: nat)
    requires q > 1 && ModInverse(x, q).Some?
    ensures t < q && (x * r + m - mp - t) % q == 0 && ix < q && (x * ix) % q == 1 ==> CollisionR(q, x, r, m, mp) == t * ix
  {
    var d, i := x * r + m - mp, ModInverse(x, q).value;
    InverseCorrect(x, q);
    if t < q && (d - t) % q == 0 && ix < q && (x * ix) % q == 1 {
      ModEqual(d, t, q);
      ModSmall(t, q);
      Cancel(q, x, ix, i);
      Cancel(q, x, i, ix);
      assert x * ix * i == x * i * ix by { Reorder(x, ix, i); Reorder(x, i, ix); }
      ModSmall(i, q);
      ModSmall(ix, q);
    }
  }

  /** For example, modulo 5 it can be 16. */
  lemma CollisionUnreduced()
    ensures ModInverse(4, 5).Some? && CollisionR(5, 4, 1, 0, 0) == 16
  {
    hide CollisionR, ModInverse;
    assert Prime(5) by { assert 5 % 2 == 1 && 5 % 3 == 2 && 5 % 4 == 1; }
    InverseExists(4, 5);
    CollisionValue(5, 4, 1, 0, 0, 4, 4);
  }

  lemma CollisionBound(q: nat, x: nat, r: nat, m: nat, mp: nat)
    requires q > 1 && ModInverse(x, q).Some?
    ensures 0 <= CollisionR(q, x, r, m, mp) <= (q - 1) * (q - 1)
  {
    InverseCorrect(x, q);
    ProductBound((x * r + m - mp) % q, ModInverse(x, q).value, q - 1);
  }

  lemma ProductBound(a: nat, b: nat, n: nat)
    requires a <= n && b <= n
    ensures 0 <= a * b <= n * n
  {
    assert a * b <= n * b <= n * n;
  }

  // ----- chains of collisions -----

  /** The randomness after moving from m through each of `mps`, feeding each unreduced result into the next step. */
  function ChainR(q: nat, x: nat, r: nat, m: nat, mps: seq<nat>): nat
    requires q > 1 && ModInverse(x, q).Some?
    decreases |mps|
  {
    if mps == [] then r else ChainR(q, x, CollisionR(q, x, r, m, mps[0]), mps[0], mps[1..])
  }

  /** Any chain of collisions keeps the hash, and keeps the randomness bounded. */
  lemma {:induction false} ChainKeepsHash(sha: Sha, marshal: Marshaller, q: nat, x: nat, r: nat, m: nat, mps: seq<nat>)
    requires q > 1 && ModInverse(x, q).Some? && r <= (q - 1) * (q - 1)
    ensures var rn, mn := ChainR(q, x, r, m, mps), if mps == [] then m else mps[|mps| - 1];
            && 0 <= rn <= (q - 1) * (q - 1)
            && HashOf(sha, marshal, q, x % q, rn % q, mn) == HashOf(sha, marshal, q, x % q, r % q, m)
    decreases |mps|
  {
    if mps != [] {
      hide CollisionR, HashPoint;
      CollisionKeepsPoint(q, x, r, m, mps[0]);
      CollisionBound(q, x, r, m, mps[0]);
      ChainKeepsHash(sha, marshal, q, x, CollisionR(q, x, r, m, mps[0]), mps[0], mps[1..]);
    }
  }
}
