/** The oblivious transfer: one sealed choice opens exactly one of the sender's key points. */
module ObliviousTransfer {
  import opened Bytes
  import opened NumberTheory
  import opened Curve

  // ----- the exponents the methods compute -----

  function SealedY(q: nat, beta: nat, a: nat, b: nat, l: nat): nat
    requires q > 1
  {
    ((a * beta) % q + (b * l) % q) % q
  }

  function KeyPoint(q: nat, t: nat, y: nat, a: nat, i: nat): nat
    requires q > 1
  {
    ((y * t) % q + (-((a * (i * t)) % q)) % q) % q
  }

  function Revealed(q: nat, l: nat, t: nat, skB: nat): nat
    requires q > 1
  {
    ((((l % q) * t) % q) * skB) % q
  }

  // ----- the methods -----

  /** `l` is the random number drawn by RandomFieldElement. */
  method SealChoice(beta: nat, pkA: Point, pkB: Point, l: nat) returns (Y: Point, L: Point)
    requires pkA.group == pkB.group == G1 && pkA.q == pkB.q > 1
    ensures fresh(Y) && fresh(L) && Y.group == L.group == G1 && Y.q == L.q == pkA.q && Y.Valid() && L.Valid()
    ensures L.e == l % pkA.q && Y.e == SealedY(pkA.q, beta, pkA.e, pkB.e, l)
  {
    L := new Point(G1, pkA.q);
    L.ScalarBaseMult(l);
    Y := new Point(G1, pkA.q);
    Y.ScalarMult(pkA, beta);
    var temp := new Point(G1, pkA.q);
    temp.ScalarMult(pkB, l);
    Y.Add(Y, temp);
  }

  method CalculateKeyPoint(t: nat, yp: Point, pkA: Point, ordinal: nat) returns (kpi: Point)
    requires yp.group == pkA.group == G1 && yp.q == pkA.q > 1
    ensures fresh(kpi) && kpi.group == G1 && kpi.q == pkA.q && kpi.Valid()
    ensures kpi.e == KeyPoint(pkA.q, t, yp.e, pkA.e, ordinal)
  {
    kpi := new Point(G1, pkA.q);
    kpi.ScalarMult(yp, t);
    var temp := new Point(G1, pkA.q);
    temp.ScalarMult(pkA, ordinal * t);
    temp.Neg(temp);
    kpi.Add(kpi, temp);
  }

  /** `t` is the random number drawn by RandomFieldElement. */
  method CalculateKeyPoints(Y: Point, L: Point, pkA: Point, count: nat, t: nat)
    returns (kps: seq<Point>, LPrime: Point)
    requires Y.group == L.group == pkA.group == G1 && Y.q == L.q == pkA.q > 1
    ensures |kps| == count
    ensures forall i :: 0 <= i < count ==>
              fresh(kps[i]) && kps[i].group == G1 && kps[i].q == pkA.q && kps[i].Valid()
              && kps[i].e == KeyPoint(pkA.q, t, Y.e, pkA.e, i + 1)
    ensures fresh(LPrime) && LPrime.group == G1 && LPrime.q == pkA.q && LPrime.Valid()
    ensures LPrime.e == (L.e * t) % pkA.q
  {
    kps := [];
    for i := 1 to count + 1
      invariant |kps| == i - 1
      invariant forall j :: 0 <= j < i - 1 ==>
                  fresh(kps[j]) && kps[j].group == G1 && kps[j].q == pkA.q && kps[j].Valid()
                  && kps[j].e == KeyPoint(pkA.q, t, Y.e, pkA.e, j + 1)
    {
      var kpi := CalculateKeyPoint(t, Y, pkA, i);
      kps := kps + [kpi];
    }
    LPrime := new Point(G1, pkA.q);
    LPrime.ScalarMult(L, t);
  }

  method RevealKeyPoint(LPrime: Point, skB: nat) returns (kp: Point)
    requires LPrime.group == G1 && LPrime.q > 1
    ensures fresh(kp) && kp.group == G1 && kp.q == LPrime.q && kp.Valid() && kp.e == (LPrime.e * skB) % LPrime.q
  {
    kp := new Point(G1, LPrime.q);
    kp.ScalarMult(LPrime, skB);
  }

  // ----- what the choice opens -----

  /** The sealed choice is beta * a, hidden by b * l; key point i then hides the receiver's point, shifted by
      t * a * (beta - i). */
  lemma KeyPointForm(q: nat, beta: nat, a: nat, b: nat, l: nat, t: nat, i: nat)
    requires q > 1
    ensures SealedY(q, beta, a, b, l) == (a * beta + b * l) % q
    ensures KeyPoint(q, t, SealedY(q, beta, a, b, l), a, i) == (t * (l * b) + (t * a) * (beta - i)) % q
  {
    var y := a * beta + b * l;
    ModSum(a * beta, b * l, q);
    assert SealedY(q, beta, a, b, l) == y % q;
    ModMul(y, t, q);
    ModMinus(a * (i * t), q);
    ModSum(y * t, -(a * (i * t)), q);
    Expand(beta, a, b, l, t, i);
  }

  lemma Expand(beta: int, a: int, b: int, l: int, t: int, i: int)
    ensures (a * beta + b * l) * t - a * (i * t) == t * (l * b) + (t * a) * (beta - i)
  {
    assert (a * beta + b * l) * t == (a * beta) * t + (b * l) * t;
    assert (a * beta) * t == (t * a) * beta && (b * l) * t == t * (l * b) && a * (i * t) == (t * a) * i;
    assert (t * a) * (beta - i) == (t * a) * beta - (t * a) * i;
  }

  lemma RevealedForm(q: nat, l: nat, t: nat, skB: nat)
    requires q > 1
    ensures Revealed(q, l, t, skB) == (t * (l * skB)) % q
  {
    ModMul(l, t, q);
    ModMul(l * t, skB, q);
    assert (l * t) * skB == t * (l * skB);
  }

  /** Two key points agree exactly when their indices do, modulo q. */
  lemma ShiftZero(q: nat, r: int, m: nat, d: int, d': int)
    requires Prime(q) && m % q != 0
    ensures (r + m * d) % q == (r + m * d') % q <==> (d - d') % q == 0
  {
    ModEqual(r + m * d, r + m * d', q);
    assert (r + m * d) - (r + m * d') == m * (d - d');
    if (m * (d - d')) % q == 0 {
      NoZeroDivisors(m, d - d', q);
    }
    if (d - d') % q == 0 {
      ModMulRight(m, d - d', q);
      assert m * 0 == 0;
      ModSmall(0, q);
    }
  }

  /** The point the receiver reveals is the sender's key point i exactly when i is the choice, modulo q. */
  lemma OpensExactly(q: nat, beta: nat, skA: nat, skB: nat, l: nat, t: nat, i: nat)
    requires Prime(q) && skA % q != 0 && t % q != 0
    ensures Revealed(q, l, t, skB) == KeyPoint(q, t, SealedY(q, beta, skA % q, skB % q, l), skA % q, i)
       <==> (beta - i) % q == 0
  {
    var a, b := skA % q, skB % q;
    KeyPointForm(q, beta, a, b, l, t, i);
    RevealedForm(q, l, t, skB);
    SameReveal(q, t, l, skB);
    ModMod(skA, q);
    ProductNonZero(t, a, q);
    assert t * (l * b) + (t * a) * 0 == t * (l * b);
    ShiftZero(q, t * (l * b), t * a, beta - i, 0);
  }

  lemma SameReveal(q: nat, t: nat, l: nat, skB: nat)
    requires q > 1
    ensures (t * (l * (skB % q))) % q == (t * (l * skB)) % q
  {
    assert t * (l * (skB % q)) == (t * l) * (skB % q) && t * (l * skB) == (t * l) * skB;
    ModMulRight(t * l, skB, q);
  }

  /** The sender's key points are pairwise distinct, so a choice opens one of them and no other. */
  lemma KeyPointsDistinct(q: nat, beta: nat, skA: nat, skB: nat, l: nat, t: nat, i: nat, j: nat)
    requires Prime(q) && skA % q != 0 && t % q != 0 && 1 <= i < q && 1 <= j < q
    ensures var y := SealedY(q, beta, skA % q, skB % q, l);
            KeyPoint(q, t, y, skA % q, i) == KeyPoint(q, t, y, skA % q, j) <==> i == j
  {
    var a, b := skA % q, skB % q;
    KeyPointForm(q, beta, a, b, l, t, i);
    KeyPointForm(q, beta, a, b, l, t, j);
    ModMod(skA, q);
    ProductNonZero(t, a, q);
    ShiftZero(q, t * (l * b), t * a, beta - i, beta - j);
    ModEqual(j, i, q);
    ModSmall(i, q);
    ModSmall(j, q);
  }

  /** So for a choice in 1..count < q, exactly one of the key points is the one revealed. */
  lemma OpensOne(q: nat, beta: nat, skA: nat, skB: nat, l: nat, t: nat, i: nat)
    requires Prime(q) && skA % q != 0 && t % q != 0 && 1 <= beta < q && 1 <= i < q
    ensures Revealed(q, l, t, skB) == KeyPoint(q, t, SealedY(q, beta, skA % q, skB % q, l), skA % q, i) <==> i == beta
  {
    OpensExactly(q, beta, skA, skB, l, t, i);
    ModEqual(beta, i, q);
    ModSmall(i, q);
    ModSmall(beta, q);
  }
}
