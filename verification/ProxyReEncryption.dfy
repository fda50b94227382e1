/** Proxy re-encryption: the session key is a point of GT that the receiver and the owner both recover. */
module ProxyReEncryption {
  import opened Bytes
  import opened NumberTheory
  import opened Curve
  import opened Ciphering

  // ----- exponents -----

  function Times(q: nat, x: nat, k: nat): (r: nat)
    requires q > 1
    ensures r < q
  {
    (x * k) % q
  }

  /** (b/a) * G */
  function ReKey(q: nat, a: nat, b: nat): nat
    requires q > 1 && ModInverse(a, q).Some?
  {
    Times(q, b % q, ModInverse(a, q).value)
  }

  // ----- the methods -----

  /** `r` is the random number drawn by RandomFieldElement. */
  method Encrypt(publicKey: Point, r: nat, marshal: Marshaller, encryptFunc: EncryptClosure) returns (A: Point)
    requires publicKey.q > 1
    modifies encryptFunc
    ensures fresh(A) && A.group == publicKey.group && A.q == publicKey.q && A.Valid()
    ensures A.e == Times(publicKey.q, old(publicKey.e), r)
    ensures encryptFunc.output
         == old(encryptFunc.output)
            + Seal(encryptFunc.c, marshal(GT, r % publicKey.q), encryptFunc.iv, old(encryptFunc.input))
  {
    A := new Point(publicKey.group, publicKey.q);
    A.ScalarMult(publicKey, r);
    var B := new Point(GT, publicKey.q);
    B.ScalarBaseMult(r);
    encryptFunc.Run(marshal(GT, B.e));
  }

  /** Without an inverse of a the call would multiply by a nil scalar. */
  method GenerateReKey(a: nat, b: nat, q: nat) returns (rkAB: Point)
    requires q > 1 && ModInverse(a, q).Some?
    ensures fresh(rkAB) && rkAB.group == G2 && rkAB.q == q && rkAB.Valid() && rkAB.e == ReKey(q, a, b)
  {
    var ia := ModInverse(a, q).value;
    rkAB := new Point(G2, q);
    rkAB.ScalarBaseMult(b);
    rkAB.ScalarMult(rkAB, ia);
  }

  method ReEncrypt(A: Point, rkAB: Point) returns (APrime: Point)
    requires A.group == G1 && rkAB.group == G2 && A.q == rkAB.q > 1
    ensures fresh(APrime) && APrime.group == GT && APrime.q == A.q && APrime.Valid()
    ensures APrime.e == PairExponent(A.q, A.e, rkAB.e)
  {
    APrime := Pair(A, rkAB);
  }

  method DecryptByReceiver(APrime: Point, b: nat, marshal: Marshaller, decryptFunc: DecryptClosure)
    returns (error: Option<CipherError>)
    requires APrime.group == GT && APrime.q > 1 && ModInverse(b, APrime.q).Some?
    modifies decryptFunc
    ensures var key := marshal(GT, Times(APrime.q, old(APrime.e), ModInverse(b, APrime.q).value));
            match Open(decryptFunc.c, key, old(decryptFunc.input))
            case Plain(p) => error == None && decryptFunc.output == old(decryptFunc.output) + p
            case Refused(e) => error == Some(e) && decryptFunc.output == old(decryptFunc.output)
  {
    var ib := ModInverse(b, APrime.q).value;
    var B := new Point(GT, APrime.q);
    B.ScalarMult(APrime, ib);
    error := decryptFunc.Run(marshal(GT, B.e));
  }

  method DecryptByOwner(A: Point, a: nat, marshal: Marshaller, decryptFunc: DecryptClosure)
    returns (error: Option<CipherError>)
    requires A.group == G1 && A.q > 1 && ModInverse(a, A.q).Some?
    modifies decryptFunc
    ensures var key := marshal(GT, PairExponent(A.q, Times(A.q, old(A.e), ModInverse(a, A.q).value), 1));
            match Open(decryptFunc.c, key, old(decryptFunc.input))
            case Plain(p) => error == None && decryptFunc.output == old(decryptFunc.output) + p
            case Refused(e) => error == Some(e) && decryptFunc.output == old(decryptFunc.output)
  {
    var ia := ModInverse(a, A.q).value;
    var rG := new Point(G1, A.q);
    rG.ScalarMult(A, ia);
    var one := new Point(G2, A.q);
    one.ScalarBaseMult(1);
    ModSmall(1, A.q);
    var B := Pair(rG, one);
    error := decryptFunc.Run(marshal(GT, B.e));
  }

  // ----- what is recovered -----

  /** The exponent a receiver with secret d recovers from a point encrypted for a, re-keyed for b. */
  function Recovered(q: nat, a: nat, b: nat, r: nat, d: nat): nat
    requires q > 1 && ModInverse(a, q).Some? && ModInverse(d, q).Some?
  {
    Times(q, PairExponent(q, Times(q, a % q, r), ReKey(q, a, b)), ModInverse(d, q).value)
  }

  lemma RecoveredForm(q: nat, a: nat, b: nat, r: nat, d: nat)
    requires q > 1 && ModInverse(a, q).Some? && ModInverse(d, q).Some?
    ensures Recovered(q, a, b, r, d) == (r * b * ModInverse(d, q).value) % q
  {
    var ia, id := ModInverse(a, q).value, ModInverse(d, q).value;
    InverseCorrect(a, q);
    var x, y := a * r, b * ia;
    ModMul(a, r, q);
    ModMul(b, ia, q);
    assert PairExponent(q, x % q, y % q) == (x * y) % q by {
      ModMul(x, y % q, q);
      ModMulRight(x, y, q);
    }
    ModMul(x * y, id, q);
    assert x * y * id == a * ia * (r * b * id) by {
      Regroup(a, r, b, ia, id);
    }
    Cancel(q, a, ia, r * b * id);
  }

  lemma Regroup(a: int, r: int, b: int, ia: int, id: int)
    ensures (a * r) * (b * ia) * id == a * ia * (r * b * id)
  {
    assert (a * r) * (b * ia) == (a * ia) * (r * b);
  }

  /** The receiver recovers the session point exactly when its secret is the one the re-key was made
      for, modulo q. */
  lemma ReceiverRecovers(q: nat, a: nat, b: nat, r: nat, d: nat)
    requires Prime(q) && a % q != 0 && b % q != 0 && r % q != 0 && d % q != 0
    ensures ModInverse(a, q).Some? && ModInverse(d, q).Some?
    ensures Recovered(q, a, b, r, d) == r % q <==> d % q == b % q
  {
    InverseExists(a, q);
    InverseExists(d, q);
    InverseCorrect(d, q);
    RecoveredForm(q, a, b, r, d);
    var id := ModInverse(d, q).value;
    ModEqual(r * b * id, r, q);
    ModEqual(b, d, q);
    assert r * b * id - r == r * (b * id - 1);
    if (r * (b * id - 1)) % q == 0 {
      NoZeroDivisors(r, b * id - 1, q);
      MultiplyThrough(q, d, b, id);
    }
    if (b - d) % q == 0 {
      SameSecret(q, b, d, id, r);
    }
  }

  lemma MultiplyThrough(q: nat, d: int, b: int, id: int)
    requires q > 1 && (d * id) % q == 1 && (b * id - 1) % q == 0
    ensures (b - d) % q == 0
  {
    ModMulRight(d, b * id - 1, q);
    assert d * 0 == 0;
    ModSmall(0, q);
    assert d * (b * id - 1) == d * id * b - d;
    Cancel(q, d, id, b);
    ModEqual(d * id * b, d, q);
    ModEqual(b, d, q);
  }

  lemma SameSecret(q: nat, b: int, d: int, id: int, r: int)
    requires q > 1 && (d * id) % q == 1 && (b - d) % q == 0
    ensures (r * b * id) % q == r % q
  {
    assert r * b * id - r * d * id == (b - d) * (r * id);
    ModMul(b - d, r * id, q);
    assert 0 * (r * id) == 0;
    ModSmall(0, q);
    ModEqual(r * b * id, r * d * id, q);
    assert r * d * id == d * id * r;
    Cancel(q, d, id, r);
  }

  /** The owner, from the point it encrypted for, recovers the session point. */
  lemma OwnerRecovers(q: nat, a: nat, r: nat)
    requires Prime(q) && a % q != 0
    ensures ModInverse(a, q).Some?
    ensures PairExponent(q, Times(q, Times(q, a % q, r), ModInverse(a, q).value), 1) == r % q
  {
    InverseExists(a, q);
    InverseCorrect(a, q);
    var ia := ModInverse(a, q).value;
    ModMul(a, r, q);
    ModMul(a * r, ia, q);
    assert a * r * ia == a * ia * r;
    Cancel(q, a, ia, r);
    ModMod(r, q);
  }

  /** What was encrypted under a's public key opens, to the plaintext, for the receiver of a re-key from a
      to b and for the owner alike. */
  lemma BothDecrypt(q: nat, a: nat, b: nat, r: nat, c: Suite, marshal: Marshaller, iv: Block, plaintext: seq<byte>)
    requires Prime(q) && a % q != 0 && b % q != 0 && r % q != 0 && Permutes(c)
    ensures ModInverse(a, q).Some? && ModInverse(b, q).Some?
    ensures var text, A := Seal(c, marshal(GT, r % q), iv, plaintext), Times(q, a % q, r);
            && Open(c, marshal(GT, Recovered(q, a, b, r, b)), text) == Plain(plaintext)
            && Open(c, marshal(GT, PairExponent(q, Times(q, A, ModInverse(a, q).value), 1)), text) == Plain(plaintext)
  {
    hide Recovered, Times, PairExponent, Seal, Open, ModInverse;
    ReceiverRecovers(q, a, b, r, b);
    OwnerRecovers(q, a, r);
    OpenSeal(c, marshal(GT, r % q), iv, plaintext);
  }
}
