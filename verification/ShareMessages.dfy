/** The whole transfer: choice, key points, re-keys, re-encryption, and the receiver's decryption. */
module ShareMessages {
  import opened Bytes
  import opened NumberTheory
  import opened Curve
  import opened ObliviousTransfer
  import opened Ciphering
  import opened ProxyReEncryption

  /** Every marshalled G1 point leads the hash chain to a non-zero field element within `bound` steps. */
  ghost predicate ChainsEnd(sha: Sha, marshal: Marshaller, q: nat, bound: nat -> nat)
    requires q > 0
  {
    forall e: nat {:trigger bound(e)} :: e < q ==> FromBytes(Rehash(sha, sha(marshal(G1, e)), bound(e))) % q != 0
  }

  /** k is the field element derived from the G1 point with exponent e. */
  ghost predicate KeyOf(sha: Sha, marshal: Marshaller, q: nat, e: nat, k: nat)
    requires q > 0
  {
    Derives(sha, sha(marshal(G1, e)), q, k)
  }

  lemma KeyFacts(sha: Sha, marshal: Marshaller, q: nat, e: nat, k: nat)
    requires Prime(q)
    ensures KeyOf(sha, marshal, q, e, k) ==> 1 <= k < q && k % q != 0 && ModInverse(k, q).Some?
  {
    if KeyOf(sha, marshal, q, e, k) {
      DerivedKey(sha, sha(marshal(G1, e)), q, k, k);
      InverseExists(k, q);
    }
  }

  method DeriveKeysFromPoints(sha: Sha, marshal: Marshaller, q: nat, ghost bound: nat -> nat, points: seq<Point>)
    returns (keys: seq<nat>)
    requires Prime(q) && ChainsEnd(sha, marshal, q, bound)
    requires forall i :: 0 <= i < |points| ==> points[i].e < q
    ensures |keys| == |points|
    ensures forall i :: 0 <= i < |keys| ==> KeyOf(sha, marshal, q, points[i].e, keys[i])
  {
    keys := [];
    for i := 0 to |points|
      invariant |keys| == i && forall j :: 0 <= j < i ==> KeyOf(sha, marshal, q, points[j].e, keys[j])
    {
      var k := DeriveFieldElement(sha, marshal(G1, points[i].e), q, bound(points[i].e));
      keys := keys + [k];
    }
  }

  method GenerateReKeys(skA: nat, keys: seq<nat>, q: nat) returns (reKeys: seq<Point>)
    requires q > 1 && ModInverse(skA, q).Some?
    ensures |reKeys| == |keys|
    ensures forall i :: 0 <= i < |keys| ==>
              fresh(reKeys[i]) && reKeys[i].group == G2 && reKeys[i].q == q && reKeys[i].e == ReKey(q, skA, keys[i])
  {
    hide ReKey;
    reKeys := [];
    for i := 0 to |keys|
      invariant |reKeys| == i
      invariant forall j :: 0 <= j < i ==>
                  fresh(reKeys[j]) && reKeys[j].group == G2 && reKeys[j].q == q && reKeys[j].e == ReKey(q, skA, keys[j])
    {
      var rk := GenerateReKey(skA, keys[i], q);
      reKeys := reKeys + [rk];
    }
  }

  method ReEncryptAll(As: seq<Point>, reKeys: seq<Point>, q: nat) returns (APrimes: seq<Point>)
    requires q > 1 && |reKeys| <= |As|
    requires forall i :: 0 <= i < |reKeys| ==>
               As[i].group == G1 && As[i].q == q && reKeys[i].group == G2 && reKeys[i].q == q
    ensures |APrimes| == |reKeys|
    ensures forall i :: 0 <= i < |reKeys| ==>
              fresh(APrimes[i]) && APrimes[i].group == GT && APrimes[i].q == q
              && APrimes[i].e == PairExponent(q, As[i].e, reKeys[i].e)
  {
    hide PairExponent;
    APrimes := [];
    for i := 0 to |reKeys|
      invariant |APrimes| == i
      invariant forall j :: 0 <= j < i ==>
                  fresh(APrimes[j]) && APrimes[j].group == GT && APrimes[j].q == q
                  && APrimes[j].e == PairExponent(q, As[j].e, reKeys[j].e)
    {
      var ap := ReEncrypt(As[i], reKeys[i]);
      APrimes := APrimes + [ap];
    }
  }

  method EncryptMessage(pkA: Point, message: seq<byte>, r: nat, iv: Block, c: Suite, marshal: Marshaller)
    returns (A: Point, ciphertext: seq<byte>)
    requires pkA.q > 1
    ensures fresh(A) && A.group == pkA.group && A.q == pkA.q && A.e == Times(pkA.q, pkA.e, r)
    ensures ciphertext == Seal(c, marshal(GT, r % pkA.q), iv, message)
  {
    var closure := new EncryptClosure(c, message, iv);
    A := Encrypt(pkA, r, marshal, closure);
    ciphertext := closure.output;
  }

  method DecryptMessage(skB: nat, APrime: Point, LPrime: Point, cipher: seq<byte>, c: Suite,
                        sha: Sha, marshal: Marshaller, ghost bound: nat -> nat)
    returns (message: seq<byte>, error: Option<CipherError>)
    requires Prime(LPrime.q) && ChainsEnd(sha, marshal, LPrime.q, bound)
    requires LPrime.group == G1 && APrime.group == GT && APrime.q == LPrime.q
    ensures exists b :: KeyOf(sha, marshal, LPrime.q, (LPrime.e * skB) % LPrime.q, b) && ModInverse(b, LPrime.q).Some?
              && var key := marshal(GT, Times(LPrime.q, APrime.e, ModInverse(b, LPrime.q).value));
                 match Open(c, key, cipher)
                 case Plain(p) => error == None && message == p
                 case Refused(e) => error == Some(e) && message == []
  {
    var kp := RevealKeyPoint(LPrime, skB);
    var b := DeriveFieldElement(sha, marshal(G1, kp.e), LPrime.q, bound(kp.e));
    KeyFacts(sha, marshal, LPrime.q, kp.e, b);
    var closure := new DecryptClosure(c, cipher);
    error := DecryptByReceiver(APrime, b, marshal, closure);
    message := closure.output;
  }

  /** Keys derived from one point are one key, so what was re-keyed for k opens with b. */
  lemma SamePointOpens(q: nat, skA: nat, e: nat, r: nat, k: nat, b: nat, sha: Sha, marshal: Marshaller)
    requires Prime(q) && skA % q != 0 && r % q != 0
    requires KeyOf(sha, marshal, q, e, k) && KeyOf(sha, marshal, q, e, b)
    ensures ModInverse(skA, q).Some? && ModInverse(b, q).Some?
    ensures Times(q, PairExponent(q, Times(q, skA % q, r), ReKey(q, skA, k)), ModInverse(b, q).value) == r % q
  {
    hide Derives;
    DerivedKey(sha, sha(marshal(G1, e)), q, k, b);
    ReceiverRecovers(q, skA, k, r, b);
  }

  /** With the key of its revealed point the receiver recovers the session point of position i exactly when i
      is its choice, or the two distinct points happened to derive one key. */
  lemma OpensNoOther(q: nat, skA: nat, skB: nat, target: nat, i: nat, l: nat, t: nat, r: nat, k: nat, b: nat,
                     sha: Sha, marshal: Marshaller)
    requires Prime(q) && skA % q != 0 && t % q != 0 && r % q != 0 && 1 <= target < q && 1 <= i < q
    ensures ModInverse(skA, q).Some?
    ensures var revealed := Revealed(q, l, t, skB);
            var kp := KeyPoint(q, t, SealedY(q, target, skA % q, skB % q, l), skA % q, i);
            KeyOf(sha, marshal, q, kp, k) && KeyOf(sha, marshal, q, revealed, b) ==>
              && ModInverse(b, q).Some?
              && (Recovered(q, skA, k, r, b) == r % q <==> i == target || (kp != revealed && k == b))
  {
    hide Derives, Recovered, KeyPoint, SealedY, Revealed;
    var revealed := Revealed(q, l, t, skB);
    var kp := KeyPoint(q, t, SealedY(q, target, skA % q, skB % q, l), skA % q, i);
    InverseExists(skA, q);
    if KeyOf(sha, marshal, q, kp, k) && KeyOf(sha, marshal, q, revealed, b) {
      KeyFacts(sha, marshal, q, kp, k);
      KeyFacts(sha, marshal, q, revealed, b);
      ModSmall(k, q);
      ModSmall(b, q);
      OpensOne(q, target, skA, skB, l, t, i);
      ReceiverRecovers(q, skA, k, r, b);
      if i == target {
        DerivedKey(sha, sha(marshal(G1, kp)), q, k, b);
      }
    }
  }

  /** For all non-zero secrets and randomness, every count and every target in 1..count: after the choice
      is sealed, the key points, re-keys and re-encrypted points are made, the receiver decrypts exactly
      the message that was encrypted at position target. */
  method Transfer(
      q: nat, skA: nat, skB: nat, pkA: Point, pkB: Point, As: seq<Point>, ciphertext: seq<byte>, count: nat, target: nat,
      l: nat, t: nat, c: Suite, sha: Sha, marshal: Marshaller, ghost bound: nat -> nat,
      ghost r: nat, ghost iv: Block, ghost plaintext: seq<byte>)
    returns (message: seq<byte>, error: Option<CipherError>)
    requires Prime(q) && Permutes(c) && ChainsEnd(sha, marshal, q, bound)
    requires skA % q != 0 && t % q != 0 && r % q != 0
    requires pkA.group == pkB.group == G1 && pkA.q == pkB.q == q && pkA.e == skA % q && pkB.e == skB % q
    requires 1 <= target <= count <= |As| && forall i :: 0 <= i < |As| ==> As[i].group == G1 && As[i].q == q
    requires As[target - 1].e == Times(q, pkA.e, r) && ciphertext == Seal(c, marshal(GT, r % q), iv, plaintext)
    ensures error == None && message == plaintext
  {
    hide SealedY, KeyPoint, Revealed, ReKey, PairExponent, Times, Seal, Open, Derives, ChainsEnd;
    InverseExists(skA, q);
    var Y, L := SealChoice(target, pkA, pkB, l);
    var kps, LPrime := CalculateKeyPoints(Y, L, pkA, count, t);
    var bobKeys := DeriveKeysFromPoints(sha, marshal, q, bound, kps);
    var reKeys := GenerateReKeys(skA, bobKeys, q);
    var APrimes := ReEncryptAll(As, reKeys, q);
    var revealed := (LPrime.e * skB) % q;
    RevealedIs(q, l, t, skB);
    message, error := DecryptMessage(skB, APrimes[target - 1], LPrime, ciphertext, c, sha, marshal, bound);
    OpensExactly(q, target, skA, skB, l, t, target);
    ModSmall(0, q);
    assert target - target == 0;
    forall b | KeyOf(sha, marshal, q, revealed, b)
      ensures ModInverse(b, q).Some? && Times(q, APrimes[target - 1].e, ModInverse(b, q).value) == r % q
    {
      SamePointOpens(q, skA, revealed, r, bobKeys[target - 1], b, sha, marshal);
    }
    OpenSeal(c, marshal(GT, r % q), iv, plaintext);
  }

  lemma RevealedIs(q: nat, l: nat, t: nat, skB: nat)
    requires q > 1
    ensures Revealed(q, l, t, skB) == ((((l % q) * t) % q) * skB) % q
  {
  }

  /** initShareMessages: only the target is encrypted, the other points are random multiples of pkA. */
  method InitShareMessages(pkA: Point, q: nat, n: nat, target: nat, message: seq<byte>, rs: seq<nat>, iv: Block,
                           c: Suite, marshal: Marshaller)
    returns (As: seq<Point>, ciphertext: seq<byte>)
    requires q > 1 && pkA.q == q && pkA.group == G1 && 1 <= target <= n == |rs|
    ensures |As| == n && forall i :: 0 <= i < n ==> As[i].group == G1 && As[i].q == q && As[i].e == Times(q, pkA.e, rs[i])
    ensures ciphertext == Seal(c, marshal(GT, rs[target - 1] % q), iv, message)
  {
    hide Times, Seal;
    As, ciphertext := [], [];
    for i := 0 to n
      invariant |As| == i
      invariant forall j :: 0 <= j < i ==>
                  fresh(As[j]) && As[j].group == G1 && As[j].q == q && As[j].e == Times(q, pkA.e, rs[j])
      invariant i >= target ==> ciphertext == Seal(c, marshal(GT, rs[target - 1] % q), iv, message)
    {
      var A: Point;
      if i == target - 1 {
        A, ciphertext := EncryptMessage(pkA, message, rs[i], iv, c, marshal);
      } else {
        A := Multiple(pkA, rs[i]);
      }
      As := As + [A];
    }
  }

  method Multiple(p: Point, k: nat) returns (A: Point)
    requires p.q > 1
    ensures fresh(A) && A.group == p.group && A.q == p.q && A.e == Times(p.q, p.e, k)
  {
    A := new Point(p.group, p.q);
    A.ScalarMult(p, k);
  }

  /** One run from key pairs to the decrypted message, as the benchmark composes it. */
  method ShareOne(
      q: nat, skA: nat, skB: nat, message: seq<byte>, count: nat, target: nat, rs: seq<nat>, iv: Block, l: nat, t: nat,
      c: Suite, sha: Sha, marshal: Marshaller, ghost bound: nat -> nat)
    returns (received: seq<byte>, error: Option<CipherError>)
    requires Prime(q) && Permutes(c) && ChainsEnd(sha, marshal, q, bound)
    requires 1 <= target <= count == |rs|
    requires skA % q != 0 && t % q != 0 && rs[target - 1] % q != 0
    ensures error == None && received == message
  {
    hide Permutes, ChainsEnd;
    var pkA := new Point(G1, q);
    pkA.ScalarBaseMult(skA);
    var pkB := new Point(G1, q);
    pkB.ScalarBaseMult(skB);
    var As, ciphertext := InitShareMessages(pkA, q, count, target, message, rs, iv, c, marshal);
    received, error := Transfer(q, skA, skB, pkA, pkB, As, ciphertext, count, target, l, t, c, sha, marshal, bound,
                                rs[target - 1], iv, message);
  }
}
