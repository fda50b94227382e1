/** The three pairing groups, each written as the exponents of its base point modulo the group order q.
    Points are objects that their operations overwrite. */
module Curve {
  import opened Bytes
  import opened NumberTheory

  datatype Group = G1 | G2 | GT

  type Digest = s: seq<byte> | |s| == 32 witness seq(32, _ => 0)

  /** SHA-256, as a function. */
  type Sha = seq<byte> -> Digest

  /** The bytes of a point, which depend on the point alone. */
  type Marshaller = (Group, nat) -> seq<byte>

  class Point {
    const group: Group
    const q: nat
    var e: nat

    ghost predicate Valid()
      reads this
    {
      q > 1 && e < q
    }

    constructor (group: Group, q: nat)
      requires q > 1
      ensures this.group == group && this.q == q && e == 0
    {
      this.group, this.q, this.e := group, q, 0;
    }

    /** e = k * base */
    method ScalarBaseMult(k: nat)
      requires q > 1
      modifies this
      ensures Valid() && e == k % q
    {
      e := k % q;
    }

    /** e = k * a; a may be e itself */
    method ScalarMult(a: Point, k: nat)
      requires q > 1 && a.group == group && a.q == q
      modifies this
      ensures Valid() && e == (old(a.e) * k) % q
    {
      e := (a.e * k) % q;
    }

    /** e = a + b; either may be e itself */
    method Add(a: Point, b: Point)
      requires q > 1 && a.group == b.group == group && a.q == b.q == q
      modifies this
      ensures Valid() && e == (old(a.e) + old(b.e)) % q
    {
      e := (a.e + b.e) % q;
    }

    /** e = -a; a may be e itself */
    method Neg(a: Point)
      requires q > 1 && a.group == group && a.q == q
      modifies this
      ensures Valid() && e == (-(old(a.e) as int)) % q
    {
      e := (-(a.e as int)) % q;
    }
  }

  function PairExponent(q: nat, x: nat, y: nat): nat
    requires q > 1
  {
    (x * y) % q
  }

  method Pair(g1: Point, g2: Point) returns (gt: Point)
    requires g1.group == G1 && g2.group == G2 && g1.q == g2.q > 1
    ensures fresh(gt) && gt.group == GT && gt.q == g1.q && gt.Valid()
    ensures gt.e == PairExponent(g1.q, g1.e, g2.e)
  {
    gt := new Point(GT, g1.q);
    ProductNat(g1.e, g2.e);
    gt.ScalarBaseMult(g1.e * g2.e);
  }

  /** Multiples on either side of a pairing come out of it. */
  lemma Bilinear(q: nat, x: nat, y: nat, j: nat, k: nat)
    requires q > 1
    ensures PairExponent(q, (x * j) % q, (y * k) % q) == (PairExponent(q, x, y) * (j * k)) % q
  {
    ModMul(x * j, (y * k) % q, q);
    ModMulRight(x * j, y * k, q);
    ModMul(x * y, j * k, q);
    assert (x * j) * (y * k) == (x * y) * (j * k) by {
      Rearrange(x, j, y, k);
    }
  }

  lemma Rearrange(x: int, j: int, y: int, k: int)
    ensures (x * j) * (y * k) == (x * y) * (j * k)
  {
    assert (x * j) * (y * k) == x * (j * (y * k)) == x * (y * (j * k));
  }

  // ----- field elements from points -----

  /** big.Int.SetBytes: big-endian. */
  function FromBytes(s: seq<byte>): nat
    decreases |s|
  {
    if s == [] then 0 else 256 * FromBytes(s[..|s| - 1]) + s[|s| - 1]
  }

  /** The first byte is the most significant. */
  lemma {:induction false} FromBytesFront(b: byte, s: seq<byte>)
    ensures FromBytes([b] + s) == b * Pow2(8 * |s|) + FromBytes(s) && FromBytes(s) < Pow2(8 * |s|)
    decreases |s|
  {
    if s == [] {
      assert FromBytes([b]) == 256 * FromBytes([]) + b;
    } else {
      var n := |s| - 1;
      assert ([b] + s)[..|s|] == [b] + s[..n];
      FromBytesFront(b, s[..n]);
      Pow256(n);
      assert b * (256 * Pow2(8 * n)) == 256 * (b * Pow2(8 * n));
    }
  }

  lemma Pow256(n: nat)
    ensures Pow2(8 * (n + 1)) == 256 * Pow2(8 * n)
  {
    assert Pow2(8 * n + 4) == 16 * Pow2(8 * n) && Pow2(8 * n + 8) == 16 * Pow2(8 * n + 4) by {
      Pow2Four(8 * n);
      Pow2Four(8 * n + 4);
    }
  }

  lemma Pow2Four(n: nat)
    ensures Pow2(n + 4) == 16 * Pow2(n)
  {
    assert Pow2(n + 2) == 2 * Pow2(n + 1);
    assert Pow2(n + 4) == 2 * Pow2(n + 3);
  }

  /** h hashed n more times. */
  function Rehash(sha: Sha, h: Digest, n: nat): Digest
    decreases n
  {
    if n == 0 then h else Rehash(sha, sha(h), n - 1)
  }

  /** The n-th digest of the chain is the first that is not zero modulo q. */
  ghost predicate FirstNonZero(sha: Sha, h: Digest, q: nat, n: nat)
    requires q > 0
  {
    FromBytes(Rehash(sha, h, n)) % q != 0
    && forall i :: 0 <= i < n ==> FromBytes(Rehash(sha, h, i)) % q == 0
  }

  /** k is what the chain that starts at h yields. */
  ghost predicate Derives(sha: Sha, h: Digest, q: nat, k: nat)
    requires q > 0
  {
    exists n: nat :: FirstNonZero(sha, h, q, n) && k == FromBytes(Rehash(sha, h, n)) % q
  }

  lemma {:induction false} RehashNext(sha: Sha, h: Digest, n: nat)
    ensures Rehash(sha, h, n + 1) == sha(Rehash(sha, h, n))
    decreases n
  {
    if n > 0 {
      RehashNext(sha, sha(h), n - 1);
    }
  }

  /** A derived key is determined by the digest it starts from, and is an invertible field element. */
  lemma DerivedKey(sha: Sha, h: Digest, q: nat, k: nat, k': nat)
    requires q > 0 && Derives(sha, h, q, k) && Derives(sha, h, q, k')
    ensures k == k' && 1 <= k < q && k % q != 0
  {
    var n: nat :| FirstNonZero(sha, h, q, n) && k == FromBytes(Rehash(sha, h, n)) % q;
    var n': nat :| FirstNonZero(sha, h, q, n') && k' == FromBytes(Rehash(sha, h, n')) % q;
    assert n >= n' && n' >= n;
    ModSmall(k, q);
  }

  /** A digest that is not zero modulo q yields its residue, any other what its own hash yields. */
  lemma DerivesStep(sha: Sha, h: Digest, q: nat, k: nat)
    requires q > 0
    ensures Derives(sha, h, q, k) <==> if FromBytes(h) % q != 0 then k == FromBytes(h) % q else Derives(sha, sha(h), q, k)
  {
    hide FromBytes;
    assert Rehash(sha, h, 0) == h;
    if FromBytes(h) % q != 0 {
      assert FirstNonZero(sha, h, q, 0);
    } else {
      if Derives(sha, h, q, k) {
        var n: nat :| FirstNonZero(sha, h, q, n) && k == FromBytes(Rehash(sha, h, n)) % q;
        FirstLater(sha, h, q, n - 1);
      }
      if Derives(sha, sha(h), q, k) {
        var n: nat :| FirstNonZero(sha, sha(h), q, n) && k == FromBytes(Rehash(sha, sha(h), n)) % q;
        FirstLater(sha, h, q, n);
        assert FirstNonZero(sha, h, q, n + 1);
      }
    }
  }

  lemma FirstLater(sha: Sha, h: Digest, q: nat, n: nat)
    requires q > 0 && FromBytes(h) % q == 0
    ensures Rehash(sha, h, n + 1) == Rehash(sha, sha(h), n)
    ensures FirstNonZero(sha, h, q, n + 1) <==> FirstNonZero(sha, sha(h), q, n)
  {
    hide FromBytes;
    if FirstNonZero(sha, h, q, n + 1) {
      forall i | 0 <= i < n ensures FromBytes(Rehash(sha, sha(h), i)) % q == 0 {
        assert Rehash(sha, h, i + 1) == Rehash(sha, sha(h), i);
      }
    }
    if FirstNonZero(sha, sha(h), q, n) {
      forall i | 0 <= i < n + 1 ensures FromBytes(Rehash(sha, h, i)) % q == 0 {
        assert i > 0 ==> Rehash(sha, h, i) == Rehash(sha, sha(h), i - 1);
      }
    }
  }

  /** DeriveFieldElementFromPoint, from the marshalled point on. That the hash chain meets a non-zero
      digest - within `bound` steps - is a hypothesis: the loop has no bound of its own. */
  method DeriveFieldElement(sha: Sha, marshalled: seq<byte>, q: nat, ghost bound: nat) returns (k: nat)
    requires q > 0 && FromBytes(Rehash(sha, sha(marshalled), bound)) % q != 0
    ensures Derives(sha, sha(marshalled), q, k)
  {
    var h := sha(marshalled);
    ghost var n := 0;
    k := FromBytes(h) % q;
    while k == 0
      invariant n <= bound && h == Rehash(sha, sha(marshalled), n) && k == FromBytes(h) % q
      invariant forall i :: 0 <= i < n ==> FromBytes(Rehash(sha, sha(marshalled), i)) % q == 0
      decreases bound - n
    {
      RehashNext(sha, sha(marshalled), n);
      h := sha(h);
      n := n + 1;
      k := FromBytes(h) % q;
    }
    assert FirstNonZero(sha, sha(marshalled), q, n);
  }
}
