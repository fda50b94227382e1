/** Updatable storage: blocks hashed with chameleon hashes under a Merkle root, and updated without moving it. */
module Storage {
  import opened Bytes
  import opened NumberTheory
  import opened Curve
  import opened Chameleon
  import opened Merkle
  import opened BlockStore

  /** The field element a block is hashed as. */
  function MessageOf(sha: Sha, q: nat, block: seq<byte>): nat
    requires q > 1
  {
    FromBytes(sha(block)) % q
  }

  /** It is the number the digest spells, taken modulo q. */
  lemma MessageExact(sha: Sha, q: nat, block: seq<byte>)
    requires q > 1
    ensures MessageOf(sha, q, block) < q && (FromBytes(sha(block)) - MessageOf(sha, q, block)) % q == 0
  {
    var n := FromBytes(sha(block));
    ModMod(n, q);
    ModEqual(n, n % q, q);
  }

  method RandomPoint(group: Group, q: nat, n: nat) returns (p: Point)
    requires q > 1
    ensures fresh(p) && p.group == group && p.q == q && p.e == n % q
  {
    p := new Point(group, q);
    p.ScalarBaseMult(n);
  }

  // ----- any run of updates keeps the root -----

  /** A block's message and the randomness its hash was made with. */
  datatype Stored = Stored(m: nat, r: nat)

  datatype Change = Change(blk: nat, mp: nat)

  function Leaf(sha: Sha, marshal: Marshaller, q: nat, x: nat, b: Stored): Digest
    requires q > 1
  {
    HashOf(sha, marshal, q, x % q, b.r % q, b.m)
  }

  function Leaves(sha: Sha, marshal: Marshaller, q: nat, x: nat, blocks: seq<Stored>): (r: seq<Digest>)
    requires q > 1
    ensures |r| == |blocks|
  {
    seq(|blocks|, i requires 0 <= i < |blocks| => Leaf(sha, marshal, q, x, blocks[i]))
  }

  /** Each change replaces a block's message, and its randomness by that of the collision. */
  function Apply(q: nat, x: nat, blocks: seq<Stored>, changes: seq<Change>): (r: seq<Stored>)
    requires q > 1 && ModInverse(x, q).Some? && forall c :: c in changes ==> c.blk < |blocks|
    ensures |r| == |blocks|
    decreases |changes|
  {
    if changes == [] then blocks
    else
      var c := changes[0];
      var b := blocks[c.blk];
      Apply(q, x, blocks[c.blk := Stored(c.mp, CollisionR(q, x, b.r, b.m, c.mp))], changes[1..])
  }

  lemma OneChange(sha: Sha, marshal: Marshaller, q: nat, x: nat, blocks: seq<Stored>, c: Change)
    requires q > 1 && ModInverse(x, q).Some? && c.blk < |blocks|
    ensures Leaves(sha, marshal, q, x,
                   blocks[c.blk := Stored(c.mp, CollisionR(q, x, blocks[c.blk].r, blocks[c.blk].m, c.mp))])
         == Leaves(sha, marshal, q, x, blocks)
  {
    hide HashPoint, CollisionR;
    CollisionKeepsPoint(q, x, blocks[c.blk].r, blocks[c.blk].m, c.mp);
  }

  /** After any finite run of updates every leaf, hashed from its new message and randomness, is the
      leaf it was, so the root is too. */
  lemma {:induction false} UpdatesKeepRoot(
      sha: Sha, marshal: Marshaller, q: nat, x: nat, blocks: seq<Stored>, changes: seq<Change>)
    requires q > 1 && ModInverse(x, q).Some? && forall c :: c in changes ==> c.blk < |blocks|
    ensures Leaves(sha, marshal, q, x, Apply(q, x, blocks, changes)) == Leaves(sha, marshal, q, x, blocks)
    ensures blocks != [] ==>
              Root(sha, Leaves(sha, marshal, q, x, Apply(q, x, blocks, changes)))
              == Root(sha, Leaves(sha, marshal, q, x, blocks))
    decreases |changes|
  {
    hide Root, CollisionR;
    if changes != [] {
      var c := changes[0];
      var b := blocks[c.blk];
      OneChange(sha, marshal, q, x, blocks, c);
      UpdatesKeepRoot(sha, marshal, q, x, blocks[c.blk := Stored(c.mp, CollisionR(q, x, b.r, b.m, c.mp))], changes[1..]);
    }
  }

  /** Only the last message written to a block is left in it. */
  lemma {:induction false} LastChangeStays(q: nat, x: nat, blocks: seq<Stored>, changes: seq<Change>, k: nat)
    requires q > 1 && ModInverse(x, q).Some? && forall c :: c in changes ==> c.blk < |blocks|
    requires k < |changes| && forall j :: k < j < |changes| ==> changes[j].blk != changes[k].blk
    ensures Apply(q, x, blocks, changes)[changes[k].blk].m == changes[k].mp
    decreases |changes|
  {
    hide CollisionR;
    var c := changes[0];
    var next := blocks[c.blk := Stored(c.mp, CollisionR(q, x, blocks[c.blk].r, blocks[c.blk].m, c.mp))];
    if k > 0 {
      LastChangeStays(q, x, next, changes[1..], k - 1);
    } else {
      UnchangedStays(q, x, next, changes[1..], c.blk);
    }
  }

  lemma {:induction false} UnchangedStays(q: nat, x: nat, blocks: seq<Stored>, changes: seq<Change>, b: nat)
    requires q > 1 && ModInverse(x, q).Some? && forall c :: c in changes ==> c.blk < |blocks|
    requires b < |blocks| && forall j :: 0 <= j < |changes| ==> changes[j].blk != b
    ensures Apply(q, x, blocks, changes)[b] == blocks[b]
    decreases |changes|
  {
    hide CollisionR;
    if changes != [] {
      var c := changes[0];
      var next := blocks[c.blk := Stored(c.mp, CollisionR(q, x, blocks[c.blk].r, blocks[c.blk].m, c.mp))];
      UnchangedStays(q, x, next, changes[1..], b);
    }
  }

  /** The updates as they are made: a collision for each change, its hash compared with the original leaf,
      and the leaf verified from the new point and message. All of them come out well. */
  method ApplyChanges(Y: Point, x: nat, leaves: seq<Digest>, blocks: seq<Stored>, changes: seq<Change>,
                      q: nat, sha: Sha, marshal: Marshaller)
    returns (r: seq<Stored>, ok: bool)
    requires q > 1 && ModInverse(x, q).Some? && Y.group == G1 && Y.q == q && Y.e == x % q
    requires leaves == Leaves(sha, marshal, q, x, blocks) && forall c :: c in changes ==> c.blk < |blocks|
    ensures r == Apply(q, x, blocks, changes) && ok
  {
    hide HashPoint, CollisionR;
    r, ok := blocks, true;
    assert changes[0..] == changes;
    for i := 0 to |changes|
      invariant |r| == |blocks| && Apply(q, x, r, changes[i..]) == Apply(q, x, blocks, changes)
      invariant Leaves(sha, marshal, q, x, r) == leaves && ok
    {
      var c := changes[i];
      var b := r[c.blk];
      assert changes[i..][0] == c && changes[i..][1..] == changes[i + 1..];
      assert leaves[c.blk] == Leaf(sha, marshal, q, x, b);
      var ch, rp, Rp := ComputeCollision(Y, x, b.r, b.m, c.mp, q, sha, marshal);
      CollisionKeepsPoint(q, x, b.r, b.m, c.mp);
      OneChange(sha, marshal, q, x, r, c);
      var verified := Verify(leaves[c.blk], Y, Rp, c.mp, sha, marshal);
      ok := ok && verified && ch == leaves[c.blk];
      r := r[c.blk := Stored(c.mp, rp)];
    }
    assert changes[|changes|..] == [];
  }

  // ----- updates and the file -----

  /** Two different blocks with one message: SHA-256 takes them to the same value modulo q. */
  predicate BlocksCollide(sha: Sha, q: nat, a: seq<byte>, b: seq<byte>)
    requires q > 1
  {
    a != b && MessageOf(sha, q, a) == MessageOf(sha, q, b)
  }

  /** Two different GT points whose marshalled forms have one SHA-256 digest. */
  predicate PointsCollide(sha: Sha, marshal: Marshaller, e: nat, e': nat) {
    e != e' && sha(marshal(GT, e)) == sha(marshal(GT, e'))
  }

  lemma SameMessage(q: nat, y: nat, r: nat, m: nat, m': nat)
    requires q > 1
    ensures HashPoint(q, y, r, m) == HashPoint(q, y, r, m') <==> m % q == m' % q
  {
    var p := PairExponent(q, y, r);
    ModAdd(m, p, q);
    ModAdd(m', p, q);
    ModEqual(m + p, m' + p, q);
    ModEqual(m, m', q);
  }

  /** Another block in the place of the one written verifies against the unmoved leaf only by a collision of
      SHA-256, on the two blocks or on two points. */
  lemma OtherBlockVerifies(sha: Sha, marshal: Marshaller, q: nat, x: nat, before: Stored,
                           newBlock: seq<byte>, kept: seq<byte>)
    requires q > 1 && ModInverse(x, q).Some?
    ensures var rp := CollisionR(q, x, before.r, before.m, MessageOf(sha, q, newBlock));
            var p, p' := HashPoint(q, x % q, rp % q, MessageOf(sha, q, kept)), HashPoint(q, x % q, before.r % q, before.m);
            Leaf(sha, marshal, q, x, Stored(MessageOf(sha, q, kept), rp)) == Leaf(sha, marshal, q, x, before)
            <==> kept == newBlock || BlocksCollide(sha, q, kept, newBlock) || PointsCollide(sha, marshal, p, p')
  {
    hide CollisionR, HashPoint;
    var newM, keptM := MessageOf(sha, q, newBlock), MessageOf(sha, q, kept);
    var rp := CollisionR(q, x, before.r, before.m, newM);
    CollisionKeepsPoint(q, x, before.r, before.m, newM);
    SameMessage(q, x % q, rp % q, keptM, newM);
    ModMod(FromBytes(sha(kept)), q);
    ModMod(FromBytes(sha(newBlock)), q);
  }

  /** What of a block written at blk reaches past the end of the file is zero. */
  predicate ZeroTail(fileSize: nat, blockSize: nat, blk: nat, block: seq<byte>) {
    forall i :: 0 <= i < |block| && blockSize * blk + i >= fileSize ==> block[i] == 0
  }

  /** A block is written to the file and its hash moved to it. The block the file keeps verifies against the
      old leaf if what reached past the file was zero; if it was not, only by a collision of SHA-256. */
  lemma FileUpdateVerifies(sha: Sha, marshal: Marshaller, q: nat, x: nat, before: Stored,
                           fileSize: nat, blockSize: nat, blk: nat, newBlock: seq<byte>)
    requires q > 1 && ModInverse(x, q).Some?
    requires blockSize > 0 && blk < BlockCount(fileSize, blockSize) && |newBlock| == blockSize
    ensures var kept := Kept(fileSize, blockSize, blk, newBlock);
            var rp := CollisionR(q, x, before.r, before.m, MessageOf(sha, q, newBlock));
            var p, p' := HashPoint(q, x % q, rp % q, MessageOf(sha, q, kept)), HashPoint(q, x % q, before.r % q, before.m);
            Leaf(sha, marshal, q, x, Stored(MessageOf(sha, q, kept), rp)) == Leaf(sha, marshal, q, x, before)
            <==> ZeroTail(fileSize, blockSize, blk, newBlock) || BlocksCollide(sha, q, kept, newBlock)
                 || PointsCollide(sha, marshal, p, p')
  {
    hide CollisionR, HashPoint, Kept, Leaf;
    ReadsBack(fileSize, blockSize, blk, newBlock);
    OtherBlockVerifies(sha, marshal, q, x, before, newBlock, Kept(fileSize, blockSize, blk, newBlock));
  }

  /** In a file of whole blocks it always verifies. */
  lemma FullBlockVerifies(sha: Sha, marshal: Marshaller, q: nat, x: nat, before: Stored,
                          fileSize: nat, blockSize: nat, blk: nat, newBlock: seq<byte>)
    requires q > 1 && ModInverse(x, q).Some?
    requires blockSize > 0 && blk < BlockCount(fileSize, blockSize) && |newBlock| == blockSize
    requires fileSize % blockSize == 0
    ensures var kept := Kept(fileSize, blockSize, blk, newBlock);
            var rp := CollisionR(q, x, before.r, before.m, MessageOf(sha, q, newBlock));
            kept == newBlock
            && Leaf(sha, marshal, q, x, Stored(MessageOf(sha, q, kept), rp)) == Leaf(sha, marshal, q, x, before)
  {
    hide CollisionR, HashPoint, Kept, Leaf;
    NoShortBlock(fileSize, blockSize, blk);
    ReadsBack(fileSize, blockSize, blk, newBlock);
    OtherBlockVerifies(sha, marshal, q, x, before, newBlock, newBlock);
  }

  /** Writes a block of the file, moves its hash, and verifies the old leaf from what the file now holds. */
  method UpdateBlock(mf: MemFileObj, blk: nat, newBlock: seq<byte>, Y: Point, x: nat, r: nat,
                     q: nat, sha: Sha, marshal: Marshaller)
    returns (verified: bool, rp: nat)
    requires mf.Valid() && blk < mf.blockCount && |newBlock| == mf.blockSize
    requires q > 1 && ModInverse(x, q).Some? && Y.group == G1 && Y.q == q && Y.e == x % q
    modifies mf`fileSize, mf`blockCount, mf.data
    ensures mf.Valid() && mf.data == old(mf.data) && mf.fileSize == old(mf.fileSize) && mf.blockCount == old(mf.blockCount)
    ensures mf.Model() == old(mf.Model())[blk := Kept(mf.fileSize, mf.blockSize, blk, newBlock)]
    ensures rp == CollisionR(q, x, r, MessageOf(sha, q, old(mf.Model())[blk]), MessageOf(sha, q, newBlock))
    ensures verified <==>
              Leaf(sha, marshal, q, x, Stored(MessageOf(sha, q, mf.Model()[blk]), rp))
              == Leaf(sha, marshal, q, x, Stored(MessageOf(sha, q, old(mf.Model())[blk]), r))
    ensures ZeroTail(mf.fileSize, mf.blockSize, blk, newBlock) ==> verified
  {
    hide CollisionR, HashPoint, Kept, ZeroTail;
    var held, _ := mf.GetBlock(blk);
    var m, newM := FromBytes(sha(held)) % q, FromBytes(sha(newBlock)) % q;
    var R := RandomPoint(G2, q, r);
    var leaf := ComputeHash(Y, R, m, sha, marshal);
    var _, rp', Rp := ComputeCollision(Y, x, r, m, newM, q, sha, marshal);
    rp := rp';
    var _ := mf.SetBlock(blk, newBlock);
    var after, _ := mf.GetBlock(blk);
    verified := Verify(leaf, Y, Rp, FromBytes(sha(after)) % q, sha, marshal);
    FileUpdateVerifies(sha, marshal, q, x, Stored(m, r), mf.fileSize, mf.blockSize, blk, newBlock);
  }

  lemma NoShortBlock(fileSize: nat, blockSize: nat, blk: nat)
    requires blockSize > 0 && blk < BlockCount(fileSize, blockSize) && fileSize % blockSize == 0
    ensures blockSize * blk + blockSize <= fileSize
  {
    var count := fileSize / blockSize;
    assert fileSize == blockSize * count;
    assert blockSize * (blk + 1) <= blockSize * count;
  }

  // ----- the benchmark runs -----

  /** runCSFigure1 without its clocks: hashes every block of the file, builds the tree and computes a
      collision for one block. `x` and `rs` are the random numbers drawn. The error is never returned. */
  method RunCSFigure1(mf: MemFileObj, newBlock: seq<byte>, target: nat, x: nat, rs: seq<nat>,
                      q: nat, sha: Sha, marshal: Marshaller)
    returns (cHashes: seq<Digest>, tree: Tree?, invalidCollision: bool)
    requires mf.Valid() && q > 1 && ModInverse(x, q).Some? && |rs| == mf.blockCount && target < mf.blockCount
    ensures |cHashes| == mf.blockCount
    ensures forall i :: 0 <= i < |cHashes| ==>
              cHashes[i] == Leaf(sha, marshal, q, x, Stored(MessageOf(sha, q, mf.Model()[i]), rs[i]))
    ensures tree != null && tree.root == Root(sha, cHashes) && tree.leaves == cHashes
    ensures !invalidCollision
  {
    hide HashPoint, CollisionR, Root;
    var Y := RandomPoint(G1, q, x);
    var targetM, targetCHash: Digest := 0, sha([]);
    cHashes := [];
    for i := 0 to mf.blockCount
      invariant |cHashes| == i && Y.e == x % q
      invariant forall j :: 0 <= j < i ==>
                  cHashes[j] == Leaf(sha, marshal, q, x, Stored(MessageOf(sha, q, mf.Model()[j]), rs[j]))
      invariant i > target ==> targetM == MessageOf(sha, q, mf.Model()[target]) && targetCHash == cHashes[target]
    {
      var R := RandomPoint(G2, q, rs[i]);
      var data, _ := mf.GetBlock(i);
      var m := FromBytes(sha(data)) % q;
      var ch := ComputeHash(Y, R, m, sha, marshal);
      cHashes := cHashes + [ch];
      if i == target {
        targetM, targetCHash := m, ch;
      }
    }
    ghost var passes: nat;
    tree, passes := NewTree(sha, cHashes);
    var newM := FromBytes(sha(newBlock)) % q;
    var newCHash, _, _ := ComputeCollision(Y, x, rs[target], targetM, newM, q, sha, marshal);
    CollisionKeepsPoint(q, x, rs[target], targetM, newM);
    invalidCollision := newCHash != targetCHash;
  }

  /** runCSFigure2 without its clocks: every update starts from the original randomness and message. The
      costs accumulate, and the error is never returned. */
  method RunCSFigure2(data: seq<byte>, newDataBlocks: seq<seq<byte>>, blockSize: nat, x: nat, r: nat,
                      q: nat, sha: Sha, marshal: Marshaller)
    returns (transCosts: seq<nat>, invalidCollision: bool)
    requires q > 1 && ModInverse(x, q).Some?
    ensures !invalidCollision
    ensures |transCosts| == |newDataBlocks|
    ensures forall i :: 0 <= i < |transCosts| ==> transCosts[i] == (i + 1) * (64 + 64 + blockSize)
  {
    hide HashPoint, CollisionR;
    var Y := RandomPoint(G1, q, x);
    var R := RandomPoint(G2, q, r);
    var targetM := FromBytes(sha(data)) % q;
    var targetCHash := ComputeHash(Y, R, targetM, sha, marshal);
    var sumCost := 0;
    transCosts := [];
    for i := 0 to |newDataBlocks|
      invariant |transCosts| == i && sumCost == i * (64 + 64 + blockSize) && Y.e == x % q
      invariant forall j :: 0 <= j < i ==> transCosts[j] == (j + 1) * (64 + 64 + blockSize)
    {
      var newM := FromBytes(sha(newDataBlocks[i])) % q;
      var newCHash, _, _ := ComputeCollision(Y, x, r, targetM, newM, q, sha, marshal);
      CollisionKeepsPoint(q, x, r, targetM, newM);
      if newCHash != targetCHash {
        return transCosts, true;
      }
      sumCost := sumCost + (64 + 64 + blockSize);
      transCosts := transCosts + [sumCost];
    }
    return transCosts, false;
  }
}
