/** The Merkle tree: hashed bottom-up layer by layer, an odd node alone, and the top node once more. */
module Merkle {
  import opened Bytes
  import opened Buffers
  import opened NumberTheory
  import opened Curve

  // ----- bottom-up -----

  function Joined(left: seq<byte>, right: seq<byte>): seq<byte> {
    left + right
  }

  function HalfUp(n: nat): nat {
    (n + 1) / 2
  }

  /** computeLayer as a function. */
  function Layer(sha: Sha, nodes: seq<Digest>): (r: seq<Digest>)
    ensures |r| == HalfUp(|nodes|)
    decreases |nodes|
  {
    if nodes == [] then []
    else if |nodes| == 1 then [sha(nodes[0])]
    else [sha(Joined(nodes[0], nodes[1]))] + Layer(sha, nodes[2..])
  }

  /** n layers further up. */
  function Layers(sha: Sha, nodes: seq<Digest>, n: nat): seq<Digest>
    decreases n
  {
    if n == 0 then nodes else Layers(sha, Layer(sha, nodes), n - 1)
  }

  /** The number of layers above the leaves: the least h with 2^h >= n. */
  function Height(n: nat): nat
    requires n > 0
  {
    if n == 1 then 0 else 1 + Height(HalfUp(n))
  }

  lemma {:induction false} HeightLeast(n: nat, h: nat)
    requires n > 0
    ensures Pow2(h) >= n <==> h >= Height(n)
    decreases h
  {
    if n > 1 && h > 0 {
      HeightLeast(HalfUp(n), h - 1);
    } else if n == 1 && h > 0 {
      HeightLeast(1, h - 1);
    }
  }

  lemma {:induction false} LayersToOne(sha: Sha, nodes: seq<Digest>)
    requires nodes != []
    ensures |Layers(sha, nodes, Height(|nodes|))| == 1
    decreases |nodes|
  {
    if |nodes| > 1 {
      LayersToOne(sha, Layer(sha, nodes));
    }
  }

  function Root(sha: Sha, leaves: seq<Digest>): Digest
    requires leaves != []
  {
    LayersToOne(sha, leaves);
    sha(Layers(sha, leaves, Height(|leaves|))[0])
  }

  // ----- top-down -----

  /** The node of height h over up to 2^h leaves: the hash of its only subtree, or of its two subtrees,
      the left one full. */
  function Node(sha: Sha, leaves: seq<Digest>, h: nat): Digest
    requires 1 <= |leaves| <= Pow2(h)
    decreases h
  {
    if h == 0 then leaves[0]
    else
      var half := Pow2(h - 1);
      if |leaves| <= half then sha(Node(sha, leaves, h - 1))
      else sha(Joined(Node(sha, leaves[..half], h - 1), Node(sha, leaves[half..], h - 1)))
  }

  lemma {:induction false} LayerSplit(sha: Sha, a: seq<Digest>, b: seq<Digest>, k: nat)
    requires |a| == 2 * k
    ensures |Layer(sha, a)| == k && Layer(sha, a + b) == Layer(sha, a) + Layer(sha, b)
    decreases k
  {
    if k == 0 {
      assert a + b == b;
    } else {
      assert (a + b)[2..] == a[2..] + b;
      LayerSplit(sha, a[2..], b, k - 1);
    }
  }

  lemma NodeLone(sha: Sha, leaves: seq<Digest>, h: nat)
    requires 1 <= |leaves| <= Pow2(h)
    ensures Node(sha, leaves, h + 1) == sha(Node(sha, leaves, h))
  {
  }

  lemma NodePair(sha: Sha, a: seq<Digest>, b: seq<Digest>, h: nat)
    requires |a| == Pow2(h) && 1 <= |b| <= Pow2(h)
    ensures Node(sha, a + b, h + 1) == sha(Joined(Node(sha, a, h), Node(sha, b, h)))
  {
    assert (a + b)[..Pow2(h)] == a && (a + b)[Pow2(h)..] == b;
  }

  lemma NodeOfTwo(sha: Sha, leaves: seq<Digest>)
    requires 1 <= |leaves| <= 2
    ensures |Layer(sha, leaves)| == 1 && Node(sha, leaves, 1) == Layer(sha, leaves)[0]
  {
  }

  /** `leaves` has one layer less above its next layer. */
  ghost predicate Lowers(sha: Sha, leaves: seq<Digest>, h: nat) {
    && 1 <= |leaves| <= Pow2(h + 1) && 1 <= |Layer(sha, leaves)| <= Pow2(h)
    && Node(sha, leaves, h + 1) == Node(sha, Layer(sha, leaves), h)
  }

  lemma LowersLone(sha: Sha, leaves: seq<Digest>, h: nat)
    requires h > 0 && |leaves| <= Pow2(h) && Lowers(sha, leaves, h - 1)
    ensures Lowers(sha, leaves, h)
  {
    hide Node, Layer, HalfUp;
    NodeLone(sha, leaves, h);
    NodeLone(sha, Layer(sha, leaves), h - 1);
  }

  lemma LowersPair(sha: Sha, a: seq<Digest>, b: seq<Digest>, h: nat)
    requires h > 0 && |a| == Pow2(h) && Lowers(sha, a, h - 1) && Lowers(sha, b, h - 1)
    ensures Lowers(sha, a + b, h)
  {
    hide Node, Layer, HalfUp, Pow2;
    PowStep(h);
    PowStep(h + 1);
    LayerSplit(sha, a, b, Pow2(h - 1));
    NodePair(sha, a, b, h);
    NodePair(sha, Layer(sha, a), Layer(sha, b), h - 1);
  }

  /** A node is the node one lower over the next layer. */
  lemma {:induction false} NodeOverLayer(sha: Sha, leaves: seq<Digest>, h: nat)
    requires 1 <= |leaves| <= Pow2(h + 1)
    ensures Lowers(sha, leaves, h)
    decreases h
  {
    if h == 0 {
      NodeOfTwo(sha, leaves);
    } else {
      hide Lowers;
      if |leaves| <= Pow2(h) {
        NodeOverLayer(sha, leaves, h - 1);
        LowersLone(sha, leaves, h);
      } else {
        var a, b := leaves[..Pow2(h)], leaves[Pow2(h)..];
        NodeOverLayer(sha, a, h - 1);
        NodeOverLayer(sha, b, h - 1);
        LowersPair(sha, a, b, h);
        assert leaves == a + b;
      }
    }
  }

  lemma PowStep(h: nat)
    requires h > 0
    ensures Pow2(h) == 2 * Pow2(h - 1)
  {
  }

  lemma {:induction false} LayersAreNode(sha: Sha, leaves: seq<Digest>, h: nat)
    requires 1 <= |leaves| <= Pow2(h)
    ensures Layers(sha, leaves, h) == [Node(sha, leaves, h)]
    decreases h
  {
    if h > 0 {
      NodeOverLayer(sha, leaves, h - 1);
      LayersAreNode(sha, Layer(sha, leaves), h - 1);
    }
  }

  /** The loop computes the hash of the top-down node of the least height that holds the leaves. */
  lemma RootTopDown(sha: Sha, leaves: seq<Digest>)
    requires leaves != []
    ensures |leaves| <= Pow2(Height(|leaves|))
    ensures Root(sha, leaves) == sha(Node(sha, leaves, Height(|leaves|)))
  {
    HeightLeast(|leaves|, Height(|leaves|));
    LayersAreNode(sha, leaves, Height(|leaves|));
  }

  /** A node above more leaves than one subtree holds hashes its left child, then its right. */
  lemma NodeChildren(sha: Sha, leaves: seq<Digest>, h: nat)
    requires h > 0 && Pow2(h - 1) < |leaves| <= Pow2(h)
    ensures var left: seq<byte>, right: seq<byte> :=
              Node(sha, leaves[..Pow2(h - 1)], h - 1), Node(sha, leaves[Pow2(h - 1)..], h - 1);
            Node(sha, leaves, h) == sha(left + right)
  {
  }

  /** The trees of one, two and three leaves, written out. */
  lemma SmallRoots(sha: Sha, a: Digest, b: Digest, c: Digest)
    ensures Root(sha, [a]) == sha(a)
    ensures var left: seq<byte>, right: seq<byte>, last: seq<byte> := a, b, sha(c);
            var pair: seq<byte> := sha(left + right);
            && Root(sha, [a, b]) == sha(pair)
            && Root(sha, [a, b, c]) == sha(sha(pair + last))
  {
    LayersUp(sha, [a, b], 1);
    LayersUp(sha, [a, b, c], 1);
    var lower := Layer(sha, [a, b, c]);
    assert [a, b, c][2..] == [c];
    assert Layer(sha, [c]) == [sha(c)];
    LayersUp(sha, lower, 1);
    assert Layers(sha, [a, b, c], 1) == Layers(sha, lower, 0) == lower;
    assert Layers(sha, [a, b], 1) == Layers(sha, Layer(sha, [a, b]), 0);
    assert Layers(sha, lower, 1) == Layers(sha, Layer(sha, lower), 0);
  }

  // ----- binding -----

  /** Two distinct inputs with the same hash. */
  predicate Collision(sha: Sha, x: seq<byte>, y: seq<byte>) {
    x != y && sha(x) == sha(y)
  }

  /** Equal nodes of one height over different leaves contain a collision, and here it is. */
  lemma {:induction false} ExtractCollision(sha: Sha, a: seq<Digest>, b: seq<Digest>, h: nat)
    returns (x: seq<byte>, y: seq<byte>)
    requires 1 <= |a| <= Pow2(h) && 1 <= |b| <= Pow2(h)
    requires a != b && Node(sha, a, h) == Node(sha, b, h)
    ensures Collision(sha, x, y)
    decreases h
  {
    var half := Pow2(h - 1);
    x, y := Preimage(sha, a, h), Preimage(sha, b, h);
    if x == y {
      if |a| <= half {
        x, y := ExtractCollision(sha, a, b, h - 1);
      } else {
        SplitPair(Node(sha, a[..half], h - 1), Node(sha, a[half..], h - 1),
                  Node(sha, b[..half], h - 1), Node(sha, b[half..], h - 1));
        if a[..half] != b[..half] {
          x, y := ExtractCollision(sha, a[..half], b[..half], h - 1);
        } else {
          assert a == a[..half] + a[half..] && b == b[..half] + b[half..];
          x, y := ExtractCollision(sha, a[half..], b[half..], h - 1);
        }
      }
    }
  }

  /** What is hashed into a node: 32 bytes for a lone child, 64 for two. */
  function Preimage(sha: Sha, leaves: seq<Digest>, h: nat): (r: seq<byte>)
    requires h > 0 && 1 <= |leaves| <= Pow2(h)
    ensures sha(r) == Node(sha, leaves, h)
    ensures |r| == if |leaves| <= Pow2(h - 1) then 32 else 64
  {
    var half := Pow2(h - 1);
    if |leaves| <= half then Node(sha, leaves, h - 1)
    else Joined(Node(sha, leaves[..half], h - 1), Node(sha, leaves[half..], h - 1))
  }

  lemma SplitPair(a: Digest, b: Digest, c: Digest, d: Digest)
    requires Joined(a, b) == Joined(c, d)
    ensures a == c && b == d
  {
    assert (a + b)[..32] == a && (c + d)[..32] == c;
    assert (a + b)[32..] == b && (c + d)[32..] == d;
  }

  /** Binding at one height: equal roots of different leaf lists, even of different lengths, give up a collision. */
  lemma RootBinds(sha: Sha, a: seq<Digest>, b: seq<Digest>) returns (x: seq<byte>, y: seq<byte>)
    requires a != [] && b != [] && Height(|a|) == Height(|b|)
    requires a != b && Root(sha, a) == Root(sha, b)
    ensures Collision(sha, x, y)
  {
    RootTopDown(sha, a);
    RootTopDown(sha, b);
    x, y := Node(sha, a, Height(|a|)), Node(sha, b, Height(|b|));
    if x == y {
      x, y := ExtractCollision(sha, a, b, Height(|a|));
    }
  }

  lemma {:induction false} LayersUp(sha: Sha, nodes: seq<Digest>, k: nat)
    requires nodes != [] && k <= Height(|nodes|)
    ensures Layers(sha, nodes, k) != [] && Height(|Layers(sha, nodes, k)|) == Height(|nodes|) - k
    ensures Root(sha, Layers(sha, nodes, k)) == Root(sha, nodes)
    decreases k
  {
    if k > 0 {
      LayersUp(sha, Layer(sha, nodes), k - 1);
    }
  }

  /** Across heights the root does not bind: a lower list has the same root exactly when it is the layer
      of the higher list at its height - or a collision is at hand. */
  lemma RootAcrossHeights(sha: Sha, a: seq<Digest>, b: seq<Digest>) returns (x: seq<byte>, y: seq<byte>)
    requires a != [] && b != [] && Height(|a|) <= Height(|b|)
    ensures var up := Layers(sha, b, Height(|b|) - Height(|a|));
            && (a == up ==> Root(sha, a) == Root(sha, b))
            && (Root(sha, a) == Root(sha, b) ==> a == up || Collision(sha, x, y))
  {
    var up := Layers(sha, b, Height(|b|) - Height(|a|));
    LayersUp(sha, b, Height(|b|) - Height(|a|));
    x, y := [], [];
    if a != up && Root(sha, a) == Root(sha, b) {
      x, y := RootBinds(sha, a, up);
    }
  }

  /** For example, a tree of two leaves and the one-leaf tree over their pair hash share a root. */
  lemma RootNotBindingAcrossHeights(sha: Sha, left: Digest, right: Digest)
    ensures Root(sha, [sha(Joined(left, right))]) == Root(sha, [left, right])
  {
    assert Layer(sha, [left, right]) == [sha(Joined(left, right))];
    LayersUp(sha, [left, right], 1);
    assert Layers(sha, [left, right], 1) == Layers(sha, Layer(sha, [left, right]), 0);
  }

  // ----- the code -----

  method ComputePair(sha: Sha, left: Digest, right: Digest) returns (node: Digest)
    ensures var first: seq<byte>, second: seq<byte> := left, right;
            node == sha(first + second)
  {
    var data := new byte[64];
    var _ := CopyInto(data, 0, left);
    var _ := CopyInto(data, 32, right);
    assert data[..] == Joined(left, right);
    node := sha(data[..]);
  }

  lemma LayerNext(sha: Sha, nodes: seq<Digest>, i: nat)
    requires 2 * i + 1 < |nodes|
    ensures Layer(sha, nodes[2 * i..]) == [sha(Joined(nodes[2 * i], nodes[2 * i + 1]))] + Layer(sha, nodes[2 * (i + 1)..])
  {
    assert nodes[2 * i..][2..] == nodes[2 * (i + 1)..];
  }

  method ComputeLayer(sha: Sha, nodes: seq<Digest>) returns (results: seq<Digest>)
    ensures results == Layer(sha, nodes)
  {
    hide Layer;
    var count, rem := |nodes| / 2, |nodes| % 2;
    results := [];
    assert nodes[0..] == nodes;
    for i := 0 to count
      invariant results + Layer(sha, nodes[2 * i..]) == Layer(sha, nodes)
    {
      LayerNext(sha, nodes, i);
      var pair := ComputePair(sha, nodes[i * 2], nodes[i * 2 + 1]);
      results := results + [pair];
    }
    LayerEnd(sha, nodes[2 * count..]);
    if rem == 1 {
      results := results + [sha(nodes[count * 2])];
    }
  }

  lemma LayerEnd(sha: Sha, nodes: seq<Digest>)
    ensures |nodes| == 0 ==> Layer(sha, nodes) == []
    ensures |nodes| == 1 ==> Layer(sha, nodes) == [sha(nodes[0])]
  {
  }

  class Tree {
    const root: Digest
    const leaves: seq<Digest>

    constructor (root: Digest, leaves: seq<Digest>)
      ensures this.root == root && this.leaves == leaves
    {
      this.root, this.leaves := root, leaves;
    }
  }

  /** NewTree; `passes` counts the layers the loop computed. */
  method NewTree(sha: Sha, leaves: seq<Digest>) returns (tree: Tree?, ghost passes: nat)
    ensures leaves == [] ==> tree == null
    ensures leaves != [] ==> tree != null && fresh(tree) && tree.root == Root(sha, leaves) && tree.leaves == leaves
                             && passes == Height(|leaves|)
  {
    passes := 0;
    if |leaves| == 0 {
      return null, 0;
    }
    var layer := leaves;
    while |layer| > 1
      invariant layer != [] && passes + Height(|layer|) == Height(|leaves|)
      invariant Root(sha, layer) == Root(sha, leaves)
      decreases |layer|
    {
      LayersUp(sha, layer, 1);
      assert Layers(sha, layer, 1) == Layers(sha, Layer(sha, layer), 0);
      layer := ComputeLayer(sha, layer);
      passes := passes + 1;
    }
    tree := new Tree(sha(layer[0]), leaves);
  }
}
